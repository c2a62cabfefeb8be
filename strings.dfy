/** Character classes, ASCII case folding, Python's string order and the
    `str.split` / `str.join` operations the pipeline relies on. Python's
    Unicode-aware `\w`, `lower()`, `isdigit()` and `split()` are modelled on
    ASCII. */
module Strings {

  predicate IsUpper(c: char) { 'A' <= c <= 'Z' }

  predicate IsLetter(c: char) { 'A' <= c <= 'Z' || 'a' <= c <= 'z' }

  predicate IsDigit(c: char) { '0' <= c <= '9' }

  /** Python's `\w` on ASCII text. */
  predicate IsWordChar(c: char) { IsLetter(c) || IsDigit(c) || c == '_' }

  /** The characters `str.split()` treats as separators (ASCII part). */
  predicate IsSpace(c: char)
  {
    c == ' ' || c == '\t' || c == '\n' || c == '\r' || c == '\U{B}' || c == '\U{C}'
    || ('\U{1C}' <= c <= '\U{1F}')
  }

  function LowerChar(c: char): (r: char)
    ensures !IsUpper(r)
    ensures IsUpper(c) ==> IsLetter(r) && r as int == c as int + 32
    ensures !IsUpper(c) ==> r == c
  {
    if IsUpper(c) then (c as int + 32) as char else c
  }

  /** `str.lower()` on ASCII. */
  function Lower(s: string): (r: string)
    ensures |r| == |s|
    ensures forall i :: 0 <= i < |r| ==> !IsUpper(r[i])
    ensures forall i :: 0 <= i < |s| && !IsUpper(s[i]) ==> r[i] == s[i]
  {
    seq(|s|, i requires 0 <= i < |s| => LowerChar(s[i]))
  }

  predicate IsLowerCase(s: string) { forall i :: 0 <= i < |s| ==> !IsUpper(s[i]) }

  lemma LowerIsLowerCase(s: string)
    ensures IsLowerCase(Lower(s))
  {
  }

  /** Lower-casing twice is lower-casing once. */
  lemma LowerIdempotent(s: string)
    ensures Lower(Lower(s)) == Lower(s)
  {
  }

  /** A string without upper-case letters is its own lower-case form. */
  lemma LowerOfLowerCase(s: string)
    requires IsLowerCase(s)
    ensures Lower(s) == s
  {
  }

  lemma LowerAppend(a: string, b: string)
    ensures Lower(a + b) == Lower(a) + Lower(b)
  {
  }

  /** Python's `<=` on strings: lexicographic by code point, a proper prefix first. */
  predicate LessEq(a: string, b: string)
  {
    |a| == 0 || (|b| > 0 && (a[0] < b[0] || (a[0] == b[0] && LessEq(a[1..], b[1..]))))
  }

  lemma {:induction false} LessEqTotal(a: string, b: string)
    ensures LessEq(a, b) || LessEq(b, a)
  {
    if |a| > 0 && |b| > 0 && a[0] == b[0] {
      LessEqTotal(a[1..], b[1..]);
    }
  }

  lemma {:induction false} LessEqAntisymmetric(a: string, b: string)
    requires LessEq(a, b) && LessEq(b, a)
    ensures a == b
  {
    if |a| > 0 && |b| > 0 {
      LessEqAntisymmetric(a[1..], b[1..]);
      assert a == [a[0]] + a[1..];
      assert b == [b[0]] + b[1..];
    }
  }

  /** `sep.join(xs)`. */
  function Join(xs: seq<string>, sep: string): string
  {
    if |xs| == 0 then "" else if |xs| == 1 then xs[0] else xs[0] + sep + Join(xs[1..], sep)
  }

  /** `s` holds `sep` starting at position `j`. */
  predicate OccursAt(s: string, sep: string, j: nat)
  {
    j + |sep| <= |s| && s[j..j + |sep|] == sep
  }

  predicate Contains(s: string, sep: string)
  {
    exists j :: 0 <= j <= |s| && OccursAt(s, sep, j)
  }

  /** The first position at or after `j` where `sep` occurs, or `|s|` if there is none. */
  function FindFrom(s: string, sep: string, j: nat): (k: nat)
    requires |sep| > 0 && j <= |s|
    decreases |s| - j
    ensures j <= k <= |s|
    ensures k < |s| ==> OccursAt(s, sep, k)
    ensures forall i: nat :: j <= i < k ==> !OccursAt(s, sep, i)
    ensures k == |s| ==> forall i: nat :: j <= i ==> !OccursAt(s, sep, i)
  {
    if j == |s| then |s| else if OccursAt(s, sep, j) then j else FindFrom(s, sep, j + 1)
  }

  /** `s.split(sep)` for a non-empty separator: the pieces between the
      non-overlapping occurrences of `sep`, scanned from the left. */
  function SplitOn(s: string, sep: string): (r: seq<string>)
    requires |sep| > 0
    decreases |s|
    ensures |r| >= 1
    ensures Join(r, sep) == s
    ensures forall p :: p in r ==> !Contains(p, sep)
  {
    var k := FindFrom(s, sep, 0);
    if k == |s| then
      assert !Contains(s, sep) by {
        forall j: nat ensures !OccursAt(s, sep, j) { }
      }
      [s]
    else
      var head, rest := s[..k], SplitOn(s[k + |sep|..], sep);
      assert !Contains(head, sep) by {
        forall j: nat | OccursAt(head, sep, j) ensures false {
          assert s[j..j + |sep|] == head[j..j + |sep|];
          assert j < k && OccursAt(s, sep, j);
        }
      }
      assert Join([head] + rest, sep) == head + sep + Join(rest, sep);
      assert s == s[..k] + s[k..k + |sep|] + s[k + |sep|..];
      [head] + rest
  }

  /** The maximal run of non-space characters at the start of `s`. */
  function FieldLength(s: string): (n: nat)
    ensures n <= |s|
    ensures forall i :: 0 <= i < n ==> !IsSpace(s[i])
    ensures n < |s| ==> IsSpace(s[n])
  {
    if |s| == 0 || IsSpace(s[0]) then 0 else 1 + FieldLength(s[1..])
  }

  /** `s.split()`: the maximal runs of non-whitespace characters. */
  function Fields(s: string): (r: seq<string>)
    decreases |s|
    ensures forall w :: w in r ==> |w| > 0 && forall i :: 0 <= i < |w| ==> !IsSpace(w[i])
  {
    if |s| == 0 then []
    else if IsSpace(s[0]) then Fields(s[1..])
    else
      var n := FieldLength(s);
      [s[..n]] + Fields(s[n..])
  }

  predicate NoSpace(w: string) { forall i :: 0 <= i < |w| ==> !IsSpace(w[i]) }

  lemma {:induction false} FieldsOfField(w: string, rest: string)
    requires |w| > 0 && NoSpace(w)
    requires |rest| == 0 || IsSpace(rest[0])
    ensures Fields(w + rest) == [w] + Fields(rest)
  {
    assert FieldLengthIs(w + rest, |w|) by { FieldLengthOf(w, rest); }
    assert (w + rest)[..|w|] == w;
    assert (w + rest)[|w|..] == rest;
  }

  predicate FieldLengthIs(s: string, n: nat) { FieldLength(s) == n }

  lemma {:induction false} FieldLengthOf(w: string, rest: string)
    requires NoSpace(w)
    requires |rest| == 0 || IsSpace(rest[0])
    ensures FieldLength(w + rest) == |w|
  {
    if |w| > 0 {
      assert (w + rest)[1..] == w[1..] + rest;
      FieldLengthOf(w[1..], rest);
    }
  }

  /** Splitting a space-joined list of non-empty, space-free words gives the words back. */
  lemma {:induction false} FieldsOfJoin(ws: seq<string>)
    requires forall w :: w in ws ==> |w| > 0 && NoSpace(w)
    ensures Fields(Join(ws, " ")) == ws
  {
    if |ws| == 0 {
    } else if |ws| == 1 {
      FieldsOfField(ws[0], "");
      assert ws[0] + "" == ws[0];
    } else {
      var rest := Join(ws[1..], " ");
      FieldsOfField(ws[0], " " + rest);
      assert ws[0] + " " + rest == ws[0] + (" " + rest);
      assert Fields(" " + rest) == Fields(rest);
      FieldsOfJoin(ws[1..]);
      assert ws == [ws[0]] + ws[1..];
    }
  }
}
