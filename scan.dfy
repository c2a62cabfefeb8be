/** Small scanners for the three regular expressions of the scoring engine,
    each giving what `re.findall` returns: leftmost, non-overlapping matches,
    greedy with backtracking. `\w` is ASCII here. */
module Scan {
  import opened Strings

  predicate AllWordChars(t: string) { forall i :: 0 <= i < |t| ==> IsWordChar(t[i]) }

  /** Length of the run of `\w` characters at the start of `s`. */
  function WordRunLength(s: string): (n: nat)
    ensures n <= |s|
    ensures forall i :: 0 <= i < n ==> IsWordChar(s[i])
    ensures n < |s| ==> !IsWordChar(s[n])
  {
    if |s| == 0 || !IsWordChar(s[0]) then 0 else 1 + WordRunLength(s[1..])
  }

  /** `re.findall(r'\b(\w+)', s)`: every maximal run of word characters. */
  function WordRuns(s: string): (r: seq<string>)
    decreases |s|
    ensures forall t :: t in r ==> |t| > 0 && AllWordChars(t)
  {
    if |s| == 0 then []
    else if !IsWordChar(s[0]) then WordRuns(s[1..])
    else
      var n := WordRunLength(s);
      [s[..n]] + WordRuns(s[n..])
  }

  predicate IsWordOrQuote(c: char) { IsWordChar(c) || c == '\'' }

  /** Length of the run of `[\w']` characters at the start of `s`. */
  function WordOrQuoteRunLength(s: string): (n: nat)
    ensures n <= |s|
    ensures forall i :: 0 <= i < n ==> IsWordOrQuote(s[i])
  {
    if |s| == 0 || !IsWordOrQuote(s[0]) then 0 else 1 + WordOrQuoteRunLength(s[1..])
  }

  /** The backtracking of `[\w']*\w`: the longest prefix of `s[..n]` that ends
      in a word character. */
  function TrimToWord(s: string, n: nat): (e: nat)
    requires 1 <= n <= |s| && IsWordChar(s[0])
    ensures 1 <= e <= n && IsWordChar(s[e - 1])
    ensures forall i :: e <= i < n ==> !IsWordChar(s[i])
  {
    if IsWordChar(s[n - 1]) then n else TrimToWord(s, n - 1)
  }

  predicate IsToken(t: string)
  {
    |t| >= 2 && IsWordChar(t[0]) && IsWordChar(t[|t| - 1])
    && forall i :: 0 <= i < |t| ==> IsWordOrQuote(t[i])
  }

  /** `re.findall(r"([\w][\w']*\w)", s)`: runs of word characters and
      apostrophes that start and end with a word character and have at
      least two characters. A single-letter word is not a token. */
  function Tokens(s: string): (r: seq<string>)
    decreases |s|
    ensures forall t :: t in r ==> IsToken(t)
  {
    if |s| == 0 then []
    else if !IsWordChar(s[0]) then Tokens(s[1..])
    else
      var e := TrimToWord(s, WordOrQuoteRunLength(s));
      if e >= 2 then [s[..e]] + Tokens(s[e..]) else Tokens(s[1..])
  }

  /** The number of leading decimal digits of `s`, at most `most`. */
  function LeadingDigits(s: string, most: nat): (n: nat)
    ensures n <= most && n <= |s|
    ensures forall i :: 0 <= i < n ==> IsDigit(s[i])
  {
    if most == 0 || |s| == 0 || !IsDigit(s[0]) then 0 else 1 + LeadingDigits(s[1..], most - 1)
  }

  /** Length of a match of `[a-zA-Z][a-zA-Z][a-zA-Z][a-zA-Z]?-[0-9][0-9]?[0-9]?`
      at the start of `s`, or 0. The optional fourth letter is tried first;
      without it the hyphen must be the fourth character. */
  function LocusMatch(s: string): (n: nat)
    ensures n == 0 || 5 <= n <= |s|
    ensures n > 0 ==> IsLetter(s[0]) && IsLetter(s[1]) && IsLetter(s[2])
  {
    if |s| >= 6 && IsLetter(s[0]) && IsLetter(s[1]) && IsLetter(s[2]) && IsLetter(s[3])
       && s[4] == '-' && IsDigit(s[5])
    then 5 + LeadingDigits(s[5..], 3)
    else if |s| >= 5 && IsLetter(s[0]) && IsLetter(s[1]) && IsLetter(s[2])
       && s[3] == '-' && IsDigit(s[4])
    then 4 + LeadingDigits(s[4..], 3)
    else 0
  }

  /** `len(re.findall(locus_pattern, s))`: the number of non-overlapping,
      unanchored locus-tag matches. Each match takes at least five characters. */
  function LocusCount(s: string): (r: nat)
    decreases |s|
    ensures 5 * r <= |s|
  {
    if |s| == 0 then 0
    else
      var m := LocusMatch(s);
      if m > 0 then 1 + LocusCount(s[m..]) else LocusCount(s[1..])
  }

  /** A one-letter prefix is not a locus tag: "X-12" has no match. */
  lemma ShortPrefixIsNoLocus()
    ensures LocusCount("X-12") == 0
  {
  }

  /** Three letters and a hyphen are enough. */
  lemma ThreeLetterLocus()
    ensures LocusCount("ABC-1") == 1
  {
  }

  /** The optional fourth letter is taken when present, with up to three digits. */
  lemma FourLetterLocus()
    ensures LocusMatch("ABCD-123") == 8
  {
  }

  /** The search is unanchored: after a failed match at the first letter the
      scan moves on by one character and finds the four-letter tag "BCDE-1". */
  lemma LocusAfterBacktrack()
    ensures LocusMatch("ABCDE-1") == 0 && LocusCount("ABCDE-1") == 1
    ensures LocusMatch("ABCDE-1"[1..]) == 6
  {
    var s := "ABCDE-1";
    assert s[1..] == "BCDE-1";
    assert "BCDE-1"[6..] == "";
  }

  lemma {:induction false} QuoteRunOf(w: string, rest: string)
    requires forall i :: 0 <= i < |w| ==> IsWordOrQuote(w[i])
    requires |rest| == 0 || !IsWordOrQuote(rest[0])
    ensures WordOrQuoteRunLength(w + rest) == |w|
  {
    if |w| > 0 {
      assert (w + rest)[1..] == w[1..] + rest;
      QuoteRunOf(w[1..], rest);
    }
  }

  /** A token followed by a separator is scanned as that one token. */
  lemma TokensOfToken(w: string, rest: string)
    requires IsToken(w)
    requires |rest| == 0 || !IsWordOrQuote(rest[0])
    ensures Tokens(w + rest) == [w] + Tokens(rest)
  {
    QuoteRunOf(w, rest);
    assert (w + rest)[..|w|] == w;
    assert (w + rest)[|w|..] == rest;
  }

  /** A leading non-word character is skipped. */
  lemma TokensSkip(c: char, rest: string)
    requires !IsWordChar(c)
    ensures Tokens([c] + rest) == Tokens(rest)
  {
    assert ([c] + rest)[1..] == rest;
  }

  lemma {:induction false} WordRunOf(w: string, rest: string)
    requires AllWordChars(w)
    requires |rest| == 0 || !IsWordChar(rest[0])
    ensures WordRunLength(w + rest) == |w|
  {
    if |w| > 0 {
      assert (w + rest)[1..] == w[1..] + rest;
      WordRunOf(w[1..], rest);
    }
  }

  /** A run of word characters followed by a separator is one `\w+` match. */
  lemma WordRunsOfRun(w: string, rest: string)
    requires |w| > 0 && AllWordChars(w)
    requires |rest| == 0 || !IsWordChar(rest[0])
    ensures WordRuns(w + rest) == [w] + WordRuns(rest)
  {
    WordRunOf(w, rest);
    assert (w + rest)[..|w|] == w;
    assert (w + rest)[|w|..] == rest;
  }

  lemma WordRunsSkip(c: char, rest: string)
    requires !IsWordChar(c)
    ensures WordRuns([c] + rest) == WordRuns(rest)
  {
    assert ([c] + rest)[1..] == rest;
  }

  /** Two words separated by one space are two tokens. */
  lemma TokensOfTwoWords(a: string, b: string)
    requires IsToken(a) && IsToken(b)
    ensures Tokens(a + " " + b) == [a, b]
  {
    TokensOfToken(a, " " + b);
    assert a + " " + b == a + (" " + b);
    TokensSkip(' ', b);
    TokensOfToken(b, "");
    assert b + "" == b;
  }

  /** Two words separated by one space are two `\w+` runs. */
  lemma WordRunsOfTwoWords(a: string, b: string)
    requires |a| > 0 && AllWordChars(a) && |b| > 0 && AllWordChars(b)
    ensures WordRuns(a + " " + b) == [a, b]
  {
    WordRunsOfRun(a, " " + b);
    assert a + " " + b == a + (" " + b);
    WordRunsSkip(' ', b);
    WordRunsOfRun(b, "");
    assert b + "" == b;
  }
}
