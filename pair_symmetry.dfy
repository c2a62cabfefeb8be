/** Why every co-occurrence of two different words is counted twice: within a
    sentence the generators visit each ordered pair of positions, so a pair
    and its mirror image are emitted equally often, and both land on the same
    key. */
module PairSymmetry {
  import opened Strings
  import opened Scan
  import opened Collections
  import opened Matrix

  /** `f(i, 0) + ... + f(i, cols - 1)`. */
  function RowSum(f: (nat, nat) -> nat, i: nat, cols: nat): nat
  {
    if cols == 0 then 0 else RowSum(f, i, cols - 1) + f(i, cols - 1)
  }

  /** `f(0, j) + ... + f(rows - 1, j)`. */
  function ColumnSum(f: (nat, nat) -> nat, j: nat, rows: nat): nat
  {
    if rows == 0 then 0 else ColumnSum(f, j, rows - 1) + f(rows - 1, j)
  }

  /** The sum of `f` over the grid, row by row. */
  function ByRows(f: (nat, nat) -> nat, rows: nat, cols: nat): nat
  {
    if rows == 0 then 0 else ByRows(f, rows - 1, cols) + RowSum(f, rows - 1, cols)
  }

  /** The sum of `f` over the grid, column by column. */
  function ByColumns(f: (nat, nat) -> nat, rows: nat, cols: nat): nat
  {
    if cols == 0 then 0 else ByColumns(f, rows, cols - 1) + ColumnSum(f, cols - 1, rows)
  }

  lemma {:induction false} ByColumnsAddRow(f: (nat, nat) -> nat, rows: nat, cols: nat)
    ensures ByColumns(f, rows + 1, cols) == ByColumns(f, rows, cols) + RowSum(f, rows, cols)
  {
    if cols > 0 {
      ByColumnsAddRow(f, rows, cols - 1);
    }
  }

  /** Summing by rows or by columns gives the same total. */
  lemma {:induction false} RowsColumns(f: (nat, nat) -> nat, rows: nat, cols: nat)
    ensures ByRows(f, rows, cols) == ByColumns(f, rows, cols)
  {
    if rows > 0 {
      RowsColumns(f, rows - 1, cols);
      ByColumnsAddRow(f, rows - 1, cols);
    } else {
      NoRows(f, cols);
    }
  }

  lemma {:induction false} NoRows(f: (nat, nat) -> nat, cols: nat)
    ensures ByColumns(f, 0, cols) == 0
  {
    if cols > 0 {
      NoRows(f, cols - 1);
    }
  }

  lemma {:induction false} ColumnOfTranspose(f: (nat, nat) -> nat, g: (nat, nat) -> nat, j: nat, n: nat)
    requires forall a: nat, b: nat :: f(a, b) == g(b, a)
    ensures ColumnSum(f, j, n) == RowSum(g, j, n)
  {
    if n > 0 {
      ColumnOfTranspose(f, g, j, n - 1);
    }
  }

  /** Summing `f` by columns is summing its transpose `g` by rows. */
  lemma {:induction false} ByColumnsTranspose(f: (nat, nat) -> nat, g: (nat, nat) -> nat, rows: nat, cols: nat)
    requires forall a: nat, b: nat :: f(a, b) == g(b, a)
    ensures ByColumns(f, rows, cols) == ByRows(g, cols, rows)
  {
    if cols > 0 {
      ByColumnsTranspose(f, g, rows, cols - 1);
      ColumnOfTranspose(f, g, cols - 1, rows);
    }
  }

  /** Position `i` of `hold` pairs with position `j` to emit `p`. */
  predicate Emits(hold: seq<string>, exclude: set<string>, p: Pair, i: nat, j: nat)
  {
    i < |hold| && j < |hold| && hold[i] !in exclude && hold[j] !in exclude
    && hold[j] != hold[i] && (Lower(hold[i]), Lower(hold[j])) == p
  }

  /** 1 where positions `i` and `j` emit `p`, 0 elsewhere. */
  function Indicator(hold: seq<string>, exclude: set<string>, p: Pair): (nat, nat) -> nat
  {
    (i: nat, j: nat) => if Emits(hold, exclude, p, i, j) then 1 else 0
  }

  lemma InnerPairsLast(thing: string, words: seq<string>, exclude: set<string>)
    requires |words| > 0
    ensures var word := words[|words| - 1];
            InnerPairs(thing, words, exclude) == InnerPairs(thing, words[..|words| - 1], exclude)
              + (if word != thing && word !in exclude then [(Lower(thing), Lower(word))] else [])
  {
  }

  /** The pair of word `j` with word `i` is emitted once when it is `p`. */
  lemma OneIndicator(hold: seq<string>, exclude: set<string>, p: Pair, i: nat, j: nat)
    requires i < |hold| && j < |hold| && hold[i] !in exclude
    ensures var word := hold[j];
            Count(if word != hold[i] && word !in exclude then [(Lower(hold[i]), Lower(word))] else [], p)
              == Indicator(hold, exclude, p)(i, j)
  {
  }

  lemma InnerStep(hold: seq<string>, exclude: set<string>, p: Pair, i: nat, cols: nat)
    requires i < |hold| && hold[i] !in exclude && 0 < cols <= |hold|
    ensures Count(InnerPairs(hold[i], hold[..cols], exclude), p)
              == Count(InnerPairs(hold[i], hold[..cols - 1], exclude), p) + Indicator(hold, exclude, p)(i, cols - 1)
  {
    assert hold[..cols][..cols - 1] == hold[..cols - 1];
    var word := hold[cols - 1];
    var last: seq<Pair> := if word != hold[i] && word !in exclude then [(Lower(hold[i]), Lower(word))] else [];
    InnerPairsLast(hold[i], hold[..cols], exclude);
    CountAppend(InnerPairs(hold[i], hold[..cols - 1], exclude), last, p);
    OneIndicator(hold, exclude, p, i, cols - 1);
  }

  lemma {:induction false} InnerCount(hold: seq<string>, exclude: set<string>, p: Pair, i: nat, cols: nat)
    requires i < |hold| && hold[i] !in exclude && cols <= |hold|
    ensures Count(InnerPairs(hold[i], hold[..cols], exclude), p) == RowSum(Indicator(hold, exclude, p), i, cols)
  {
    if cols > 0 {
      InnerCount(hold, exclude, p, i, cols - 1);
      InnerStep(hold, exclude, p, i, cols);
    }
  }

  lemma {:induction false} ExcludedRow(hold: seq<string>, exclude: set<string>, p: Pair, i: nat, cols: nat)
    requires i < |hold| && hold[i] in exclude
    ensures RowSum(Indicator(hold, exclude, p), i, cols) == 0
  {
    if cols > 0 {
      ExcludedRow(hold, exclude, p, i, cols - 1);
    }
  }

  lemma SentencePairsLast(hold: seq<string>, rows: nat, exclude: set<string>)
    requires 0 < rows <= |hold|
    ensures SentencePairs(hold, hold[..rows], exclude) == SentencePairs(hold, hold[..rows - 1], exclude)
              + (if hold[rows - 1] !in exclude then InnerPairs(hold[rows - 1], hold, exclude) else [])
  {
    assert hold[..rows][..rows - 1] == hold[..rows - 1];
  }

  /** Row `rows - 1` adds its row sum to the count. */
  lemma SentenceStep(hold: seq<string>, exclude: set<string>, p: Pair, rows: nat)
    requires 0 < rows <= |hold|
    ensures Count(SentencePairs(hold, hold[..rows], exclude), p)
              == Count(SentencePairs(hold, hold[..rows - 1], exclude), p) + RowSum(Indicator(hold, exclude, p), rows - 1, |hold|)
  {
    SentencePairsLast(hold, rows, exclude);
    var thing := hold[rows - 1];
    var front := SentencePairs(hold, hold[..rows - 1], exclude);
    if thing !in exclude {
      CountAppend(front, InnerPairs(thing, hold, exclude), p);
      InnerCount(hold, exclude, p, rows - 1, |hold|);
      assert hold[..|hold|] == hold;
    } else {
      assert front + [] == front;
      ExcludedRow(hold, exclude, p, rows - 1, |hold|);
    }
  }

  /** A sentence emits `p` once for each pair of positions that emits it. */
  lemma {:induction false} SentenceCount(hold: seq<string>, exclude: set<string>, p: Pair, rows: nat)
    requires rows <= |hold|
    ensures Count(SentencePairs(hold, hold[..rows], exclude), p) == ByRows(Indicator(hold, exclude, p), rows, |hold|)
  {
    if rows > 0 {
      SentenceCount(hold, exclude, p, rows - 1);
      SentenceStep(hold, exclude, p, rows);
    }
  }

  /** Within one sentence a pair and its mirror image are emitted equally often. */
  lemma SentenceMirror(hold: seq<string>, exclude: set<string>, a: string, b: string)
    ensures Count(SentencePairs(hold, hold, exclude), (a, b)) == Count(SentencePairs(hold, hold, exclude), (b, a))
  {
    var f := Indicator(hold, exclude, (a, b));
    var g := Indicator(hold, exclude, (b, a));
    assert forall i: nat, j: nat :: f(i, j) == g(j, i) by {
      forall i: nat, j: nat ensures f(i, j) == g(j, i) {
        assert Emits(hold, exclude, (a, b), i, j) == Emits(hold, exclude, (b, a), j, i);
      }
    }
    assert hold[..|hold|] == hold;
    SentenceCount(hold, exclude, (a, b), |hold|);
    SentenceCount(hold, exclude, (b, a), |hold|);
    RowsColumns(f, |hold|, |hold|);
    ByColumnsTranspose(f, g, |hold|, |hold|);
  }

  lemma {:induction false} TextMirror(sentences: seq<string>, exclude: set<string>, a: string, b: string)
    ensures Count(TextPairs(sentences, exclude), (a, b)) == Count(TextPairs(sentences, exclude), (b, a))
  {
    if |sentences| > 0 {
      var front := sentences[..|sentences| - 1];
      var hold := WordRuns(sentences[|sentences| - 1]);
      TextMirror(front, exclude, a, b);
      SentenceMirror(hold, exclude, a, b);
      CountAppend(TextPairs(front, exclude), SentencePairs(hold, hold, exclude), (a, b));
      CountAppend(TextPairs(front, exclude), SentencePairs(hold, hold, exclude), (b, a));
    }
  }

  /** Over a whole corpus a pair and its mirror image are emitted equally often. */
  lemma {:induction false} CorpusMirror(abstracts: seq<string>, exclude: set<string>, a: string, b: string)
    ensures Count(CorpusPairs(abstracts, exclude), (a, b)) == Count(CorpusPairs(abstracts, exclude), (b, a))
  {
    if |abstracts| > 0 {
      var front := abstracts[..|abstracts| - 1];
      var text := TextPairs(SplitOn(abstracts[|abstracts| - 1], ". "), exclude);
      CorpusMirror(front, exclude, a, b);
      TextMirror(SplitOn(abstracts[|abstracts| - 1], ". "), exclude, a, b);
      CountAppend(CorpusPairs(front, exclude), text, (a, b));
      CountAppend(CorpusPairs(front, exclude), text, (b, a));
    }
  }

  /** A lower-case run of word characters: what every emitted word is. */
  predicate Plain(w: string) { IsLowerCase(w) && AllWordChars(w) }

  predicate PlainPairs(ps: seq<Pair>)
  {
    forall i :: 0 <= i < |ps| ==> Plain(ps[i].0) && Plain(ps[i].1)
  }

  lemma LowerWordIsPlain(w: string)
    requires AllWordChars(w)
    ensures Plain(Lower(w))
  {
  }

  predicate AllWords(ws: seq<string>) { forall i :: 0 <= i < |ws| ==> AllWordChars(ws[i]) }

  lemma {:induction false} InnerPlain(thing: string, words: seq<string>, exclude: set<string>)
    requires AllWordChars(thing) && AllWords(words)
    ensures PlainPairs(InnerPairs(thing, words, exclude))
  {
    if |words| > 0 {
      var front := words[..|words| - 1];
      assert AllWords(front) by {
        forall i | 0 <= i < |front| ensures AllWordChars(front[i]) {
          assert front[i] == words[i];
        }
      }
      InnerPlain(thing, front, exclude);
      LowerWordIsPlain(thing);
      LowerWordIsPlain(words[|words| - 1]);
    }
  }

  lemma {:induction false} SentencePlain(hold: seq<string>, things: seq<string>, exclude: set<string>)
    requires AllWords(hold) && AllWords(things)
    ensures PlainPairs(SentencePairs(hold, things, exclude))
  {
    if |things| > 0 {
      var front := things[..|things| - 1];
      assert AllWords(front) by {
        forall i | 0 <= i < |front| ensures AllWordChars(front[i]) {
          assert front[i] == things[i];
        }
      }
      SentencePlain(hold, front, exclude);
      InnerPlain(things[|things| - 1], hold, exclude);
    }
  }

  lemma {:induction false} TextPlain(sentences: seq<string>, exclude: set<string>)
    ensures PlainPairs(TextPairs(sentences, exclude))
  {
    if |sentences| > 0 {
      TextPlain(sentences[..|sentences| - 1], exclude);
      var hold := WordRuns(sentences[|sentences| - 1]);
      assert AllWords(hold) by {
        forall i | 0 <= i < |hold| ensures AllWordChars(hold[i]) {
          assert hold[i] in hold;
        }
      }
      SentencePlain(hold, hold, exclude);
    }
  }

  /** Every emitted pair consists of two lower-case runs of word characters. */
  lemma {:induction false} CorpusPlain(abstracts: seq<string>, exclude: set<string>)
    ensures PlainPairs(CorpusPairs(abstracts, exclude))
  {
    if |abstracts| > 0 {
      CorpusPlain(abstracts[..|abstracts| - 1], exclude);
      TextPlain(SplitOn(abstracts[|abstracts| - 1], ". "), exclude);
    }
  }

  /** The key of a plain pair is its sorted words joined by "|". */
  lemma PlainKey(p: Pair)
    requires Plain(p.0) && Plain(p.1)
    ensures PairKey(p) == if LessEq(p.0, p.1) then p.0 + "|" + p.1 else p.1 + "|" + p.0
  {
    LowerOfLowerCase(p.0 + "|" + p.1);
    LowerOfLowerCase(p.1 + "|" + p.0);
  }

  /** Two plain pairs share a key exactly when they are equal or mirror images. */
  lemma SameKey(p: Pair, a: string, b: string)
    requires Plain(p.0) && Plain(p.1) && Plain(a) && Plain(b)
    ensures PairKey(p) == PairKey((a, b)) <==> p == (a, b) || p == (b, a)
  {
    PairKeySymmetric(a, b);
    PlainKey(p);
    PlainKey((a, b));
    PlainKey((b, a));
    if PairKey(p) == PairKey((a, b)) {
      var x, y := if LessEq(p.0, p.1) then p.0 else p.1, if LessEq(p.0, p.1) then p.1 else p.0;
      var u, v := if LessEq(a, b) then a else b, if LessEq(a, b) then b else a;
      assert '|' !in x && '|' !in u;
      BarJoinInjective(x, y, u, v);
    }
  }

  /** For two different plain words, the key count is the number of
      emissions of the pair plus those of its mirror image. */
  lemma {:induction false} KeyCount(ps: seq<Pair>, a: string, b: string)
    requires PlainPairs(ps) && Plain(a) && Plain(b) && a != b
    ensures Count(PairKeys(ps), PairKey((a, b))) == Count(ps, (a, b)) + Count(ps, (b, a))
  {
    if |ps| > 0 {
      var front := ps[..|ps| - 1];
      assert PlainPairs(front) by {
        forall i | 0 <= i < |front| ensures Plain(front[i].0) && Plain(front[i].1) {
          assert front[i] == ps[i];
        }
      }
      KeyCount(front, a, b);
      SameKey(ps[|ps| - 1], a, b);
    }
  }

  /** Every co-occurring pair of different words is counted twice under its
      key: the count of the key `a|b` is twice the emissions of `(a, b)`. */
  lemma DistinctPairCountedTwice(abstracts: seq<string>, exclude: set<string>, a: string, b: string)
    requires Plain(a) && Plain(b) && a != b
    ensures Count(PairKeys(CorpusPairs(abstracts, exclude)), PairKey((a, b)))
            == 2 * Count(CorpusPairs(abstracts, exclude), (a, b))
  {
    CorpusPlain(abstracts, exclude);
    KeyCount(CorpusPairs(abstracts, exclude), a, b);
    CorpusMirror(abstracts, exclude, a, b);
  }
}
