/** The single-word scoring matrix (`matrixMaker`) and the word-pair
    co-occurrence matrix (`doubleMatrixMaker`). */
module Matrix {
  import opened Strings
  import opened Scan
  import opened Collections

  /** The smallest difference the filtering option keeps. */
  const MinScore: real := 0.05

  /** The entries of both tables, as the first table's value minus the second's. */
  function Difference(card: map<string, real>, ncbi: map<string, real>): map<string, real>
  {
    map w | w in card && w in ncbi :: card[w] - ncbi[w]
  }

  /** The entries of `m` whose value is at least `bound`. */
  function KeepAtLeast(m: map<string, real>, bound: real): (r: map<string, real>)
    ensures forall w :: w in r <==> w in m && m[w] >= bound
    ensures forall w :: w in r ==> r[w] == m[w]
  {
    map w | w in m && m[w] >= bound :: m[w]
  }

  /** Filtering twice is filtering once. */
  lemma KeepAtLeastIdempotent(m: map<string, real>, bound: real)
    ensures KeepAtLeast(KeepAtLeast(m, bound), bound) == KeepAtLeast(m, bound)
  {
  }

  /** Swapping the two tables negates every entry and keeps the key set. */
  lemma DifferenceAntisymmetric(a: map<string, real>, b: map<string, real>)
    ensures Difference(a, b).Keys == Difference(b, a).Keys
    ensures forall w :: w in Difference(a, b) ==> Difference(a, b)[w] == -Difference(b, a)[w]
  {
  }

  /** `matrixMaker`: the words of `card` also present in `ncbi`, each scored by
      the difference of its two frequencies; with `filtering`, only scores of
      at least `MinScore` stay. */
  method MatrixMaker(card: map<string, real>, ncbi: map<string, real>, filtering: bool)
    returns (finalMatrix: map<string, real>)
    ensures forall w :: w in finalMatrix <==>
              w in card && w in ncbi && (filtering ==> card[w] - ncbi[w] >= MinScore)
    ensures forall w :: w in finalMatrix ==> finalMatrix[w] == card[w] - ncbi[w]
    ensures !filtering ==> finalMatrix == Difference(card, ncbi)
    ensures filtering ==> finalMatrix == KeepAtLeast(Difference(card, ncbi), MinScore)
  {
    var matrix := map[];
    var pending := card.Keys;
    while pending != {}
      invariant pending <= card.Keys
      invariant forall w :: w in matrix <==> w in card && w !in pending && w in ncbi
      invariant forall w :: w in matrix ==> matrix[w] == card[w] - ncbi[w]
      decreases pending
    {
      var word :| word in pending;
      if word in ncbi {
        matrix := matrix[word := card[word] - ncbi[word]];
      }
      pending := pending - {word};
    }
    assert matrix == Difference(card, ncbi);
    if filtering {
      finalMatrix := KeepAtLeast(matrix, MinScore);
    } else if !filtering {
      finalMatrix := matrix;
    }
  }

  /** A co-occurring pair as emitted: both words lower-cased, in emission order. */
  type Pair = (string, string)

  /** The dictionary key of a pair: its two words in Python's string order,
      joined by "|" and lower-cased. */
  function PairKey(p: Pair): string
  {
    if LessEq(p.0, p.1) then Lower(p.0 + "|" + p.1) else Lower(p.1 + "|" + p.0)
  }

  /** A pair and its mirror image share a key. */
  lemma PairKeySymmetric(a: string, b: string)
    ensures PairKey((a, b)) == PairKey((b, a))
  {
    LessEqTotal(a, b);
    if LessEq(a, b) && LessEq(b, a) {
      LessEqAntisymmetric(a, b);
    }
  }

  /** Joining with "|" is one-to-one on words without "|". */
  lemma BarJoinInjective(a: string, b: string, c: string, d: string)
    requires '|' !in a && '|' !in c
    requires a + "|" + b == c + "|" + d
    ensures a == c && b == d
  {
    var s := a + "|" + b;
    assert s[|a|] == '|' && s[|c|] == '|';
    assert forall i :: 0 <= i < |a| ==> s[i] == a[i];
    assert forall i :: 0 <= i < |c| ==> s[i] == c[i];
    if |a| != |c| {
      assert false;
    }
    assert a == s[..|a|] == c;
    assert b == s[|a| + 1..] == d;
  }

  /** The pairs `thing` forms with the words of `words`: every word that
      differs from it as written and is not excluded. */
  function InnerPairs(thing: string, words: seq<string>, exclude: set<string>): (r: seq<Pair>)
    ensures |r| <= |words|
  {
    if |words| == 0 then []
    else
      var word := words[|words| - 1];
      InnerPairs(thing, words[..|words| - 1], exclude)
      + (if word != thing && word !in exclude then [(Lower(thing), Lower(word))] else [])
  }

  /** The pairs formed by each non-excluded word of `things` with the words of `hold`. */
  function SentencePairs(hold: seq<string>, things: seq<string>, exclude: set<string>): seq<Pair>
  {
    if |things| == 0 then []
    else
      var thing := things[|things| - 1];
      SentencePairs(hold, things[..|things| - 1], exclude)
      + (if thing !in exclude then InnerPairs(thing, hold, exclude) else [])
  }

  /** The pairs of each sentence's `\w+` runs, sentence by sentence. */
  function TextPairs(sentences: seq<string>, exclude: set<string>): seq<Pair>
  {
    if |sentences| == 0 then []
    else
      var hold := WordRuns(sentences[|sentences| - 1]);
      TextPairs(sentences[..|sentences| - 1], exclude) + SentencePairs(hold, hold, exclude)
  }

  /** Everything the generators `assembly_1` / `assembly_2` yield for a list
      of abstracts, each cut into sentences at ". ". */
  function CorpusPairs(abstracts: seq<string>, exclude: set<string>): seq<Pair>
  {
    if |abstracts| == 0 then []
    else
      CorpusPairs(abstracts[..|abstracts| - 1], exclude)
      + TextPairs(SplitOn(abstracts[|abstracts| - 1], ". "), exclude)
  }

  /** The key of every emitted pair, in emission order. */
  function PairKeys(ps: seq<Pair>): (r: seq<string>)
    ensures |r| == |ps|
  {
    if |ps| == 0 then [] else PairKeys(ps[..|ps| - 1]) + [PairKey(ps[|ps| - 1])]
  }

  /** The inner generator loop: `thing` against every word of `hold`. */
  method EmitInner(thing: string, hold: seq<string>, exclude: set<string>) returns (pairs: seq<Pair>)
    ensures pairs == InnerPairs(thing, hold, exclude)
  {
    pairs := [];
    var j := 0;
    while j < |hold|
      invariant 0 <= j <= |hold|
      invariant pairs == InnerPairs(thing, hold[..j], exclude)
    {
      var word := hold[j];
      assert hold[..j + 1][..j] == hold[..j];
      if word != thing && word !in exclude {
        pairs := pairs + [(Lower(thing), Lower(word))];
      }
      j := j + 1;
    }
    assert hold[..j] == hold;
  }

  /** The generator body for one sentence's word list. */
  method EmitSentence(hold: seq<string>, exclude: set<string>) returns (pairs: seq<Pair>)
    ensures pairs == SentencePairs(hold, hold, exclude)
  {
    pairs := [];
    var i := 0;
    while i < |hold|
      invariant 0 <= i <= |hold|
      invariant pairs == SentencePairs(hold, hold[..i], exclude)
    {
      var thing := hold[i];
      assert hold[..i + 1][..i] == hold[..i];
      if thing !in exclude {
        var more := EmitInner(thing, hold, exclude);
        pairs := pairs + more;
      }
      i := i + 1;
    }
    assert hold[..i] == hold;
  }

  /** The generator body for one abstract's sentences. */
  method EmitText(sentences: seq<string>, exclude: set<string>) returns (pairs: seq<Pair>)
    ensures pairs == TextPairs(sentences, exclude)
  {
    pairs := [];
    var i := 0;
    while i < |sentences|
      invariant 0 <= i <= |sentences|
      invariant pairs == TextPairs(sentences[..i], exclude)
    {
      var hold := WordRuns(sentences[i]);
      assert sentences[..i + 1][..i] == sentences[..i];
      var more := EmitSentence(hold, exclude);
      pairs := pairs + more;
      i := i + 1;
    }
    assert sentences[..i] == sentences;
  }

  /** The generators `assembly_1` and `assembly_2`: every pair they yield, in order. */
  method EmitPairs(abstracts: seq<string>, exclude: set<string>) returns (pairs: seq<Pair>)
    ensures pairs == CorpusPairs(abstracts, exclude)
  {
    pairs := [];
    var i := 0;
    while i < |abstracts|
      invariant 0 <= i <= |abstracts|
      invariant pairs == CorpusPairs(abstracts[..i], exclude)
    {
      var sentences := SplitOn(abstracts[i], ". ");
      assert abstracts[..i + 1][..i] == abstracts[..i];
      var more := EmitText(sentences, exclude);
      pairs := pairs + more;
      i := i + 1;
    }
    assert abstracts[..i] == abstracts;
  }

  /** `c / n`, and 0 for an empty corpus (where no pair is ever counted). */
  function Rate(c: nat, n: nat): real
  {
    if n == 0 then 0.0 else c as real / n as real
  }

  lemma RateStep(c: nat, n: nat)
    requires n > 0
    ensures Rate(c, n) + 1.0 / n as real == Rate(c + 1, n)
  {
  }

  lemma RateStepDown(c: nat, n: nat, base: real)
    requires n > 0
    ensures base - Rate(c, n) - 1.0 / n as real == base - Rate(c + 1, n)
  {
    RateStep(c, n);
  }

  /** `doubleMatrixMaker`: every key the positive abstracts emit, valued at
      its emission rate there minus its emission rate in the negative
      abstracts. */
  method DoubleMatrixMaker(card: seq<string>, ncbi: seq<string>, exclude: set<string>)
    returns (doubleMatrix: map<string, real>)
    ensures forall k :: k in doubleMatrix <==> k in PairKeys(CorpusPairs(card, exclude))
    ensures forall k :: k in doubleMatrix ==>
              doubleMatrix[k] == Rate(Count(PairKeys(CorpusPairs(card, exclude)), k), |card|)
                                 - Rate(Count(PairKeys(CorpusPairs(ncbi, exclude)), k), |ncbi|)
    ensures |ncbi| == 0 ==> forall k :: k in doubleMatrix ==>
              doubleMatrix[k] == Rate(Count(PairKeys(CorpusPairs(card, exclude)), k), |card|)
  {
    var positive := EmitPairs(card, exclude);
    doubleMatrix := CountPositive(positive, |card|);
    var negative := EmitPairs(ncbi, exclude);
    doubleMatrix := SubtractNegative(doubleMatrix, PairKeys(positive), |card|, negative, |ncbi|);
  }

  /** `m` holds, for each key of `keys`, its rate of occurrence over `n` abstracts. */
  ghost predicate RatesOf(m: map<string, real>, keys: seq<string>, n: nat)
  {
    && (forall k :: k in m <==> Count(keys, k) > 0)
    && (forall k :: k in m ==> m[k] == Rate(Count(keys, k), n))
  }

  lemma {:induction false} CountSnoc(keys: seq<string>, key: string, k: string)
    ensures Count(keys + [key], k) == Count(keys, k) + (if key == k then 1 else 0)
  {
    assert (keys + [key])[..|keys|] == keys;
  }

  /** The first consumer loop: each emitted key gains `1 / |card|`. */
  method CountPositive(positive: seq<Pair>, cardLen: nat) returns (m: map<string, real>)
    requires |positive| > 0 ==> cardLen > 0
    ensures RatesOf(m, PairKeys(positive), cardLen)
  {
    m := map[];
    var i := 0;
    while i < |positive|
      invariant 0 <= i <= |positive|
      invariant RatesOf(m, PairKeys(positive[..i]), cardLen)
    {
      assert positive[..i + 1][..i] == positive[..i];
      m := CountKey(m, PairKeys(positive[..i]), PairKey(positive[i]), cardLen);
      i := i + 1;
    }
    assert positive[..i] == positive;
  }

  /** One step of the first consumer loop. */
  method CountKey(m0: map<string, real>, ghost before: seq<string>, key: string, cardLen: nat)
    returns (m: map<string, real>)
    requires cardLen > 0
    requires RatesOf(m0, before, cardLen)
    ensures RatesOf(m, before + [key], cardLen)
  {
    forall k ensures Count(before + [key], k) == Count(before, k) + (if key == k then 1 else 0) {
      CountSnoc(before, key, k);
    }
    if key !in m0 {
      m := m0[key := 1.0 / cardLen as real];
    } else if key in m0 {
      RateStep(Count(before, key), cardLen);
      m := m0[key := m0[key] + 1.0 / cardLen as real];
    }
  }

  /** `m` holds the positive rate of each of `keys` less its rate of
      occurrence in `negative` over `n` abstracts. */
  ghost predicate NetRatesOf(m: map<string, real>, keys: seq<string>, cardLen: nat, negative: seq<string>, n: nat)
  {
    && (forall k :: k in m <==> Count(keys, k) > 0)
    && (forall k :: k in m ==> m[k] == Rate(Count(keys, k), cardLen) - Rate(Count(negative, k), n))
  }

  /** The second consumer loop: each emitted key already present loses
      `1 / |ncbi|`; no key is added. */
  method SubtractNegative(m0: map<string, real>, ghost keys: seq<string>, ghost cardLen: nat,
                          negative: seq<Pair>, ncbiLen: nat)
    returns (m: map<string, real>)
    requires |negative| > 0 ==> ncbiLen > 0
    requires RatesOf(m0, keys, cardLen)
    ensures NetRatesOf(m, keys, cardLen, PairKeys(negative), ncbiLen)
  {
    m := m0;
    var i := 0;
    assert NetRatesOf(m, keys, cardLen, PairKeys(negative[..0]), ncbiLen);
    while i < |negative|
      invariant 0 <= i <= |negative|
      invariant NetRatesOf(m, keys, cardLen, PairKeys(negative[..i]), ncbiLen)
    {
      assert negative[..i + 1][..i] == negative[..i];
      m := SubtractKey(m, keys, cardLen, PairKeys(negative[..i]), PairKey(negative[i]), ncbiLen);
      i := i + 1;
    }
    assert negative[..i] == negative;
  }

  /** One step of the second consumer loop. */
  method SubtractKey(m0: map<string, real>, ghost keys: seq<string>, ghost cardLen: nat,
                     ghost before: seq<string>, key: string, ncbiLen: nat)
    returns (m: map<string, real>)
    requires ncbiLen > 0
    requires NetRatesOf(m0, keys, cardLen, before, ncbiLen)
    ensures NetRatesOf(m, keys, cardLen, before + [key], ncbiLen)
  {
    forall k ensures Count(before + [key], k) == Count(before, k) + (if key == k then 1 else 0) {
      CountSnoc(before, key, k);
    }
    if key in m0 {
      RateStepDown(Count(before, key), ncbiLen, Rate(Count(keys, key), cardLen));
      m := m0[key := m0[key] - 1.0 / ncbiLen as real];
    } else if key !in m0 {
      m := m0;
    }
  }

  /** Two spellings of one word give a self-pair: "Gene" and "gene" differ as
      written, so the sentence "Gene gene" yields the key "gene|gene", twice. */
  lemma {:induction false} CasingGivesSelfPair(x: string, y: string, exclude: set<string>)
    requires x != y && Lower(x) == Lower(y)
    requires x !in exclude && y !in exclude
    ensures SentencePairs([x, y], [x, y], exclude) == [(Lower(x), Lower(x)), (Lower(x), Lower(x))]
    ensures PairKey((Lower(x), Lower(x))) == Lower(x) + "|" + Lower(x)
  {
    assert [x, y][..1] == [x];
    assert [x][..0] == [];
    assert InnerPairs(x, [x, y], exclude) == [(Lower(x), Lower(y))];
    assert InnerPairs(y, [x, y], exclude) == [(Lower(y), Lower(x))];
    assert SentencePairs([x, y], [x], exclude) == [(Lower(x), Lower(y))] by {
      assert SentencePairs([x, y], [], exclude) == [];
    }
    LessEqTotal(Lower(x), Lower(x));
    LowerIsLowerCase(Lower(x));
    assert IsLowerCase(Lower(x) + "|" + Lower(x));
    LowerOfLowerCase(Lower(x) + "|" + Lower(x));
  }
}
