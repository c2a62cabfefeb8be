/** Scoring query abstracts against the prepared matrices and labelling
    them against a median cutoff (`bluePill`, up to its predictions list). */
module Scoring {
  import opened Strings
  import opened Scan
  import opened Collections
  import opened Frequency
  import opened Matrix

  /** The fixed bonus of a few telling words, by exact lower-case token. */
  const Terms: map<string, int> := map["novel" := 5, "characteriz" := 3, "clinical" := 2, "new" := 3,
                                       "antibiotic" := 1, "resistance" := 1, "gene" := 1]

  /** What a scoring run is given besides the rows: the word, journal and
      pair matrices, the excluded tokens, the text column to read, and the
      look-behind sentence splitter (not modelled, hence a parameter). */
  datatype Scorer = Scorer(matrixA: map<string, real>, matrixJ: map<string, real>,
                           matrixD: map<string, real>, exclude: set<string>, process: bool,
                           sentences: string -> seq<string>)

  /** The matrix contribution of one token. */
  function MatrixPart(matrixA: map<string, real>, word: string): real
  {
    if Lower(word) in matrixA then matrixA[Lower(word)] else 0.0
  }

  /** The term bonus of one token: only a token whose lower-case form is a key counts. */
  function TermPart(word: string): real
  {
    if Lower(word) in Terms then Terms[Lower(word)] as real else 0.0
  }

  /** The matrix and term contributions of a token list. */
  function WordScore(ws: seq<string>, matrixA: map<string, real>): real
  {
    if |ws| == 0 then 0.0
    else WordScore(ws[..|ws| - 1], matrixA) + MatrixPart(matrixA, ws[|ws| - 1]) + TermPart(ws[|ws| - 1])
  }

  /** The pair contribution of a key list: a quarter of each matrix value above 1. */
  function PairBonus(keys: seq<string>, matrixD: map<string, real>): real
  {
    if |keys| == 0 then 0.0
    else
      var k := keys[|keys| - 1];
      PairBonus(keys[..|keys| - 1], matrixD) + (if k in matrixD && matrixD[k] > 1.0 then matrixD[k] * 0.25 else 0.0)
  }

  /** The journal bonus, added once. */
  function JournalPart(matrixJ: map<string, real>, journal: string): real
  {
    if journal in matrixJ then matrixJ[journal] else 0.0
  }

  /** The score of one row: locus tags, word matrix, term bonus, journal
      bonus and pair bonus. */
  function RowScore(s: Scorer, row: Abstract): real
  {
    var text := Body(row, s.process);
    LocusCount(text) as real
    + WordScore(KeptWords(Tokens(text), s.exclude), s.matrixA)
    + JournalPart(s.matrixJ, row.journal)
    + PairBonus(PairKeys(TextPairs(s.sentences(text), s.exclude)), s.matrixD)
  }

  /** The score of one row, computed as the loops of `bluePill` do. */
  method ScoreRow(s: Scorer, row: Abstract) returns (score: real)
    ensures score == RowScore(s, row)
  {
    var text := Body(row, s.process);
    score := 0.0;
    score := score + LocusCount(text) as real;
    var abstractWords := KeptWords(Tokens(text), s.exclude);
    score := AddWords(score, abstractWords, s.matrixA);
    if row.journal in s.matrixJ {
      score := score + s.matrixJ[row.journal];
    }
    var pairs := EmitText(s.sentences(text), s.exclude);
    score := AddPairs(score, pairs, s.matrixD);
  }

  /** The token loop: matrix value and term bonus of each token. */
  method AddWords(score0: real, abstractWords: seq<string>, matrixA: map<string, real>) returns (score: real)
    ensures score == score0 + WordScore(abstractWords, matrixA)
  {
    score := score0;
    var i := 0;
    while i < |abstractWords|
      invariant 0 <= i <= |abstractWords|
      invariant score == score0 + WordScore(abstractWords[..i], matrixA)
    {
      var word := abstractWords[i];
      assert abstractWords[..i + 1][..i] == abstractWords[..i];
      if Lower(word) in matrixA {
        score := score + matrixA[Lower(word)];
      }
      if Lower(word) in Terms {
        score := score + Terms[Lower(word)] as real;
      }
      i := i + 1;
    }
    assert abstractWords[..i] == abstractWords;
  }

  /** The pair loop: a quarter of each matching pair value above 1. */
  method AddPairs(score0: real, pairs: seq<Pair>, matrixD: map<string, real>) returns (score: real)
    ensures score == score0 + PairBonus(PairKeys(pairs), matrixD)
  {
    score := score0;
    var i := 0;
    while i < |pairs|
      invariant 0 <= i <= |pairs|
      invariant score == score0 + PairBonus(PairKeys(pairs[..i]), matrixD)
    {
      var key := PairKey(pairs[i]);
      assert pairs[..i + 1][..i] == pairs[..i];
      assert PairKeys(pairs[..i + 1]) == PairKeys(pairs[..i]) + [key];
      assert (PairKeys(pairs[..i]) + [key])[..i] == PairKeys(pairs[..i]);
      if key in matrixD {
        if matrixD[key] > 1.0 {
          score := score + matrixD[key] * 0.25;
        }
      } else {
      }
      i := i + 1;
    }
    assert pairs[..i] == pairs;
  }

  /** The pmid of every row, in row order. */
  function Pmids(rows: seq<Abstract>): (r: seq<string>)
    ensures |r| == |rows|
    ensures forall i :: 0 <= i < |rows| ==> r[i] == rows[i].pmid
  {
    if |rows| == 0 then [] else Pmids(rows[..|rows| - 1]) + [rows[|rows| - 1].pmid]
  }

  /** The dictionary left by assigning `values[i]` to `keys[i]` in turn.
      Its keys are exactly the assigned keys. */
  function LastValues(keys: seq<string>, values: seq<real>): (r: map<string, real>)
    requires |keys| == |values|
    ensures forall id :: id in r <==> id in keys
  {
    if |keys| == 0 then map[]
    else
      var n := |keys| - 1;
      assert keys == keys[..n] + [keys[n]];
      LastValues(keys[..n], values[..n])[keys[n] := values[n]]
  }

  /** One more assignment updates one entry. */
  lemma LastValuesSnoc(keys: seq<string>, values: seq<real>, k: string, v: real)
    requires |keys| == |values|
    ensures LastValues(keys + [k], values + [v]) == LastValues(keys, values)[k := v]
  {
    assert (keys + [k])[..|keys|] == keys;
    assert (values + [v])[..|values|] == values;
  }

  /** The value kept for a key is the one assigned last. */
  lemma {:induction false} LastValueWins(keys: seq<string>, values: seq<real>, k: nat)
    requires |keys| == |values| && k < |keys|
    requires forall j :: k < j < |keys| ==> keys[j] != keys[k]
    ensures keys[k] in LastValues(keys, values)
    ensures LastValues(keys, values)[keys[k]] == values[k]
  {
    var n := |keys| - 1;
    if k < n {
      LastValueWins(keys[..n], values[..n], k);
    }
  }

  /** `RowScore` with the scorer fixed. */
  function RowScorer(s: Scorer): Abstract -> real
  {
    row => RowScore(s, row)
  }

  /** The scores dictionary after the row loop: each row resets and
      overwrites the entry of its pmid. Its keys are exactly the pmids. */
  function LastScores(s: Scorer, rows: seq<Abstract>): (r: map<string, real>)
    ensures forall id :: id in r <==> id in Pmids(rows)
  {
    LastValues(Pmids(rows), MapSeq(RowScorer(s), rows))
  }

  /** The score kept for a pmid is that of the last row carrying it. */
  lemma LastRowWins(s: Scorer, rows: seq<Abstract>, k: nat)
    requires k < |rows|
    requires forall j :: k < j < |rows| ==> rows[j].pmid != rows[k].pmid
    ensures rows[k].pmid in LastScores(s, rows)
    ensures LastScores(s, rows)[rows[k].pmid] == RowScore(s, rows[k])
  {
    LastValueWins(Pmids(rows), MapSeq(RowScorer(s), rows), k);
    MapSeqAt(RowScorer(s), rows, k);
  }

  /** One step of the row loop. */
  lemma ScoreRowsStep(s: Scorer, rows: seq<Abstract>, i: nat)
    requires i < |rows|
    ensures Pmids(rows[..i + 1]) == Pmids(rows[..i]) + [rows[i].pmid]
    ensures LastScores(s, rows[..i + 1]) == LastScores(s, rows[..i])[rows[i].pmid := RowScore(s, rows[i])]
  {
    assert rows[..i + 1][..i] == rows[..i];
    MapSeqSnoc(RowScorer(s), rows, i);
    LastValuesSnoc(Pmids(rows[..i]), MapSeq(RowScorer(s), rows[..i]), rows[i].pmid, RowScore(s, rows[i]));
  }

  /** The score of each id, in the order given. */
  function ScoreValues(ids: seq<string>, scores: map<string, real>): (r: seq<real>)
    requires forall i :: 0 <= i < |ids| ==> ids[i] in scores
    ensures |r| == |ids|
    ensures forall i :: 0 <= i < |ids| ==> r[i] == scores[ids[i]]
  {
    if |ids| == 0 then [] else ScoreValues(ids[..|ids| - 1], scores) + [scores[ids[|ids| - 1]]]
  }

  /** The row loop of `bluePill`: the pmids in first-appearance order (the
      key order of the scores dictionary) and their scores. */
  method ScoreRows(s: Scorer, rows: seq<Abstract>) returns (ids: seq<string>, scores: map<string, real>)
    ensures ids == FirstAppearance(Pmids(rows))
    ensures scores == LastScores(s, rows)
  {
    ids := [];
    scores := map[];
    var i := 0;
    while i < |rows|
      invariant 0 <= i <= |rows|
      invariant ids == FirstAppearance(Pmids(rows[..i]))
      invariant scores == LastScores(s, rows[..i])
    {
      var row := rows[i];
      ScoreRowsStep(s, rows, i);
      FirstAppearanceSnoc(Pmids(rows[..i]), row.pmid);
      var score := ScoreRow(s, row);
      if row.pmid !in scores {
        ids := ids + [row.pmid];
      }
      scores := scores[row.pmid := score];
      i := i + 1;
    }
    assert rows[..i] == rows;
  }

  predicate Sorted(s: seq<real>)
  {
    forall i, j :: 0 <= i < j < |s| ==> s[i] <= s[j]
  }

  function Insert(x: real, s: seq<real>): (r: seq<real>)
    requires Sorted(s)
    ensures Sorted(r)
    ensures multiset(r) == multiset(s) + multiset{x}
  {
    if |s| == 0 then [x]
    else if x <= s[0] then [x] + s
    else
      var tail := Insert(x, s[1..]);
      assert s == [s[0]] + s[1..];
      BoundedBelow(s[0], s[1..], x, tail);
      [s[0]] + tail
  }

  /** A permutation of bounded values and one more bounded value is bounded. */
  lemma BoundedBelow(b: real, s: seq<real>, x: real, t: seq<real>)
    requires forall i :: 0 <= i < |s| ==> b <= s[i]
    requires b <= x
    requires multiset(t) == multiset(s) + multiset{x}
    ensures forall i :: 0 <= i < |t| ==> b <= t[i]
  {
    forall i | 0 <= i < |t| ensures b <= t[i] {
      assert t[i] in multiset(t);
      if t[i] != x {
        assert t[i] in multiset(s);
        var j :| 0 <= j < |s| && s[j] == t[i];
      }
    }
  }

  /** The scores in ascending order. */
  function SortScores(xs: seq<real>): (r: seq<real>)
    ensures Sorted(r)
    ensures multiset(r) == multiset(xs)
  {
    if |xs| == 0 then []
    else
      assert xs == xs[..|xs| - 1] + [xs[|xs| - 1]];
      Insert(xs[|xs| - 1], SortScores(xs[..|xs| - 1]))
  }

  /** `statistics.median`: the middle of the sorted scores, or the mean of
      the two middle ones for an even count. */
  function Median(xs: seq<real>): real
    requires |xs| > 0
  {
    var s := SortScores(xs);
    assert |s| == |multiset(s)| == |xs|;
    var n := |s|;
    if n % 2 == 1 then s[n / 2] else (s[n / 2 - 1] + s[n / 2]) / 2.0
  }

  /** The median lies between the smallest and the largest score. */
  lemma MedianInRange(xs: seq<real>)
    requires |xs| > 0
    ensures exists i :: 0 <= i < |xs| && xs[i] <= Median(xs)
    ensures exists j :: 0 <= j < |xs| && Median(xs) <= xs[j]
  {
    var s := SortScores(xs);
    assert |s| == |multiset(s)| == |xs|;
    assert s[0] <= Median(xs) <= s[|s| - 1];
    assert s[0] in multiset(xs) && s[|s| - 1] in multiset(xs);
    var i :| 0 <= i < |xs| && xs[i] == s[0];
    var j :| 0 <= j < |xs| && xs[j] == s[|s| - 1];
  }

  /** The prediction cutoff: 10 without scores; a median in (0, 10] is
      raised to 10; any other median is used as it is. */
  function Cutoff(values: seq<real>): (r: real)
    ensures r <= 0.0 || r >= 10.0
    ensures |values| == 0 ==> r == 10.0
    ensures |values| > 0 ==> r == (if 0.0 < Median(values) <= 10.0 then 10.0 else Median(values))
  {
    if |values| == 0 then 10.0
    else
      var limiter := Median(values);
      if limiter > 10.0 then limiter
      else if 0.0 < limiter <= 10.0 then 10.0
      else limiter
  }

  /** One 0/1 label per id: 1 exactly when its score reaches the cutoff. */
  function Predictions(ids: seq<string>, scores: map<string, real>, limiter: real): (r: seq<int>)
    requires forall i :: 0 <= i < |ids| ==> ids[i] in scores
    ensures |r| == |ids|
    ensures forall i :: 0 <= i < |ids| ==> (r[i] == 0 || r[i] == 1) && (r[i] == 1 <==> scores[ids[i]] >= limiter)
  {
    seq(|ids|, i requires 0 <= i < |ids| => if scores[ids[i]] >= limiter then 1 else 0)
  }

  /** Every pmid in the key order has a score. */
  lemma OrderScored(s: Scorer, rows: seq<Abstract>)
    ensures forall i :: 0 <= i < |FirstAppearance(Pmids(rows))| ==>
              FirstAppearance(Pmids(rows))[i] in LastScores(s, rows)
  {
    var ids := FirstAppearance(Pmids(rows));
    forall i | 0 <= i < |ids| ensures ids[i] in LastScores(s, rows) {
      assert ids[i] in Pmids(rows);
    }
  }

  /** `bluePill` with `only_predictions`: the label of each distinct pmid, in
      first-appearance order, against the median cutoff of the final scores. */
  method BluePill(s: Scorer, rows: seq<Abstract>) returns (predictions: seq<int>)
    ensures |predictions| == |FirstAppearance(Pmids(rows))|
    ensures forall i :: 0 <= i < |predictions| ==>
              FirstAppearance(Pmids(rows))[i] in LastScores(s, rows)
              && (predictions[i] == 0 || predictions[i] == 1)
              && (predictions[i] == 1 <==>
                    LastScores(s, rows)[FirstAppearance(Pmids(rows))[i]]
                    >= Cutoff(ScoreValues(FirstAppearance(Pmids(rows)), LastScores(s, rows))))
  {
    var ids, scores := ScoreRows(s, rows);
    assert forall i :: 0 <= i < |ids| ==> ids[i] in scores by {
      OrderScored(s, rows);
    }
    var limiter := Cutoff(ScoreValues(ids, scores));
    predictions := Predictions(ids, scores, limiter);
    forall i | 0 <= i < |predictions|
      ensures ids[i] in scores && (predictions[i] == 0 || predictions[i] == 1)
              && (predictions[i] == 1 <==> scores[ids[i]] >= limiter)
    {
    }
  }

  /** A lone abstract scoring 3 is labelled 0: its median 3 is raised to 10. */
  lemma LowMedianRaised()
    ensures Cutoff([3.0]) == 10.0
  {
    assert SortScores([3.0]) == [3.0] by {
      assert [3.0][..0] == [];
    }
  }

  /** A median of 0 or below is kept, so every score reaches it. */
  lemma NonPositiveMedianKept()
    ensures Cutoff([0.0, -2.0]) == -1.0
  {
    assert SortScores([0.0, -2.0]) == [-2.0, 0.0] by {
      assert [0.0, -2.0][..1] == [0.0];
      assert [0.0][..0] == [];
    }
  }

  /** The term bonus needs the exact key: "characterization" earns nothing,
      "Characteriz" earns 3. */
  lemma TermBonusIsExact()
    ensures TermPart("characterization") == 0.0
    ensures TermPart("Characteriz") == 3.0
  {
    assert Lower("Characteriz") == "characteriz";
    LowerOfLowerCase("characterization");
  }
}
