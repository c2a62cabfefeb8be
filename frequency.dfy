/** Word and journal frequency tables of one labelled corpus (`wordFrequency`). */
module Frequency {
  import opened Strings
  import opened Scan
  import opened Collections

  /** One row of a corpus table: the columns the scoring engine reads. */
  datatype Abstract = Abstract(pmid: string, text: string, processedText: string,
                               title: string, journal: string)

  /** The text column selected by the `process` flag. */
  function Body(row: Abstract, process: bool): string
  {
    if process then row.processedText else row.text
  }

  /** The selected text of every row, in row order. */
  function Bodies(rows: seq<Abstract>, process: bool): (r: seq<string>)
    ensures |r| == |rows|
  {
    if |rows| == 0 then [] else Bodies(rows[..|rows| - 1], process) + [Body(rows[|rows| - 1], process)]
  }

  /** The journal of every row, in row order. */
  function Journals(rows: seq<Abstract>): (r: seq<string>)
    ensures |r| == |rows|
  {
    if |rows| == 0 then [] else Journals(rows[..|rows| - 1]) + [rows[|rows| - 1].journal]
  }

  /** The tokens not listed in `exclude`; the test uses the token's own casing. */
  function KeptWords(ts: seq<string>, exclude: set<string>): (r: seq<string>)
    ensures |r| <= |ts|
  {
    if |ts| == 0 then []
    else
      var t := ts[|ts| - 1];
      var front := KeptWords(ts[..|ts| - 1], exclude);
      if t in exclude then front else front + [t]
  }

  /** An excluded token is never kept; any other token is kept as often as
      it occurs. */
  lemma {:induction false} KeptWordsCount(ts: seq<string>, exclude: set<string>, w: string)
    ensures Count(KeptWords(ts, exclude), w) == (if w in exclude then 0 else Count(ts, w))
  {
    if |ts| > 0 {
      var t := ts[|ts| - 1];
      var front := KeptWords(ts[..|ts| - 1], exclude);
      KeptWordsCount(ts[..|ts| - 1], exclude, w);
      if t !in exclude {
        CountAppend(front, [t], w);
        assert [t][..0] == [];
      }
    }
  }

  /** The non-excluded tokens of one row's text. */
  function RowWords(row: Abstract, exclude: set<string>, process: bool): seq<string>
  {
    KeptWords(Tokens(Body(row, process)), exclude)
  }

  /** The non-excluded tokens of every row, in row order. */
  function CorpusWords(rows: seq<Abstract>, exclude: set<string>, process: bool): seq<string>
  {
    if |rows| == 0 then []
    else CorpusWords(rows[..|rows| - 1], exclude, process) + RowWords(rows[|rows| - 1], exclude, process)
  }

  /** The number of words in `ws` whose lower-case form is `w`. Only a
      lower-case `w` can be counted. */
  function LowerCount(ws: seq<string>, w: string): (n: nat)
    ensures n > 0 ==> IsLowerCase(w)
    ensures n <= |ws|
  {
    if |ws| == 0 then 0
    else
      LowerIsLowerCase(ws[|ws| - 1]);
      LowerCount(ws[..|ws| - 1], w) + (if Lower(ws[|ws| - 1]) == w then 1 else 0)
  }

  lemma {:induction false} LowerCountSnoc(ws: seq<string>, t: string, w: string)
    ensures LowerCount(ws + [t], w) == LowerCount(ws, w) + (if Lower(t) == w then 1 else 0)
  {
    assert (ws + [t])[..|ws|] == ws;
  }

  function LowerSet(ws: seq<string>): set<string>
  {
    set t | t in ws :: Lower(t)
  }

  lemma {:induction false} LowerSetCount(ws: seq<string>, w: string)
    ensures w in LowerSet(ws) <==> LowerCount(ws, w) > 0
  {
    if |ws| > 0 {
      var front := ws[..|ws| - 1];
      LowerSetCount(front, w);
      assert ws == front + [ws[|ws| - 1]];
      assert LowerSet(ws) == LowerSet(front) + {Lower(ws[|ws| - 1])};
    }
  }

  method WordFrequency(rows: seq<Abstract>, exclude: set<string>, process: bool)
    returns (words: map<string, real>, journals: map<string, real>, abstractList: seq<string>)
    ensures forall w :: w in words <==> LowerCount(CorpusWords(rows, exclude, process), w) > 0
    ensures forall w :: w in words ==>
              words[w] == LowerCount(CorpusWords(rows, exclude, process), w) as real / |rows| as real
    ensures forall j :: j in journals <==> Count(Journals(rows), j) > 0
    ensures forall j :: j in journals ==> journals[j] == Count(Journals(rows), j) as real / |rows| as real * 10.0
    ensures abstractList == Bodies(rows, process)
    ensures forall w :: w in words ==> IsLowerCase(w)
    ensures forall j :: j in journals ==> 0.0 < journals[j] <= 10.0
  {
    var abstractLen;
    words, journals, abstractList, abstractLen := CountRows(rows, exclude, process);
    words := NormalizeWords(words, CorpusWords(rows, exclude, process), abstractLen);
    journals := NormalizeJournals(journals, Journals(rows), abstractLen);
    forall j | j in journals ensures 0.0 < journals[j] <= 10.0 {
      ShareBounds(Count(Journals(rows), j), |rows|);
    }
  }

  lemma ShareBounds(c: nat, n: nat)
    requires 0 < c <= n
    ensures 0.0 < c as real / n as real * 10.0 <= 10.0
  {
    assert c as real / n as real <= 1.0;
  }

  /** The row loop of `wordFrequency`: raw word and journal counts. */
  method CountRows(rows: seq<Abstract>, exclude: set<string>, process: bool)
    returns (words: map<string, real>, journals: map<string, real>, abstractList: seq<string>,
             abstractLen: nat)
    ensures abstractLen == |rows|
    ensures abstractList == Bodies(rows, process)
    ensures CountsOf(journals, Journals(rows))
    ensures LowerCountsOf(words, CorpusWords(rows, exclude, process))
  {
    abstractList := [];
    words := map[];
    journals := map[];
    abstractLen := 0;

    var i := 0;
    while i < |rows|
      invariant 0 <= i <= |rows| && abstractLen == i
      invariant abstractList == Bodies(rows[..i], process)
      invariant CountsOf(journals, Journals(rows[..i]))
      invariant LowerCountsOf(words, CorpusWords(rows[..i], exclude, process))
    {
      var row := rows[i];
      var text := Body(row, process);
      var journal := row.journal;
      // The title is tokenised as well; its tokens are never used.
      var titleWords := Tokens(row.title);

      abstractList := abstractList + [text];
      abstractLen := abstractLen + 1;

      assert rows[..i + 1][..i] == rows[..i];
      journals := CountJournal(journals, Journals(rows[..i]), journal);

      var abstractWords := KeptWords(Tokens(text), exclude);
      words := CountWords(words, CorpusWords(rows[..i], exclude, process), abstractWords);
      i := i + 1;
    }
    assert rows[..i] == rows;
  }

  /** `m` holds, for each lower-case form of a word of `ws`, how often it occurs. */
  ghost predicate LowerCountsOf(m: map<string, real>, ws: seq<string>)
  {
    && (forall w :: w in m <==> LowerCount(ws, w) > 0)
    && (forall w :: w in m ==> m[w] == LowerCount(ws, w) as real)
  }

  /** `m` holds, for each element of `js`, how often it occurs. */
  ghost predicate CountsOf(m: map<string, real>, js: seq<string>)
  {
    && (forall j :: j in m <==> Count(js, j) > 0)
    && (forall j :: j in m ==> m[j] == Count(js, j) as real)
  }

  /** The journal-count step of the row loop. */
  method CountJournal(journals: map<string, real>, ghost seen: seq<string>, journal: string)
    returns (r: map<string, real>)
    requires CountsOf(journals, seen)
    ensures CountsOf(r, seen + [journal])
  {
    assert (seen + [journal])[..|seen|] == seen;
    if journal !in journals {
      r := journals[journal := 1.0];
    } else if journal in journals {
      r := journals[journal := journals[journal] + 1.0];
    }
  }

  /** The word-count loop over one row's kept tokens. */
  method CountWords(words: map<string, real>, ghost done: seq<string>, abstractWords: seq<string>)
    returns (r: map<string, real>)
    requires LowerCountsOf(words, done)
    ensures LowerCountsOf(r, done + abstractWords)
  {
    r := words;
    var k := 0;
    assert done + abstractWords[..k] == done;
    while k < |abstractWords|
      invariant 0 <= k <= |abstractWords|
      invariant LowerCountsOf(r, done + abstractWords[..k])
    {
      var word := abstractWords[k];
      ghost var before := done + abstractWords[..k];
      assert done + abstractWords[..k + 1] == before + [word];
      forall w ensures LowerCount(before + [word], w) == LowerCount(before, w) + (if Lower(word) == w then 1 else 0) {
        LowerCountSnoc(before, word, w);
      }
      if Lower(word) in r {
        r := r[Lower(word) := r[Lower(word)] + 1.0];
      } else if Lower(word) !in r {
        r := r[Lower(word) := 1.0];
      }
      k := k + 1;
    }
    assert abstractWords[..k] == abstractWords;
  }

  /** Divides every word count by the number of rows. */
  method NormalizeWords(words: map<string, real>, ghost ws: seq<string>, abstractLen: nat)
    returns (r: map<string, real>)
    requires LowerCountsOf(words, ws)
    requires abstractLen == 0 ==> ws == []
    ensures forall w :: w in r <==> LowerCount(ws, w) > 0
    ensures forall w :: w in r ==> r[w] == LowerCount(ws, w) as real / abstractLen as real
  {
    r := words;
    var pending := words.Keys;
    while pending != {}
      invariant pending <= r.Keys && r.Keys == words.Keys
      invariant forall w :: w in pending ==> r[w] == words[w]
      invariant forall w :: w in r && w !in pending ==> r[w] == words[w] / abstractLen as real
      decreases pending
    {
      var w :| w in pending;
      r := r[w := r[w] / abstractLen as real];
      pending := pending - {w};
    }
  }

  /** Turns every journal count into ten times its share of the rows. */
  method NormalizeJournals(journals: map<string, real>, ghost js: seq<string>, abstractLen: nat)
    returns (r: map<string, real>)
    requires CountsOf(journals, js)
    requires abstractLen == 0 ==> js == []
    ensures forall j :: j in r <==> Count(js, j) > 0
    ensures forall j :: j in r ==> r[j] == Count(js, j) as real / abstractLen as real * 10.0
  {
    r := journals;
    var pending := journals.Keys;
    while pending != {}
      invariant pending <= r.Keys && r.Keys == journals.Keys
      invariant forall j :: j in pending ==> r[j] == journals[j]
      invariant forall j :: j in r && j !in pending ==> r[j] == journals[j] / abstractLen as real * 10.0
      decreases pending
    {
      var j :| j in pending;
      r := r[j := r[j] / abstractLen as real * 10.0];
      pending := pending - {j};
    }
  }

  /** The sum of `m[k]` over the keys `ks`. */
  function SumOf(m: map<string, real>, ks: seq<string>): real
    requires forall i :: 0 <= i < |ks| ==> ks[i] in m
  {
    if |ks| == 0 then 0.0 else SumOf(m, ks[..|ks| - 1]) + m[ks[|ks| - 1]]
  }

  /** The sum of `Count(xs, k)` over the keys `ks`. */
  function SumCounts(xs: seq<string>, ks: seq<string>): nat
  {
    if |ks| == 0 then 0 else SumCounts(xs, ks[..|ks| - 1]) + Count(xs, ks[|ks| - 1])
  }

  lemma {:induction false} SumCountsSnoc(xs: seq<string>, x: string, ks: seq<string>)
    ensures SumCounts(xs + [x], ks) == SumCounts(xs, ks) + Count(ks, x)
  {
    if |ks| > 0 {
      SumCountsSnoc(xs, x, ks[..|ks| - 1]);
      assert (xs + [x])[..|xs|] == xs;
    }
  }

  /** A key listed once in a duplicate-free list is counted once. */
  lemma {:induction false} CountInDistinct(ks: seq<string>, x: string)
    requires Distinct(ks) && x in ks
    ensures Count(ks, x) == 1
  {
    var front := ks[..|ks| - 1];
    assert Distinct(front);
    if ks[|ks| - 1] == x {
      assert x !in front by {
        forall i | 0 <= i < |front| ensures front[i] != x {
          assert front[i] == ks[i];
        }
      }
    } else {
      assert x in front by {
        var i :| 0 <= i < |ks| && ks[i] == x;
        assert front[i] == x;
      }
      CountInDistinct(front, x);
    }
  }

  /** Counting every element of `xs` under a duplicate-free list of keys that
      covers it counts each position once. */
  lemma {:induction false} SumCountsCover(xs: seq<string>, ks: seq<string>)
    requires Distinct(ks)
    requires forall i :: 0 <= i < |xs| ==> xs[i] in ks
    ensures SumCounts(xs, ks) == |xs|
  {
    if |ks| == 0 {
      assert |xs| == 0;
      SumCountsNone(xs, ks);
    } else if |xs| == 0 {
      SumCountsNone(xs, ks);
    } else {
      var front := xs[..|xs| - 1];
      SumCountsCover(front, ks);
      assert xs == front + [xs[|xs| - 1]];
      SumCountsSnoc(front, xs[|xs| - 1], ks);
      CountInDistinct(ks, xs[|xs| - 1]);
    }
  }

  lemma {:induction false} SumCountsNone(xs: seq<string>, ks: seq<string>)
    requires |xs| == 0
    ensures SumCounts(xs, ks) == 0
  {
    if |ks| > 0 {
      SumCountsNone(xs, ks[..|ks| - 1]);
    }
  }

  lemma {:induction false} SumOfShares(journals: map<string, real>, js: seq<string>, n: nat, ks: seq<string>)
    requires n > 0
    requires forall i :: 0 <= i < |ks| ==> ks[i] in journals
    requires forall j :: j in journals ==> journals[j] == Count(js, j) as real / n as real * 10.0
    ensures SumOf(journals, ks) == SumCounts(js, ks) as real / n as real * 10.0
  {
    if |ks| > 0 {
      SumOfShares(journals, js, n, ks[..|ks| - 1]);
      ShareAdd(SumCounts(js, ks[..|ks| - 1]), Count(js, ks[|ks| - 1]), n);
    }
  }

  lemma ShareAdd(a: nat, b: nat, n: nat)
    requires n > 0
    ensures a as real / n as real * 10.0 + b as real / n as real * 10.0 == (a + b) as real / n as real * 10.0
  {
  }

  /** For a non-empty corpus, the journal shares add up to 10 over any
      duplicate-free listing of the journal keys. */
  lemma JournalSharesSumToTen(rows: seq<Abstract>, journals: map<string, real>, ks: seq<string>)
    requires |rows| > 0
    requires forall j :: j in journals <==> Count(Journals(rows), j) > 0
    requires forall j :: j in journals ==> journals[j] == Count(Journals(rows), j) as real / |rows| as real * 10.0
    requires Distinct(ks) && forall j :: j in journals <==> j in ks
    ensures SumOf(journals, ks) == 10.0
  {
    var js := Journals(rows);
    assert SumCounts(js, ks) == |rows| by {
      forall i | 0 <= i < |js| ensures js[i] in ks {
        assert Count(js, js[i]) > 0;
      }
      SumCountsCover(js, ks);
    }
    SumOfShares(journals, js, |rows|, ks);
    WholeShare(|rows|);
  }

  lemma WholeShare(n: nat)
    requires n > 0
    ensures n as real / n as real * 10.0 == 10.0
  {
  }

  /** The rows agree in everything but their titles. */
  predicate SameButTitles(rows: seq<Abstract>, others: seq<Abstract>)
  {
    |rows| == |others| && forall i :: 0 <= i < |rows| ==> rows[i].(title := "") == others[i].(title := "")
  }

  /** Titles are read but never influence the counts, the journals or the
      returned text list. */
  lemma {:induction false} TitlesAreIgnored(rows: seq<Abstract>, others: seq<Abstract>, exclude: set<string>, process: bool)
    requires SameButTitles(rows, others)
    ensures CorpusWords(rows, exclude, process) == CorpusWords(others, exclude, process)
    ensures Journals(rows) == Journals(others)
    ensures Bodies(rows, process) == Bodies(others, process)
  {
    if |rows| > 0 {
      var n := |rows| - 1;
      assert SameButTitles(rows[..n], others[..n]) by {
        forall i | 0 <= i < n ensures rows[..n][i].(title := "") == others[..n][i].(title := "") {
          assert rows[..n][i] == rows[i] && others[..n][i] == others[i];
        }
      }
      TitlesAreIgnored(rows[..n], others[..n], exclude, process);
      assert rows[n].(title := "") == others[n].(title := "");
      assert Body(rows[n], process) == Body(others[n], process);
      assert rows[n].journal == others[n].journal;
    }
  }

  /** A word written twice in the one abstract of a corpus has frequency 2:
      frequencies are not bounded by 1. */
  lemma {:induction false} FrequencyCanExceedOne(w: string, row: Abstract)
    requires IsToken(w) && IsLowerCase(w)
    requires row.text == w + " " + w
    ensures LowerCount(CorpusWords([row], {}, false), w) == 2
  {
    LowerOfLowerCase(w);
    TokensOfTwoWords(w, w);
    assert KeptWords([w, w], {}) == [w, w] by {
      assert [w, w][..1] == [w];
      assert [w][..0] == [];
    }
    assert [row][..0] == [];
    assert [w, w][..1] == [w];
    assert [w][..0] == [];
  }

  /** Exclusion compares the token as written, before lower-casing: with
      "Gene" excluded, "Gene gene" still counts "gene" once. */
  lemma {:induction false} ExclusionIsCaseSensitive(w: string, written: string, row: Abstract)
    requires IsToken(w) && IsLowerCase(w)
    requires IsToken(written) && written != w && Lower(written) == w
    requires row.text == written + " " + w
    ensures LowerCount(CorpusWords([row], {written}, false), w) == 1
  {
    LowerOfLowerCase(w);
    TokensOfTwoWords(written, w);
    assert KeptWords([written, w], {written}) == [w] by {
      assert [written, w][..1] == [written];
      assert [written][..0] == [];
    }
    assert [row][..0] == [];
    assert [w][..0] == [];
  }
}
