/** The PubMed side: triaging downloaded records into papers and error
    lists, laying the papers out as a table, and normalising abstract text. */
module Papers {
  import opened Strings
  import opened Collections

  // ---------------------------------------------------------------- text

  /** `[?|!|\'|"|#]`: characters deleted outright (the bar is in the class). */
  predicate IsDeleted(c: char) { c == '?' || c == '|' || c == '!' || c == '\'' || c == '"' || c == '#' }

  /** `[.|,|)|(|\|/]`: characters turned into a space. */
  predicate IsSpaced(c: char) { c == '.' || c == '|' || c == ',' || c == ')' || c == '(' || c == '/' }

  /** `re.sub(r'[?|!|\'|"|#]', '', s)`. */
  function StripPunctuation(s: string): (r: string)
    ensures |r| <= |s|
  {
    if |s| == 0 then []
    else StripPunctuation(s[..|s| - 1]) + (if IsDeleted(s[|s| - 1]) then [] else [s[|s| - 1]])
  }

  /** Nothing is deleted from a string without those characters. */
  lemma {:induction false} StripPunctuationKeeps(s: string)
    requires forall i :: 0 <= i < |s| ==> !IsDeleted(s[i])
    ensures StripPunctuation(s) == s
  {
    if |s| > 0 {
      StripPunctuationKeeps(s[..|s| - 1]);
      assert s == s[..|s| - 1] + [s[|s| - 1]];
    }
  }

  /** `re.sub(r'[.|,|)|(|\|/]', ' ', s)`. */
  function SpacePunctuation(s: string): (r: string)
    ensures |r| == |s|
  {
    seq(|s|, i requires 0 <= i < |s| => if IsSpaced(s[i]) then ' ' else s[i])
  }

  predicate CleanChar(c: char) { !IsUpper(c) && !IsDeleted(c) && !IsSpaced(c) }

  /** The text before splitting: lower-cased, with punctuation removed. */
  function Clean(text: string): string
  {
    SpacePunctuation(StripPunctuation(Lower(text)))
  }

  /** Stripping deletes every deleted character and adds no upper-case letter. */
  lemma {:induction false} StripPunctuationClean(s: string)
    ensures forall i :: 0 <= i < |StripPunctuation(s)| ==> !IsDeleted(StripPunctuation(s)[i])
    ensures (forall i :: 0 <= i < |s| ==> !IsUpper(s[i])) ==>
              forall i :: 0 <= i < |StripPunctuation(s)| ==> !IsUpper(StripPunctuation(s)[i])
  {
    if |s| > 0 {
      StripPunctuationClean(s[..|s| - 1]);
    }
  }

  /** After cleaning, only lower-case text, spaces and no punctuation of either class remain. */
  lemma CleanIsClean(text: string)
    ensures forall i :: 0 <= i < |Clean(text)| ==> CleanChar(Clean(text)[i]) || Clean(text)[i] == ' '
  {
    StripPunctuationClean(Lower(text));
  }

  /** The words of a string hold only characters of the string. */
  lemma {:induction false} FieldsAreClean(s: string)
    requires forall i :: 0 <= i < |s| ==> CleanChar(s[i]) || s[i] == ' '
    ensures forall w, i :: w in Fields(s) && 0 <= i < |w| ==> CleanChar(w[i])
    decreases |s|
  {
    if |s| > 0 {
      if IsSpace(s[0]) {
        FieldsAreClean(s[1..]);
      } else {
        var n := FieldLength(s);
        FieldsAreClean(s[n..]);
        assert Fields(s) == [s[..n]] + Fields(s[n..]);
        forall i | 0 <= i < n ensures CleanChar(s[..n][i]) {
          assert s[..n][i] == s[i] && !IsSpace(s[i]);
        }
      }
    }
  }

  /** Stop words are tested on the lower-cased word; the survivors are stemmed. */
  function KeptStems(ws: seq<string>, stem: string -> string, stop: set<string>): (r: seq<string>)
    ensures |r| <= |ws|
  {
    if |ws| == 0 then []
    else KeptStems(ws[..|ws| - 1], stem, stop) + (if ws[|ws| - 1] in stop then [] else [stem(ws[|ws| - 1])])
  }

  /** The stop list is applied before stemming: a word outside the list is
      kept even when its stem is on it, and a listed word is dropped. */
  lemma {:induction false} KeptStemsMembers(ws: seq<string>, stem: string -> string, stop: set<string>)
    ensures forall i :: 0 <= i < |ws| && ws[i] !in stop ==> stem(ws[i]) in KeptStems(ws, stem, stop)
    ensures forall x :: x in KeptStems(ws, stem, stop) ==> exists i :: 0 <= i < |ws| && ws[i] !in stop && stem(ws[i]) == x
  {
    if |ws| > 0 {
      var front := ws[..|ws| - 1];
      KeptStemsMembers(front, stem, stop);
      forall x | x in KeptStems(ws, stem, stop)
        ensures exists i :: 0 <= i < |ws| && ws[i] !in stop && stem(ws[i]) == x
      {
        if x in KeptStems(front, stem, stop) {
          var i :| 0 <= i < |front| && front[i] !in stop && stem(front[i]) == x;
          assert ws[i] == front[i];
        } else {
          assert ws[|ws| - 1] !in stop && stem(ws[|ws| - 1]) == x;
        }
      }
      forall i | 0 <= i < |ws| && ws[i] !in stop ensures stem(ws[i]) in KeptStems(ws, stem, stop) {
        if i < |front| {
          assert front[i] == ws[i];
        }
      }
    }
  }

  /** `word.isdigit()`: non-empty and all decimal digits. */
  predicate IsNumber(w: string) { |w| > 0 && forall i :: 0 <= i < |w| ==> IsDigit(w[i]) }

  /** Words that are numbers are removed, the others kept in order. */
  function DropNumbers(ws: seq<string>): (r: seq<string>)
    ensures |r| <= |ws|
  {
    if |ws| == 0 then []
    else DropNumbers(ws[..|ws| - 1]) + (if IsNumber(ws[|ws| - 1]) then [] else [ws[|ws| - 1]])
  }

  lemma {:induction false} DropNumbersMembers(ws: seq<string>)
    ensures forall w :: w in DropNumbers(ws) <==> w in ws && !IsNumber(w)
  {
    if |ws| > 0 {
      DropNumbersMembers(ws[..|ws| - 1]);
      assert ws == ws[..|ws| - 1] + [ws[|ws| - 1]];
    }
  }

  /** The words of one processed abstract, before they are joined. */
  function ProcessedWords(text: string, stem: string -> string, stop: set<string>): seq<string>
  {
    DropNumbers(KeptStems(Fields(Clean(text)), stem, stop))
  }

  /** One abstract of `process_text`. */
  function ProcessOne(text: string, stem: string -> string, stop: set<string>): string
  {
    Join(ProcessedWords(text, stem, stop), " ")
  }

  /** The words handed to the stop list and the stemmer are non-empty,
      lower-case and free of the removed punctuation. */
  lemma WordsBeforeStemming(text: string)
    ensures forall w :: w in Fields(Clean(text)) ==>
              |w| > 0 && NoSpace(w) && forall i :: 0 <= i < |w| ==> CleanChar(w[i])
  {
    CleanIsClean(text);
    FieldsAreClean(Clean(text));
  }

  /** When the stemmer maps words to non-empty words without spaces, the
      processed text splits back into exactly its words, and none of them is
      a number. */
  lemma ProcessedSplitsBack(text: string, stem: string -> string, stop: set<string>)
    requires forall w :: |w| > 0 && NoSpace(w) ==> |stem(w)| > 0 && NoSpace(stem(w))
    ensures Fields(ProcessOne(text, stem, stop)) == ProcessedWords(text, stem, stop)
    ensures forall w :: w in Fields(ProcessOne(text, stem, stop)) ==> !IsNumber(w)
  {
    var ws := Fields(Clean(text));
    var kept := KeptStems(ws, stem, stop);
    KeptStemsMembers(ws, stem, stop);
    DropNumbersMembers(kept);
    forall w | w in ProcessedWords(text, stem, stop) ensures |w| > 0 && NoSpace(w) {
      var i :| 0 <= i < |ws| && ws[i] !in stop && stem(ws[i]) == w;
      assert ws[i] in ws;
    }
    FieldsOfJoin(ProcessedWords(text, stem, stop));
  }

  /** `process_text`: one processed abstract per input abstract, in order. */
  method ProcessText(texts: seq<string>, stem: string -> string, stop: set<string>) returns (processedText: seq<string>)
    ensures |processedText| == |texts|
    ensures forall i :: 0 <= i < |texts| ==> processedText[i] == ProcessOne(texts[i], stem, stop)
  {
    processedText := [];
    var i := 0;
    ghost var process := t => ProcessOne(t, stem, stop);
    while i < |texts|
      invariant 0 <= i <= |texts|
      invariant processedText == MapSeq(process, texts[..i])
    {
      var processed := ProcessAbstract(texts[i], stem, stop);
      MapSeqSnoc(process, texts, i);
      processedText := processedText + [processed];
      i := i + 1;
    }
    assert texts[..i] == texts;
    forall k | 0 <= k < |texts| ensures processedText[k] == ProcessOne(texts[k], stem, stop) {
      MapSeqAt(process, texts, k);
    }
  }

  /** The body of the loop of `process_text`, for one abstract. */
  method ProcessAbstract(text: string, stem: string -> string, stop: set<string>) returns (processed: string)
    ensures processed == ProcessOne(text, stem, stop)
  {
    var sentence := Lower(text);
    sentence := StripPunctuation(sentence);
    sentence := SpacePunctuation(sentence);
    var words := KeptStems(Fields(sentence), stem, stop);
    words := DropNumbers(words);
    processed := Join(words, " ");
  }

  // ---------------------------------------------------------------- records

  /** The `Journal` part of an article: its title and, when the issue
      carries one, the publication date. */
  datatype Journal = Journal(title: Option<string>, pubDate: Option<map<string, string>>)

  /** The `MedlineCitation.Article` part of a record. A missing article is
      the empty one; `otherKeys` are the keys not modelled by the fields. */
  datatype Article = Article(abstractText: Option<seq<string>>, title: Option<string>,
                             journal: Option<Journal>, otherKeys: set<string>)

  datatype Record = Record(pmid: Option<string>, article: Article)

  /** What is kept of an accepted paper. */
  datatype Paper = Paper(abstractText: seq<string>, title: Option<string>, publishingDate: map<string, string>,
                         journal: Option<string>)

  /** Where one record goes. */
  datatype Outcome =
    | Accepted(id: string, paper: Paper)
    | MissingPmid(pmid: Option<string>)
    | MissingAbstract(pmid: Option<string>)
    | OtherError(pmid: Option<string>)

  predicate IsEmptyArticle(a: Article)
  {
    a.abstractText.None? && a.title.None? && a.journal.None? && a.otherKeys == {}
  }

  function PubDate(a: Article): Option<map<string, string>>
  {
    if a.journal.Some? then a.journal.value.pubDate else None
  }

  /** The triage of one record. Building the publication date comes first,
      and `dict(None)` raises, so a record without a date is an other error
      whatever else it lacks. Then: no pmid, an empty article, no abstract. */
  function Triage(r: Record): (o: Outcome)
    ensures o.Accepted? <==> && PubDate(r.article).Some? && r.pmid.Some? && r.pmid.value != ""
                             && r.article.abstractText.Some? && r.article.abstractText.value != []
    ensures o.Accepted? ==> o.id == r.pmid.value && o.paper.abstractText == r.article.abstractText.value
    ensures o.Accepted? ==> && o.paper.title == r.article.title
                            && o.paper.publishingDate == PubDate(r.article).value
                            && o.paper.journal == (if r.article.journal.Some? then r.article.journal.value.title else None)
    ensures !o.Accepted? ==> o.pmid == r.pmid
    ensures (&& PubDate(r.article).Some? && r.pmid.Some? && r.pmid.value != ""
             && (r.article.abstractText.None? || r.article.abstractText.value == [])) ==> o == MissingAbstract(r.pmid)
  {
    var a := r.article;
    match PubDate(a)
    case None => OtherError(r.pmid)
    case Some(date) =>
      if r.pmid.None? || r.pmid.value == "" then MissingPmid(r.pmid)
      else if IsEmptyArticle(a) then OtherError(r.pmid)
      else if a.abstractText.None? || a.abstractText.value == [] then MissingAbstract(r.pmid)
      else Accepted(r.pmid.value, Paper(a.abstractText.value, a.title,
                                        date, if a.journal.Some? then a.journal.value.title else None))
  }

  /** The empty-article branch never decides anything: an empty article has
      no date, so the record has already failed, even without a pmid. */
  lemma EmptyArticleFailsFirst(r: Record)
    requires IsEmptyArticle(r.article)
    ensures Triage(r) == OtherError(r.pmid)
  {
  }

  /** A record lacking its date is an other error even when it also lacks
      its pmid or its abstract. */
  lemma MissingDateComesFirst(r: Record)
    requires PubDate(r.article).None?
    ensures Triage(r).OtherError?
  {
  }

  /** With a date, a missing pmid is reported before a missing abstract. */
  lemma MissingPmidBeforeAbstract(r: Record)
    requires PubDate(r.article).Some? && (r.pmid.None? || r.pmid == Some(""))
    ensures Triage(r) == MissingPmid(r.pmid)
  {
  }

  /** The papers and the three error lists built so far. `order` is the key
      order of the papers dictionary. */
  datatype Triaged = Triaged(order: seq<string>, papers: map<string, Paper>,
                             missingAbstract: seq<Option<string>>, missingPmid: seq<Option<string>>,
                             otherError: seq<Option<string>>)

  /** The effect of one outcome. */
  function Record1(t: Triaged, o: Outcome): Triaged
  {
    match o
    case Accepted(id, p) =>
      t.(order := if id in t.papers then t.order else t.order + [id], papers := t.papers[id := p])
    case MissingPmid(x) => t.(missingPmid := t.missingPmid + [x])
    case MissingAbstract(x) => t.(missingAbstract := t.missingAbstract + [x])
    case OtherError(x) => t.(otherError := t.otherError + [x])
  }

  /** Every record triaged in turn. */
  function TriageAll(records: seq<Record>): Triaged
  {
    if |records| == 0 then Triaged([], map[], [], [], [])
    else Record1(TriageAll(records[..|records| - 1]), Triage(records[|records| - 1]))
  }

  /** The pmids of the accepted records, in record order, repeats included. */
  function AcceptedIds(records: seq<Record>): (r: seq<string>)
    ensures |r| <= |records|
  {
    if |records| == 0 then []
    else
      var o := Triage(records[|records| - 1]);
      AcceptedIds(records[..|records| - 1]) + (if o.Accepted? then [o.id] else [])
  }

  /** The last accepted paper with pmid `id`, if any. */
  function LastPaper(records: seq<Record>, id: string): Option<Paper>
  {
    if |records| == 0 then None
    else
      var o := Triage(records[|records| - 1]);
      if o.Accepted? && o.id == id then Some(o.paper) else LastPaper(records[..|records| - 1], id)
  }

  /** Every record lands in exactly one place: an accepted paper or one of
      the three error lists. */
  lemma {:induction false} TriagePartition(records: seq<Record>)
    ensures var t := TriageAll(records);
            |AcceptedIds(records)| + |t.missingAbstract| + |t.missingPmid| + |t.otherError| == |records|
  {
    if |records| > 0 {
      TriagePartition(records[..|records| - 1]);
    }
  }

  /** The papers dictionary lists one key per accepted pmid, in order of
      first acceptance. */
  lemma {:induction false} TriageOrder(records: seq<Record>)
    ensures var t := TriageAll(records);
            && t.order == FirstAppearance(AcceptedIds(records))
            && (forall id :: id in t.papers <==> id in t.order)
  {
    if |records| > 0 {
      var front := records[..|records| - 1];
      TriageOrder(front);
      var o := Triage(records[|records| - 1]);
      var ids := AcceptedIds(front);
      if o.Accepted? {
        assert AcceptedIds(records) == ids + [o.id];
        FirstAppearanceSnoc(ids, o.id);
      } else {
        assert AcceptedIds(records) == ids;
      }
    }
  }

  /** Each pmid of the papers dictionary holds the last paper accepted under it. */
  lemma {:induction false} TriageLastWins(records: seq<Record>)
    ensures var t := TriageAll(records);
            && (forall id :: id in t.papers <==> LastPaper(records, id).Some?)
            && (forall id :: id in t.papers ==> t.papers[id] == LastPaper(records, id).value)
  {
    if |records| > 0 {
      TriageLastWins(records[..|records| - 1]);
    }
  }

  /** The download loop of `get_paper_info` over the fetched records. */
  method TriageRecords(records: seq<Record>) returns (t: Triaged)
    ensures t == TriageAll(records)
  {
    var allPapers: map<string, Paper> := map[];
    var order: seq<string> := [];
    var missingAbstract: seq<Option<string>> := [];
    var missingPmid: seq<Option<string>> := [];
    var otherError: seq<Option<string>> := [];
    var i := 0;
    while i < |records|
      invariant 0 <= i <= |records|
      invariant Triaged(order, allPapers, missingAbstract, missingPmid, otherError) == TriageAll(records[..i])
    {
      assert records[..i + 1][..i] == records[..i];
      var outcome := Triage(records[i]);
      match outcome {
        case Accepted(pmid, paperInfo) =>
          if pmid !in allPapers {
            order := order + [pmid];
          }
          allPapers := allPapers[pmid := paperInfo];
        case MissingPmid(pmid) =>
          missingPmid := missingPmid + [pmid];
        case MissingAbstract(pmid) =>
          missingAbstract := missingAbstract + [pmid];
        case OtherError(pmid) =>
          otherError := otherError + [pmid];
      }
      i := i + 1;
    }
    assert records[..i] == records;
    t := Triaged(order, allPapers, missingAbstract, missingPmid, otherError);
  }

  // ---------------------------------------------------------------- table

  /** A value of the papers dictionary: a paper, or `False` for none. */
  datatype Entry = NoPaper | Found(paper: Paper)

  /** An insertion-ordered dictionary from pmid to entry. */
  datatype PaperDict = PaperDict(keys: seq<string>, entries: map<string, Entry>)

  predicate ValidDict(d: PaperDict)
  {
    && Distinct(d.keys)
    && (forall k :: k in d.keys ==> k in d.entries)
    && (forall k :: k in d.entries ==> k in d.keys)
  }

  /** The table of `get_pubmed_df`, column by column. */
  datatype PubmedTable = PubmedTable(text: seq<string>, title: seq<Option<string>>,
                                     journal: seq<Option<string>>, pmid: seq<string>)

  /** The keys, in order, whose entry is a paper. */
  function FoundKeys(d: PaperDict): (r: seq<string>)
    requires ValidDict(d)
    ensures forall k :: k in r ==> k in d.entries && d.entries[k].Found?
  {
    FoundAmong(d.keys, d.entries)
  }

  function FoundAmong(ks: seq<string>, entries: map<string, Entry>): (r: seq<string>)
    requires forall k :: k in ks ==> k in entries
    ensures forall k :: k in r ==> k in ks && entries[k].Found?
  {
    if |ks| == 0 then []
    else
      var k := ks[|ks| - 1];
      FoundAmong(ks[..|ks| - 1], entries) + (if entries[k].Found? then [k] else [])
  }

  /** Every key with a paper is listed, once. */
  lemma {:induction false} FoundAmongDistinct(ks: seq<string>, entries: map<string, Entry>)
    requires forall k :: k in ks ==> k in entries
    requires Distinct(ks)
    ensures Distinct(FoundAmong(ks, entries))
    ensures forall k :: k in ks && entries[k].Found? ==> k in FoundAmong(ks, entries)
  {
    if |ks| > 0 {
      var front := ks[..|ks| - 1];
      var k := ks[|ks| - 1];
      FoundAmongDistinct(front, entries);
      assert k !in front by {
        forall i | 0 <= i < |front| ensures front[i] != k {
          assert ks[i] == front[i];
        }
      }
      assert forall x :: x in ks ==> x in front || x == k by {
        assert ks == front + [k];
      }
    }
  }

  /** `get_pubmed_df`: the four columns are aligned, and each line describes
      one paper of the dictionary. The line order is the `FoundKeys` filter of
      the key order; `PipelineTable` states it for the dictionary of a triage. */
  function GetPubmedDf(d: PaperDict): (t: PubmedTable)
    requires ValidDict(d)
    ensures |t.text| == |t.pmid| && |t.title| == |t.pmid| && |t.journal| == |t.pmid|
    ensures forall i :: 0 <= i < |t.pmid| ==>
              && t.pmid[i] in d.entries && d.entries[t.pmid[i]].Found?
              && t.text[i] == Join(d.entries[t.pmid[i]].paper.abstractText, " ")
              && t.title[i] == d.entries[t.pmid[i]].paper.title
              && t.journal[i] == d.entries[t.pmid[i]].paper.journal
  {
    var ks := FoundKeys(d);
    PubmedTable(seq(|ks|, i requires 0 <= i < |ks| => Join(d.entries[ks[i]].paper.abstractText, " ")),
                seq(|ks|, i requires 0 <= i < |ks| => d.entries[ks[i]].paper.title),
                seq(|ks|, i requires 0 <= i < |ks| => d.entries[ks[i]].paper.journal),
                ks)
  }

  /** The table has one line per paper of the dictionary, each pmid once. */
  lemma TableCoversPapers(d: PaperDict)
    requires ValidDict(d)
    ensures Distinct(GetPubmedDf(d).pmid)
    ensures forall k :: k in d.entries && d.entries[k].Found? ==> k in GetPubmedDf(d).pmid
  {
    FoundAmongDistinct(d.keys, d.entries);
  }

  /** The papers of a triage as the dictionary `get_pubmed_df` reads. */
  function AsDict(t: Triaged): PaperDict
  {
    PaperDict(t.order, map k | k in t.papers :: Found(t.papers[k]))
  }

  /** Downloading and tabulating: one table line per distinct accepted
      pmid, in order of first acceptance, with the last paper accepted
      under that pmid. */
  lemma PipelineTable(records: seq<Record>)
    ensures ValidDict(AsDict(TriageAll(records)))
    ensures GetPubmedDf(AsDict(TriageAll(records))).pmid == FirstAppearance(AcceptedIds(records))
  {
    var t := TriageAll(records);
    TriageOrder(records);
    var d := AsDict(t);
    FoundAllOf(d.keys, d.entries);
  }

  lemma {:induction false} FoundAllOf(ks: seq<string>, entries: map<string, Entry>)
    requires forall k :: k in ks ==> k in entries && entries[k].Found?
    ensures FoundAmong(ks, entries) == ks
  {
    if |ks| > 0 {
      var n := |ks| - 1;
      var front := ks[..n];
      assert forall k :: k in front ==> k in ks;
      FoundAllOf(front, entries);
      assert ks[n] in ks;
      SplitLast(ks);
    }
  }
}
