/** Validation bookkeeping: coding the hand-validated answers, labelling each
    model's predictions as TP / TN / FP / FN, tallying the labels, dropping
    conflicting duplicate validations and applying manual corrections.
    A pandas table is a list of columns and a list of labelled lines. */
module Validation {
  import opened Strings
  import opened Collections

  /** A table cell. `Missing` is pandas' NaN, which differs from everything,
      itself included. */
  datatype Cell = Int(i: int) | Str(s: string) | Missing

  /** One table line: its index label and its cells. A column with no entry
      in `cells` holds NaN. */
  datatype Line = Line(index: int, cells: map<string, Cell>)

  datatype Frame = Frame(columns: seq<string>, lines: seq<Line>)

  function CellAt(line: Line, c: string): Cell
  {
    if c in line.cells then line.cells[c] else Missing
  }

  predicate DistinctIndex(lines: seq<Line>)
  {
    forall i, j :: 0 <= i < j < |lines| ==> lines[i].index != lines[j].index
  }

  /** Distinct column names, distinct index labels, and cells only under columns. */
  predicate WellFormed(f: Frame)
  {
    && Distinct(f.columns)
    && DistinctIndex(f.lines)
    && forall i :: 0 <= i < |f.lines| ==> forall c :: c in f.lines[i].cells ==> c in f.columns
  }

  // ---------------------------------------------------------------- coding

  /** The answer words of a validation sheet and their truth value. */
  const Terms: map<string, int> := map["F" := 0, "T" := 1, "FALSE" := 0, "False" := 0, "True" := 1,
                                       "TRUE" := 1, "No" := 0, "No " := 0, " No" := 0, "Yes" := 1,
                                       "t" := 1, "f" := 0]

  /** `TERMS.get(str(x), 2)`. The text of a number or of NaN is never a key,
      so only a listed string is coded 0 or 1. */
  function Code(c: Cell): (r: int)
    ensures 0 <= r <= 2
    ensures r != 2 <==> c.Str? && c.s in Terms
    ensures c.Str? && c.s in Terms ==> r == Terms[c.s]
  {
    if c.Str? && c.s in Terms then Terms[c.s] else 2
  }

  /** Every listed answer means true or false. */
  lemma TermsAreBinary()
    ensures forall k :: k in Terms ==> Terms[k] == 0 || Terms[k] == 1
  {
  }

  /** The coding is exact: case and surrounding spaces matter, and numbers are unknown. */
  lemma CodingExamples()
    ensures Code(Str("Yes")) == 1 && Code(Str("No ")) == 0
    ensures Code(Str("yes")) == 2 && Code(Str("  No")) == 2
    ensures Code(Int(1)) == 2 && Code(Missing) == 2
  {
  }

  /** The column `item` with every cell replaced by its code. */
  function CodeColumn(f: Frame, item: string): (r: Frame)
    ensures r.columns == f.columns && |r.lines| == |f.lines|
    ensures forall i :: 0 <= i < |f.lines| ==> r.lines[i].index == f.lines[i].index
    ensures forall i :: 0 <= i < |f.lines| ==>
              r.lines[i].cells == f.lines[i].cells[item := Int(Code(CellAt(f.lines[i], item)))]
  {
    Frame(f.columns, seq(|f.lines|, i requires 0 <= i < |f.lines| =>
      Line(f.lines[i].index, f.lines[i].cells[item := Int(Code(CellAt(f.lines[i], item)))])))
  }

  /** The value a header cell holds once the headers `hs` have been coded in
      turn: the code of its original value after one pass, and 2 after a
      repeated pass, since the text of a code is no listed answer. */
  function HeaderCode(original: Cell, hs: seq<string>, c: string): Cell
  {
    Int(if Count(hs, c) == 1 then Code(original) else 2)
  }

  /** `r` is `f` with the headers `hs` coded in turn. */
  ghost predicate HeadersCoded(f: Frame, hs: seq<string>, r: Frame)
  {
    && r.columns == f.columns && |r.lines| == |f.lines|
    && (forall i :: 0 <= i < |f.lines| ==> r.lines[i].index == f.lines[i].index)
    && (forall i, c :: 0 <= i < |f.lines| && c in hs ==>
          c in r.lines[i].cells && r.lines[i].cells[c] == HeaderCode(CellAt(f.lines[i], c), hs, c))
    && (forall i, c :: 0 <= i < |f.lines| && c !in hs ==> CellAt(r.lines[i], c) == CellAt(f.lines[i], c))
    && (forall i, c :: 0 <= i < |f.lines| && c in f.lines[i].cells && c !in hs ==>
          c in r.lines[i].cells && r.lines[i].cells[c] == f.lines[i].cells[c])
  }

  /** Coding one more header. */
  lemma HeadersCodedSnoc(f: Frame, hs: seq<string>, h: string, r: Frame)
    requires HeadersCoded(f, hs, r)
    ensures HeadersCoded(f, hs + [h], CodeColumn(r, h))
  {
    assert (hs + [h])[..|hs|] == hs;
    InSnoc(hs, h);
  }

  /** The header coding of `create_validation_df`: each listed column is coded in turn. */
  method CodeHeaders(f: Frame, headers: seq<string>) returns (r: Frame)
    requires forall i :: 0 <= i < |headers| ==> headers[i] in f.columns
    ensures r.columns == f.columns && |r.lines| == |f.lines|
    ensures forall i :: 0 <= i < |f.lines| ==> r.lines[i].index == f.lines[i].index
    ensures forall i, c :: 0 <= i < |f.lines| && c in headers ==>
              c in r.lines[i].cells && r.lines[i].cells[c].Int? && 0 <= r.lines[i].cells[c].i <= 2
    ensures forall i, c :: 0 <= i < |f.lines| && c in headers ==>
              r.lines[i].cells[c] == Int(if Count(headers, c) == 1 then Code(CellAt(f.lines[i], c)) else 2)
    ensures Distinct(headers) ==> forall i, c :: 0 <= i < |f.lines| && c in headers ==>
              r.lines[i].cells[c] == Int(Code(CellAt(f.lines[i], c)))
    ensures forall i, c :: 0 <= i < |f.lines| && c in f.lines[i].cells && c !in headers ==>
              c in r.lines[i].cells && r.lines[i].cells[c] == f.lines[i].cells[c]
  {
    r := f;
    var k := 0;
    while k < |headers|
      invariant 0 <= k <= |headers|
      invariant HeadersCoded(f, headers[..k], r)
    {
      assert headers[..k + 1] == headers[..k] + [headers[k]];
      HeadersCodedSnoc(f, headers[..k], headers[k], r);
      r := CodeColumn(r, headers[k]);
      k := k + 1;
    }
    assert headers[..k] == headers;
    forall c | c in headers && Distinct(headers)
      ensures Count(headers, c) == 1
    {
      DistinctCount(headers, c);
    }
  }

  /** `TERMS.get(str(results[pmid]), 2)` for each pmid: the coded prediction of each row. */
  function PredictionCodes(pmids: seq<string>, results: map<string, string>): (r: seq<int>)
    requires forall i :: 0 <= i < |pmids| ==> pmids[i] in results
    ensures |r| == |pmids|
    ensures forall i :: 0 <= i < |pmids| ==> 0 <= r[i] <= 2 && (r[i] != 2 <==> results[pmids[i]] in Terms)
  {
    seq(|pmids|, i requires 0 <= i < |pmids| => Code(Str(results[pmids[i]])))
  }

  // ---------------------------------------------------------------- labels

  datatype Label = TP | TN | FP | FN

  function LabelName(l: Label): string
  {
    match l
    case TP => "TP"
    case TN => "TN"
    case FP => "FP"
    case FN => "FN"
  }

  lemma LabelNamesDistinct(a: Label, b: Label)
    ensures LabelName(a) == LabelName(b) <==> a == b
  {
  }

  /** The ground truth of a line: the common value of the first two headers,
      or 0 when they disagree (a NaN never agrees). */
  function Actual(line: Line, h0: string, h1: string): (r: Cell)
    ensures CellAt(line, h0) == CellAt(line, h1) && CellAt(line, h0) != Missing ==> r == CellAt(line, h0)
    ensures CellAt(line, h0) != CellAt(line, h1) || CellAt(line, h0) == Missing ==> r == Int(0)
  {
    var a, b := CellAt(line, h0), CellAt(line, h1);
    if a == b && a != Missing then a else Int(0)
  }

  /** The confusion label of a 0/1 prediction against the ground truth. */
  function LabelOf(prediction: int, actual: Cell): (l: Label)
    requires prediction == 0 || prediction == 1
    ensures l == TP <==> prediction == 1 && actual == Int(1)
    ensures l == TN <==> prediction == 0 && actual == Int(0)
    ensures l == FP <==> prediction == 1 && actual != Int(1)
    ensures l == FN <==> prediction == 0 && actual != Int(0)
  {
    if Int(prediction) == actual then (if prediction == 0 then TN else TP)
    else (if prediction == 0 then FN else FP)
  }

  /** An unknown answer (coded 2) always makes a 0 prediction a false negative. */
  lemma UnknownIsNegative(line: Line, h0: string, h1: string)
    requires CellAt(line, h0) == Int(2) && CellAt(line, h1) == Int(2)
    ensures LabelOf(0, Actual(line, h0, h1)) == FN
    ensures LabelOf(1, Actual(line, h0, h1)) == FP
  {
  }

  const Markers: seq<string> := ["lr", "rf", "nb", "xgb", "svm", "random", "shark"]

  /** A column of model predictions: its name contains one of the model markers. */
  predicate IsModelColumn(c: string)
  {
    exists k :: 0 <= k < |Markers| && Contains(c, Markers[k])
  }

  predicate IsBinary(c: Cell) { c == Int(0) || c == Int(1) }

  /** What `add_final_result_to_df` can label: two different header columns,
      and 0/1 predictions in every model column, none of which has a result
      column yet. */
  predicate Labellable(df: Frame, headers: seq<string>)
  {
    && WellFormed(df)
    && |headers| >= 2 && headers[0] in df.columns && headers[1] in df.columns && headers[0] != headers[1]
    && forall c :: c in df.columns && IsModelColumn(c) ==>
         "Result" + c !in df.columns && forall i :: 0 <= i < |df.lines| ==> IsBinary(CellAt(df.lines[i], c))
  }

  /** The label cell of one line for the model column `c`. */
  function ResultCell(line: Line, c: string, h0: string, h1: string): Cell
    requires IsBinary(CellAt(line, c))
  {
    Str(LabelName(LabelOf(CellAt(line, c).i, Actual(line, h0, h1))))
  }

  function ModelColumns(cs: seq<string>): (r: seq<string>)
    ensures forall c :: c in r <==> c in cs && IsModelColumn(c)
  {
    if |cs| == 0 then []
    else ModelColumns(cs[..|cs| - 1]) + (if IsModelColumn(cs[|cs| - 1]) then [cs[|cs| - 1]] else [])
  }

  function ResultNames(cs: seq<string>): (r: seq<string>)
    ensures |r| == |cs|
    ensures forall i :: 0 <= i < |cs| ==> r[i] == "Result" + cs[i]
  {
    if |cs| == 0 then [] else ResultNames(cs[..|cs| - 1]) + ["Result" + cs[|cs| - 1]]
  }

  /** The per-line loop: one label for each line, in line order. */
  method ResultColumn(lines: seq<Line>, c: string, h0: string, h1: string) returns (finalResults: seq<Cell>)
    requires forall i :: 0 <= i < |lines| ==> IsBinary(CellAt(lines[i], c))
    ensures |finalResults| == |lines|
    ensures forall i :: 0 <= i < |lines| ==> finalResults[i] == ResultCell(lines[i], c, h0, h1)
  {
    finalResults := [];
    var i := 0;
    while i < |lines|
      invariant 0 <= i <= |lines|
      invariant |finalResults| == i
      invariant forall k :: 0 <= k < i ==> finalResults[k] == ResultCell(lines[k], c, h0, h1)
    {
      var prediction := CellAt(lines[i], c).i;
      var actual := Actual(lines[i], h0, h1);
      var value: Label;
      if actual.Int? && prediction == actual.i {
        if prediction == 0 {
          value := TN;
        } else {
          value := TP;
        }
      } else {
        if prediction == 0 {
          value := FN;
        } else {
          value := FP;
        }
      }
      finalResults := finalResults + [Str(LabelName(value))];
      i := i + 1;
    }
  }

  /** `df[name] = values`: the column set to the given values, line by line. */
  function SetColumn(f: Frame, name: string, values: seq<Cell>): (r: Frame)
    requires |values| == |f.lines|
    ensures r.columns == if name in f.columns then f.columns else f.columns + [name]
    ensures |r.lines| == |f.lines|
    ensures forall i :: 0 <= i < |f.lines| ==> r.lines[i] == Line(f.lines[i].index, f.lines[i].cells[name := values[i]])
  {
    Frame(if name in f.columns then f.columns else f.columns + [name],
          seq(|f.lines|, i requires 0 <= i < |f.lines| => Line(f.lines[i].index, f.lines[i].cells[name := values[i]])))
  }

  lemma ResultNameInjective(a: string, b: string)
    requires "Result" + a == "Result" + b
    ensures a == b
  {
    assert a == ("Result" + a)[6..];
    assert b == ("Result" + b)[6..];
  }

  /** Every model column in `added` holds a 0/1 prediction on every line. */
  predicate BinaryColumns(df: Frame, added: seq<string>)
  {
    forall i, k :: 0 <= i < |df.lines| && 0 <= k < |added| ==> IsBinary(CellAt(df.lines[i], added[k]))
  }

  /** The cells of `dl` once the result cell of each model column of
      `added` has been put in, column by column. */
  function AnnotatedCells(dl: Line, added: seq<string>, h0: string, h1: string): map<string, Cell>
    requires forall k :: 0 <= k < |added| ==> IsBinary(CellAt(dl, added[k]))
  {
    if |added| == 0 then dl.cells
    else
      var n := |added| - 1;
      AnnotatedCells(dl, added[..n], h0, h1)["Result" + added[n] := ResultCell(dl, added[n], h0, h1)]
  }

  lemma AnnotatedCellsSnoc(dl: Line, added: seq<string>, c: string, h0: string, h1: string)
    requires forall k :: 0 <= k < |added| ==> IsBinary(CellAt(dl, added[k]))
    requires IsBinary(CellAt(dl, c))
    ensures AnnotatedCells(dl, added + [c], h0, h1)
              == AnnotatedCells(dl, added, h0, h1)["Result" + c := ResultCell(dl, c, h0, h1)]
  {
    assert (added + [c])[..|added|] == added;
  }

  /** An annotated line holds the original cells and one result cell per
      added column, and nothing else. */
  lemma {:induction false} AnnotatedKeys(dl: Line, added: seq<string>, h0: string, h1: string)
    requires forall k :: 0 <= k < |added| ==> IsBinary(CellAt(dl, added[k]))
    ensures forall key :: key in AnnotatedCells(dl, added, h0, h1) <==> key in dl.cells || key in ResultNames(added)
  {
    if |added| > 0 {
      var n := |added| - 1;
      AnnotatedKeys(dl, added[..n], h0, h1);
      InSnoc(ResultNames(added[..n]), "Result" + added[n]);
    }
  }

  /** A cell that is not a result cell keeps its value. */
  lemma {:induction false} AnnotatedKeepsOthers(dl: Line, added: seq<string>, h0: string, h1: string, key: string)
    requires forall k :: 0 <= k < |added| ==> IsBinary(CellAt(dl, added[k]))
    requires key in dl.cells && key !in ResultNames(added)
    ensures key in AnnotatedCells(dl, added, h0, h1)
    ensures AnnotatedCells(dl, added, h0, h1)[key] == dl.cells[key]
  {
    if |added| > 0 {
      var n := |added| - 1;
      InSnoc(ResultNames(added[..n]), "Result" + added[n]);
      AnnotatedKeepsOthers(dl, added[..n], h0, h1, key);
    }
  }

  /** The result cell of each added column holds that column's label,
      even when a column was added twice. */
  lemma {:induction false} AnnotatedResult(dl: Line, added: seq<string>, h0: string, h1: string, j: nat)
    requires forall k :: 0 <= k < |added| ==> IsBinary(CellAt(dl, added[k]))
    requires j < |added|
    ensures "Result" + added[j] in AnnotatedCells(dl, added, h0, h1)
    ensures AnnotatedCells(dl, added, h0, h1)["Result" + added[j]] == ResultCell(dl, added[j], h0, h1)
  {
    var n := |added| - 1;
    if j < n {
      AnnotatedResult(dl, added[..n], h0, h1, j);
      if "Result" + added[n] == "Result" + added[j] {
        ResultNameInjective(added[n], added[j]);
      }
    }
  }

  /** `r` is `df` with one result column per model column of `added`, in
      that order, after the original columns, and every line annotated. */
  predicate Annotated(r: Frame, df: Frame, added: seq<string>, h0: string, h1: string)
    requires BinaryColumns(df, added)
  {
    && r.columns == df.columns + ResultNames(added)
    && |r.lines| == |df.lines|
    && forall i :: 0 <= i < |df.lines| ==>
         r.lines[i] == Line(df.lines[i].index, AnnotatedCells(df.lines[i], added, h0, h1))
  }

  /** `add_final_result_to_df`: one result column per model column, in
      column order, labelling every line. */
  method AddFinalResults(df: Frame, headers: seq<string>) returns (r: Frame)
    requires Labellable(df, headers)
    ensures BinaryColumns(df, ModelColumns(df.columns))
    ensures Annotated(r, df, ModelColumns(df.columns), headers[0], headers[1])
  {
    var h0, h1 := headers[0], headers[1];
    r := df;
    ghost var added: seq<string> := [];
    var j := 0;
    assert df.columns + ResultNames([]) == df.columns;
    while j < |df.columns|
      invariant 0 <= j <= |df.columns|
      invariant added == ModelColumns(df.columns[..j])
      invariant BinaryColumns(df, added)
      invariant Annotated(r, df, added, h0, h1)
    {
      var mlType := df.columns[j];
      ModelColumnsStep(df.columns, j);
      if IsModelColumn(mlType) {
        r := AddResultColumn(r, df, added, mlType, h0, h1);
        added := added + [mlType];
      }
      j := j + 1;
    }
    assert df.columns[..j] == df.columns;
  }

  /** One more column extends the model columns when it is one, and a
      column name occurs once. */
  lemma ModelColumnsStep(cs: seq<string>, j: nat)
    requires Distinct(cs) && j < |cs|
    ensures ModelColumns(cs[..j + 1]) == ModelColumns(cs[..j]) + (if IsModelColumn(cs[j]) then [cs[j]] else [])
    ensures cs[j] !in ModelColumns(cs[..j])
  {
    assert cs[..j + 1][..j] == cs[..j];
    forall k | 0 <= k < j ensures cs[..j][k] != cs[j] {
      assert cs[..j][k] == cs[k];
    }
  }

  /** One step of the column loop: the labels of model column `mlType`,
      line by line, stored as `df["Result" + mlType]`. */
  method AddResultColumn(r0: Frame, df: Frame, ghost added: seq<string>, mlType: string, h0: string, h1: string)
    returns (r: Frame)
    requires "Result" + mlType !in df.columns
    requires forall i :: 0 <= i < |df.lines| ==> IsBinary(CellAt(df.lines[i], mlType))
    requires BinaryColumns(df, added) && mlType !in added
    requires Annotated(r0, df, added, h0, h1)
    ensures BinaryColumns(df, added + [mlType])
    ensures Annotated(r, df, added + [mlType], h0, h1)
  {
    var finalResults := ResultColumn(df.lines, mlType, h0, h1);
    r := SetColumn(r0, "Result" + mlType, finalResults);
    ResultColumnAnnotates(r0, df, added, mlType, finalResults, h0, h1);
  }


  lemma FreshResultName(added: seq<string>, c: string)
    requires c !in added
    ensures ResultNames(added + [c]) == ResultNames(added) + ["Result" + c]
    ensures "Result" + c !in ResultNames(added)
  {
    assert (added + [c])[..|added|] == added;
    forall k | 0 <= k < |added| ensures ResultNames(added)[k] != "Result" + c {
      if ResultNames(added)[k] == "Result" + c {
        ResultNameInjective(added[k], c);
      }
    }
  }

  lemma ResultColumnAnnotates(r0: Frame, df: Frame, added: seq<string>, mlType: string,
                              finalResults: seq<Cell>, h0: string, h1: string)
    requires "Result" + mlType !in df.columns
    requires forall i :: 0 <= i < |df.lines| ==> IsBinary(CellAt(df.lines[i], mlType))
    requires BinaryColumns(df, added) && mlType !in added
    requires Annotated(r0, df, added, h0, h1)
    requires |finalResults| == |df.lines|
    requires forall i :: 0 <= i < |df.lines| ==> finalResults[i] == ResultCell(df.lines[i], mlType, h0, h1)
    ensures BinaryColumns(df, added + [mlType])
    ensures Annotated(SetColumn(r0, "Result" + mlType, finalResults), df, added + [mlType], h0, h1)
  {
    FreshResultName(added, mlType);
    var rc := "Result" + mlType;
    InAppend(df.columns, ResultNames(added), rc);
    assert df.columns + ResultNames(added + [mlType]) == r0.columns + [rc];
    var r := SetColumn(r0, rc, finalResults);
    forall i | 0 <= i < |df.lines|
      ensures r.lines[i] == Line(df.lines[i].index, AnnotatedCells(df.lines[i], added + [mlType], h0, h1))
    {
      AnnotatedCellsSnoc(df.lines[i], added, mlType, h0, h1);
    }
  }

  // ---------------------------------------------------------------- tally

  datatype Counts = Counts(tp: nat, tn: nat, fp: nat, fn: nat)

  predicate IsLabelCell(c: Cell)
  {
    c == Str("TP") || c == Str("TN") || c == Str("FP") || c == Str("FN")
  }

  /** Every cell of a label column is one of the four labels, so the four
      counts cover the column. */
  lemma {:induction false} CountsCover(values: seq<Cell>)
    requires forall i :: 0 <= i < |values| ==> IsLabelCell(values[i])
    ensures Count(values, Str("TP")) + Count(values, Str("TN")) + Count(values, Str("FP")) + Count(values, Str("FN")) == |values|
  {
    if |values| > 0 {
      CountsCover(values[..|values| - 1]);
    }
  }

  /** The counts with one more cell: its label's count goes up by one. */
  function Bump(t: Counts, v: Cell): Counts
  {
    if v == Str("TP") then t.(tp := t.tp + 1)
    else if v == Str("TN") then t.(tn := t.tn + 1)
    else if v == Str("FP") then t.(fp := t.fp + 1)
    else if v == Str("FN") then t.(fn := t.fn + 1)
    else t
  }

  /** The four label counts of `values`; other cells count for nothing. */
  function Tallied(values: seq<Cell>): (t: Counts)
  {
    if |values| == 0 then Counts(0, 0, 0, 0)
    else Bump(Tallied(values[..|values| - 1]), values[|values| - 1])
  }

  lemma TalliedSnoc(values: seq<Cell>, i: nat)
    requires i < |values|
    ensures Tallied(values[..i + 1]) == Bump(Tallied(values[..i]), values[i])
  {
    assert values[..i + 1][..i] == values[..i];
  }

  /** Each count of the tally is the number of cells holding that label. */
  lemma {:induction false} TalliedCounts(values: seq<Cell>)
    ensures Tallied(values).tp == Count(values, Str("TP")) && Tallied(values).tn == Count(values, Str("TN"))
    ensures Tallied(values).fp == Count(values, Str("FP")) && Tallied(values).fn == Count(values, Str("FN"))
  {
    if |values| > 0 {
      TalliedCounts(values[..|values| - 1]);
    }
  }

  /** The tally loop of `main`: how often each label occurs. A cell that is
      not a label is a missing key of the tally dictionary, which aborts. */
  method Tally(values: seq<Cell>) returns (r: Option<Counts>)
    ensures r.Some? <==> forall i :: 0 <= i < |values| ==> IsLabelCell(values[i])
    ensures r.Some? ==> && r.value.tp == Count(values, Str("TP")) && r.value.tn == Count(values, Str("TN"))
                        && r.value.fp == Count(values, Str("FP")) && r.value.fn == Count(values, Str("FN"))
    ensures r.Some? ==> r.value.tp + r.value.tn + r.value.fp + r.value.fn == |values|
    ensures r.Some? ==> r.value == Tallied(values)
  {
    var temp := Counts(0, 0, 0, 0);
    var i := 0;
    while i < |values|
      invariant 0 <= i <= |values|
      invariant forall k :: 0 <= k < i ==> IsLabelCell(values[k])
      invariant temp == Tallied(values[..i])
    {
      var value := values[i];
      TalliedSnoc(values, i);
      if value == Str("TP") {
        temp := temp.(tp := temp.tp + 1);
      } else if value == Str("TN") {
        temp := temp.(tn := temp.tn + 1);
      } else if value == Str("FP") {
        temp := temp.(fp := temp.fp + 1);
      } else if value == Str("FN") {
        temp := temp.(fn := temp.fn + 1);
      } else {
        assert !IsLabelCell(values[i]);
        return None;
      }
      i := i + 1;
    }
    assert values[..i] == values;
    TalliedCounts(values);
    CountsCover(values);
    r := Some(temp);
  }

  function ColumnValues(lines: seq<Line>, c: string): (r: seq<Cell>)
    ensures |r| == |lines|
    ensures forall i :: 0 <= i < |lines| ==> r[i] == CellAt(lines[i], c)
  {
    seq(|lines|, i requires 0 <= i < |lines| => CellAt(lines[i], c))
  }

  /** Every line holds a label in each "Result" column among `cs`. */
  ghost predicate LabelColumns(f: Frame, cs: seq<string>)
  {
    forall c, i :: c in cs && Contains(c, "Result") && 0 <= i < |f.lines| ==> IsLabelCell(CellAt(f.lines[i], c))
  }

  /** `table` holds exactly the "Result" columns among `cs`, each with its tally. */
  ghost predicate Tabulated(f: Frame, cs: seq<string>, table: map<string, Counts>)
  {
    && (forall c :: c in table <==> c in cs && Contains(c, "Result"))
    && (forall c :: c in table ==> table[c] == Tallied(ColumnValues(f.lines, c)))
  }

  lemma TabulatedSnoc(f: Frame, cs: seq<string>, c: string, table: map<string, Counts>)
    requires Tabulated(f, cs, table)
    ensures Contains(c, "Result") ==> Tabulated(f, cs + [c], table[c := Tallied(ColumnValues(f.lines, c))])
    ensures !Contains(c, "Result") ==> Tabulated(f, cs + [c], table)
  {
    forall d
      ensures d in cs + [c] <==> d in cs || d == c
    {
    }
  }

  lemma LabelColumnsSnoc(f: Frame, cs: seq<string>, c: string)
    requires LabelColumns(f, cs)
    requires Contains(c, "Result") ==> forall i :: 0 <= i < |f.lines| ==> IsLabelCell(CellAt(f.lines[i], c))
    ensures LabelColumns(f, cs + [c])
  {
    forall d
      ensures d in cs + [c] <==> d in cs || d == c
    {
    }
  }

  /** The tally of every column whose name contains "Result". */
  method Accuracy(f: Frame) returns (acc: Option<map<string, Counts>>)
    ensures acc.Some? ==> forall c :: c in acc.value <==> c in f.columns && Contains(c, "Result")
    ensures acc.Some? <==> forall c, i :: c in f.columns && Contains(c, "Result") && 0 <= i < |f.lines| ==>
                                      IsLabelCell(CellAt(f.lines[i], c))
    ensures acc.Some? ==> forall c :: c in acc.value ==> acc.value[c] == Tallied(ColumnValues(f.lines, c))
  {
    var table := map[];
    var j := 0;
    while j < |f.columns|
      invariant 0 <= j <= |f.columns|
      invariant Tabulated(f, f.columns[..j], table)
      invariant LabelColumns(f, f.columns[..j])
    {
      var mlType := f.columns[j];
      assert f.columns[..j + 1] == f.columns[..j] + [mlType];
      TabulatedSnoc(f, f.columns[..j], mlType, table);
      if Contains(mlType, "Result") {
        var values := ColumnValues(f.lines, mlType);
        var temp := Tally(values);
        if temp.None? {
          assert !LabelColumns(f, f.columns) by {
            var i :| 0 <= i < |values| && !IsLabelCell(values[i]);
            assert !IsLabelCell(CellAt(f.lines[i], mlType));
          }
          return None;
        }
        table := table[mlType := temp.value];
      }
      LabelColumnsSnoc(f, f.columns[..j], mlType);
      j := j + 1;
    }
    assert f.columns[..j] == f.columns;
    acc := Some(table);
  }

  // ------------------------------------------------------ conflicting duplicates

  function PmidOf(line: Line): Cell { CellAt(line, "pmid") }

  /** `df.loc[df['pmid'] == p]`: the lines carrying pmid `p`, in order. NaN
      equals nothing, so a NaN pmid has no lines. */
  function Group(lines: seq<Line>, p: Cell): seq<Line>
  {
    if |lines| == 0 then []
    else
      var last := lines[|lines| - 1];
      Group(lines[..|lines| - 1], p) + (if PmidOf(last) == p && p != Missing then [last] else [])
  }

  /** The group of `p` holds exactly the lines whose pmid is `p`. */
  lemma {:induction false} GroupMembers(lines: seq<Line>, p: Cell)
    ensures forall x :: x in Group(lines, p) <==> x in lines && PmidOf(x) == p && p != Missing
  {
    if |lines| > 0 {
      GroupMembers(lines[..|lines| - 1], p);
      assert lines == lines[..|lines| - 1] + [lines[|lines| - 1]];
    }
  }

  /** Whether two cells count as different for `row1 != row2`; NaN differs from everything. */
  predicate Differs(x: Cell, y: Cell) { x == Missing || y == Missing || x != y }

  /** The columns, in table order, on which the two lines differ. */
  function Differing(columns: seq<string>, a: Line, b: Line): seq<string>
  {
    if |columns| == 0 then []
    else
      var c := columns[|columns| - 1];
      Differing(columns[..|columns| - 1], a, b) + (if Differs(CellAt(a, c), CellAt(b, c)) then [c] else [])
  }

  lemma {:induction false} DifferingMembers(columns: seq<string>, a: Line, b: Line)
    ensures forall c :: c in Differing(columns, a, b) <==> c in columns && Differs(CellAt(a, c), CellAt(b, c))
  {
    if |columns| > 0 {
      DifferingMembers(columns[..|columns| - 1], a, b);
      assert columns == columns[..|columns| - 1] + [columns[|columns| - 1]];
    }
  }

  /** A NaN cell on either side always counts as a difference, even against NaN. */
  lemma MissingAlwaysDiffers(columns: seq<string>, a: Line, b: Line, c: string)
    requires c in columns && CellAt(a, c) == Missing
    ensures c in Differing(columns, a, b)
  {
    DifferingMembers(columns, a, b);
  }

  /** Two lines compared with themselves differ only where they hold NaN. */
  lemma SelfDiffersOnlyOnMissing(columns: seq<string>, a: Line)
    ensures forall c :: c in Differing(columns, a, a) <==> c in columns && CellAt(a, c) == Missing
  {
    DifferingMembers(columns, a, a);
  }

  /** The conflict rule: a pmid validated at least twice whose first two
      validations differ somewhere other than in the abstract alone, in the
      first header, or in the second header while the first says yes. */
  predicate DropsGroup(g: seq<Line>, columns: seq<string>, headers: seq<string>, filters: string)
    requires |headers| >= 2
  {
    |g| >= 2 &&
    var cols := Differing(columns, g[0], g[1]);
    && !("abstract" in cols && |cols| == 1)
    && filters == "main" && |cols| > 0
    && (headers[0] in cols || (headers[1] in cols && CellAt(g[0], headers[0]) == Int(1)))
  }

  /** A line is removed when it is one of the first two lines of a conflicting pmid. */
  predicate Doomed(df: Frame, line: Line, headers: seq<string>, filters: string)
    requires |headers| >= 2
  {
    var g := Group(df.lines, PmidOf(line));
    DropsGroup(g, df.columns, headers, filters) && (line == g[0] || line == g[1])
  }

  /** The lines of `lines` left once the pmids in `done` have been examined. */
  function Kept(df: Frame, lines: seq<Line>, done: set<Cell>, headers: seq<string>, filters: string): seq<Line>
    requires |headers| >= 2
  {
    if |lines| == 0 then []
    else
      var last := lines[|lines| - 1];
      Kept(df, lines[..|lines| - 1], done, headers, filters)
        + (if PmidOf(last) in done && Doomed(df, last, headers, filters) then [] else [last])
  }

  lemma {:induction false} KeptMembers(df: Frame, lines: seq<Line>, done: set<Cell>, headers: seq<string>, filters: string)
    requires |headers| >= 2
    ensures forall x :: x in Kept(df, lines, done, headers, filters) ==> x in lines
  {
    if |lines| > 0 {
      KeptMembers(df, lines[..|lines| - 1], done, headers, filters);
      assert lines == lines[..|lines| - 1] + [lines[|lines| - 1]];
    }
  }

  /** The lines of `lines` that survive `remove_different_results`, in order. */
  function Survivors(df: Frame, lines: seq<Line>, headers: seq<string>, filters: string): seq<Line>
    requires |headers| >= 2
  {
    if |lines| == 0 then []
    else
      var last := lines[|lines| - 1];
      Survivors(df, lines[..|lines| - 1], headers, filters)
        + (if Doomed(df, last, headers, filters) then [] else [last])
  }

  /** A line survives exactly when it is not one of the first two lines of a conflicting pmid. */
  lemma {:induction false} SurvivorsMembers(df: Frame, lines: seq<Line>, headers: seq<string>, filters: string)
    requires |headers| >= 2
    ensures forall x :: x in Survivors(df, lines, headers, filters) <==> x in lines && !Doomed(df, x, headers, filters)
  {
    if |lines| > 0 {
      SurvivorsMembers(df, lines[..|lines| - 1], headers, filters);
      assert lines == lines[..|lines| - 1] + [lines[|lines| - 1]];
    }
  }

  /** Only the main filter removes anything. */
  lemma {:induction false} OtherFiltersKeepAll(df: Frame, lines: seq<Line>, headers: seq<string>, filters: string)
    requires |headers| >= 2 && filters != "main"
    ensures Survivors(df, lines, headers, filters) == lines
  {
    if |lines| > 0 {
      OtherFiltersKeepAll(df, lines[..|lines| - 1], headers, filters);
      assert lines == lines[..|lines| - 1] + [lines[|lines| - 1]];
    }
  }

  /** A pmid validated once keeps its line, and so does any third validation. */
  lemma OnlyFirstTwoRemoved(df: Frame, p: Cell, k: nat, headers: seq<string>, filters: string)
    requires WellFormed(df) && |headers| >= 2
    requires k < |Group(df.lines, p)| && (|Group(df.lines, p)| == 1 || k >= 2)
    ensures Group(df.lines, p)[k] in Survivors(df, df.lines, headers, filters)
  {
    var g := Group(df.lines, p);
    GroupMembers(df.lines, p);
    assert g[k] in g;
    SurvivorsMembers(df, df.lines, headers, filters);
    GroupIndexDistinct(df.lines, p);
    assert !Doomed(df, g[k], headers, filters) by {
      if k >= 2 {
        assert g[0].index != g[k].index && g[1].index != g[k].index;
      }
    }
  }

  function DropIndices(lines: seq<Line>, ids: set<int>): seq<Line>
  {
    if |lines| == 0 then []
    else
      var last := lines[|lines| - 1];
      DropIndices(lines[..|lines| - 1], ids) + (if last.index in ids then [] else [last])
  }

  function PmidSet(df: Frame): set<Cell>
  {
    set i | 0 <= i < |df.lines| :: PmidOf(df.lines[i])
  }

  /** The pmids among `ps` whose first two validations conflict. */
  function Conflicting(df: Frame, ps: set<Cell>, headers: seq<string>, filters: string): set<Cell>
    requires |headers| >= 2
  {
    set p | p in ps && DropsGroup(Group(df.lines, p), df.columns, headers, filters)
  }

  /** Lines of a pmid not yet examined are all still there. */
  lemma {:induction false} GroupOfKept(df: Frame, lines: seq<Line>, done: set<Cell>, headers: seq<string>,
                                       filters: string, p: Cell)
    requires |headers| >= 2 && p !in done
    ensures Group(Kept(df, lines, done, headers, filters), p) == Group(lines, p)
  {
    if |lines| > 0 {
      var last := lines[|lines| - 1];
      var front := lines[..|lines| - 1];
      GroupOfKept(df, front, done, headers, filters, p);
      var k := Kept(df, front, done, headers, filters);
      if PmidOf(last) in done && Doomed(df, last, headers, filters) {
        assert Kept(df, lines, done, headers, filters) == k;
      } else {
        assert Kept(df, lines, done, headers, filters) == k + [last];
        assert (k + [last])[..|k|] == k;
      }
    }
  }

  /** Examining a pmid that does not conflict removes nothing. */
  lemma {:induction false} KeepStep(df: Frame, lines: seq<Line>, done: set<Cell>, headers: seq<string>,
                                    filters: string, p: Cell)
    requires |headers| >= 2
    requires !DropsGroup(Group(df.lines, p), df.columns, headers, filters)
    ensures Kept(df, lines, done + {p}, headers, filters) == Kept(df, lines, done, headers, filters)
  {
    if |lines| > 0 {
      KeepStep(df, lines[..|lines| - 1], done, headers, filters, p);
    }
  }

  lemma SameIndexSameLine(lines: seq<Line>, x: Line, y: Line)
    requires DistinctIndex(lines) && x in lines && y in lines && x.index == y.index
    ensures x == y
  {
    var i :| 0 <= i < |lines| && lines[i] == x;
    var j :| 0 <= j < |lines| && lines[j] == y;
  }

  /** For one line: dropping the two indices of a conflicting pmid `p` after
      the earlier pmids is the same as treating `p` as examined too. */
  lemma DropDecision(df: Frame, done: set<Cell>, headers: seq<string>, filters: string, p: Cell, x: Line)
    requires |headers| >= 2 && DistinctIndex(df.lines) && p !in done && x in df.lines
    requires DropsGroup(Group(df.lines, p), df.columns, headers, filters)
    ensures var g := Group(df.lines, p);
            (!(PmidOf(x) in done && Doomed(df, x, headers, filters)) && x.index !in {g[0].index, g[1].index})
              == !(PmidOf(x) in done + {p} && Doomed(df, x, headers, filters))
  {
    var g := Group(df.lines, p);
    GroupMembers(df.lines, p);
    assert g[0] in g && g[1] in g;
    if x.index == g[0].index { SameIndexSameLine(df.lines, x, g[0]); }
    if x.index == g[1].index { SameIndexSameLine(df.lines, x, g[1]); }
  }

  /** Examining a conflicting pmid drops exactly its first two lines. */
  lemma {:induction false} DropStep(df: Frame, lines: seq<Line>, done: set<Cell>, headers: seq<string>,
                                    filters: string, p: Cell)
    requires |headers| >= 2 && DistinctIndex(df.lines) && p !in done
    requires forall x :: x in lines ==> x in df.lines
    requires DropsGroup(Group(df.lines, p), df.columns, headers, filters)
    ensures var g := Group(df.lines, p);
            DropIndices(Kept(df, lines, done, headers, filters), {g[0].index, g[1].index})
              == Kept(df, lines, done + {p}, headers, filters)
  {
    var g := Group(df.lines, p);
    var ids := {g[0].index, g[1].index};
    if |lines| > 0 {
      var last := lines[|lines| - 1];
      var front := lines[..|lines| - 1];
      assert last in lines;
      DropStep(df, front, done, headers, filters, p);
      DropDecision(df, done, headers, filters, p, last);
      var k := Kept(df, front, done, headers, filters);
      if PmidOf(last) in done && Doomed(df, last, headers, filters) {
        assert Kept(df, lines, done, headers, filters) == k;
      } else {
        assert Kept(df, lines, done, headers, filters) == k + [last];
        assert (k + [last])[..|k|] == k;
      }
    }
  }

  /** Once every pmid is examined, the kept lines are the survivors. */
  lemma {:induction false} KeptAll(df: Frame, lines: seq<Line>, headers: seq<string>, filters: string)
    requires |headers| >= 2
    requires forall x :: x in lines ==> x in df.lines
    ensures Kept(df, lines, PmidSet(df), headers, filters) == Survivors(df, lines, headers, filters)
  {
    if |lines| > 0 {
      var last := lines[|lines| - 1];
      assert last in lines;
      KeptAll(df, lines[..|lines| - 1], headers, filters);
      var i :| 0 <= i < |df.lines| && df.lines[i] == last;
      assert PmidOf(last) in PmidSet(df);
    }
  }

  function IndicesOf(lines: seq<Line>): set<int>
  {
    if |lines| == 0 then {} else IndicesOf(lines[..|lines| - 1]) + {lines[|lines| - 1].index}
  }

  lemma {:induction false} IndexOfMember(lines: seq<Line>, x: Line)
    requires x in lines
    ensures x.index in IndicesOf(lines)
  {
    var last := lines[|lines| - 1];
    if x != last {
      assert lines == lines[..|lines| - 1] + [last];
      IndexOfMember(lines[..|lines| - 1], x);
    }
  }

  lemma {:induction false} IndexNotIn(lines: seq<Line>, id: int)
    requires forall k :: 0 <= k < |lines| ==> lines[k].index != id
    ensures id !in IndicesOf(lines)
  {
    if |lines| > 0 {
      IndexNotIn(lines[..|lines| - 1], id);
    }
  }

  /** Dropping indices removes one line per index present. */
  lemma {:induction false} DropIndicesSize(lines: seq<Line>, ids: set<int>)
    requires DistinctIndex(lines)
    ensures |DropIndices(lines, ids)| + |IndicesOf(lines) * ids| == |lines|
  {
    if |lines| > 0 {
      var last := lines[|lines| - 1];
      var front := lines[..|lines| - 1];
      DropIndicesSize(front, ids);
      IndexNotIn(front, last.index);
      if last.index in ids {
        assert IndicesOf(lines) * ids == (IndicesOf(front) * ids) + {last.index};
      } else {
        assert IndicesOf(lines) * ids == IndicesOf(front) * ids;
      }
    }
  }

  /** Appending the last line of `lines` to lines taken from the others keeps indices distinct. */
  lemma AppendLast(k: seq<Line>, lines: seq<Line>)
    requires |lines| > 0 && DistinctIndex(lines) && DistinctIndex(k)
    requires forall x :: x in k ==> x in lines[..|lines| - 1]
    ensures DistinctIndex(k + [lines[|lines| - 1]])
  {
    var last := lines[|lines| - 1];
    forall x | x in k ensures x.index != last.index {
      var i :| 0 <= i < |lines| - 1 && lines[..|lines| - 1][i] == x;
      assert lines[i] == x;
    }
    forall i, j | 0 <= i < j < |k| + 1 ensures (k + [last])[i].index != (k + [last])[j].index {
      if j == |k| {
        assert (k + [last])[i] == k[i] && k[i] in k;
      }
    }
  }

  lemma {:induction false} KeptIsWellFormed(df: Frame, lines: seq<Line>, done: set<Cell>, headers: seq<string>, filters: string)
    requires |headers| >= 2 && DistinctIndex(lines)
    ensures DistinctIndex(Kept(df, lines, done, headers, filters))
  {
    if |lines| > 0 {
      var front := lines[..|lines| - 1];
      KeptIsWellFormed(df, front, done, headers, filters);
      KeptMembers(df, front, done, headers, filters);
      var k := Kept(df, front, done, headers, filters);
      if !(PmidOf(lines[|lines| - 1]) in done && Doomed(df, lines[|lines| - 1], headers, filters)) {
        AppendLast(k, lines);
      }
    }
  }

  lemma {:induction false} GroupIndexDistinct(lines: seq<Line>, p: Cell)
    requires DistinctIndex(lines)
    ensures DistinctIndex(Group(lines, p))
  {
    if |lines| > 0 {
      var front := lines[..|lines| - 1];
      GroupIndexDistinct(front, p);
      GroupMembers(front, p);
      var g := Group(front, p);
      if PmidOf(lines[|lines| - 1]) == p && p != Missing {
        AppendLast(g, lines);
      }
    }
  }

  /** The bookkeeping of the pmid loop after the pmids in `done`. */
  ghost predicate Examined(df: Frame, r: Frame, done: set<Cell>, count: nat, headers: seq<string>, filters: string)
    requires |headers| >= 2
  {
    && r == Frame(df.columns, Kept(df, df.lines, done, headers, filters))
    && count == |Conflicting(df, done, headers, filters)|
    && |r.lines| + 2 * count == |df.lines|
  }

  /** `remove_different_results`: for every pmid whose first two
      validations conflict, both lines are removed; `dropped` is the
      number of lines removed, as reported. The order in which the pmids
      are examined does not matter. */
  method RemoveDifferentResults(df: Frame, headers: seq<string>, filters: string) returns (r: Frame, dropped: nat)
    requires WellFormed(df) && |headers| >= 2 && headers[0] in df.columns
    ensures r.columns == df.columns
    ensures r.lines == Survivors(df, df.lines, headers, filters)
    ensures dropped == 2 * |Conflicting(df, PmidSet(df), headers, filters)|
    ensures |r.lines| + dropped == |df.lines|
  {
    var pmids := PmidSet(df);
    var count := 0;
    r := df;
    var pending := pmids;
    ghost var done: set<Cell> := {};
    NoneExamined(df, headers, filters);
    while pending != {}
      invariant pending + done == pmids && pending !! done
      invariant Examined(df, r, done, count, headers, filters)
      decreases pending
    {
      var pmid :| pmid in pending;
      r, count := ExaminePmid(df, r, done, count, headers, filters, pmid);
      MoveOne(pending, done, pmids, pmid);
      pending := pending - {pmid};
      done := done + {pmid};
    }
    dropped := count * 2;
    AllExamined(df, r, done, count, headers, filters);
  }

  /** Moving one pmid from pending to done keeps the two a partition. */
  lemma MoveOne(pending: set<Cell>, done: set<Cell>, all: set<Cell>, x: Cell)
    requires pending + done == all && pending !! done && x in pending
    ensures (pending - {x}) + (done + {x}) == all && (pending - {x}) !! (done + {x})
    ensures pending - {x} < pending
  {
  }

  lemma NoneExamined(df: Frame, headers: seq<string>, filters: string)
    requires |headers| >= 2
    ensures Examined(df, df, {}, 0, headers, filters)
  {
    KeptNone(df, df.lines, headers, filters);
    assert Conflicting(df, {}, headers, filters) == {};
  }

  lemma AllExamined(df: Frame, r: Frame, done: set<Cell>, count: nat, headers: seq<string>, filters: string)
    requires |headers| >= 2 && done == PmidSet(df)
    requires Examined(df, r, done, count, headers, filters)
    ensures r.columns == df.columns
    ensures r.lines == Survivors(df, df.lines, headers, filters)
    ensures count == |Conflicting(df, PmidSet(df), headers, filters)|
    ensures |r.lines| + 2 * count == |df.lines|
  {
    KeptAll(df, df.lines, headers, filters);
  }

  lemma {:induction false} KeptNone(df: Frame, lines: seq<Line>, headers: seq<string>, filters: string)
    requires |headers| >= 2
    ensures Kept(df, lines, {}, headers, filters) == lines
  {
    if |lines| > 0 {
      KeptNone(df, lines[..|lines| - 1], headers, filters);
    }
  }

  /** One pmid: look at its first two lines and drop both on a conflict. */
  method ExaminePmid(df: Frame, r0: Frame, ghost done: set<Cell>, count0: nat, headers: seq<string>,
                     filters: string, pmid: Cell)
    returns (r: Frame, count: nat)
    requires WellFormed(df) && |headers| >= 2 && pmid !in done
    requires Examined(df, r0, done, count0, headers, filters)
    ensures Examined(df, r, done + {pmid}, count, headers, filters)
  {
    r, count := r0, count0;
    var tempDf := Group(r.lines, pmid);
    GroupOfKept(df, df.lines, done, headers, filters, pmid);
    var drops := false;
    if |tempDf| >= 2 {
      var row1, row2 := tempDf[0], tempDf[1];
      var cols := Differing(r.columns, row1, row2);
      if "abstract" in cols && |cols| == 1 {
      } else if filters == "main" && |cols| > 0 {
        if headers[0] in cols || (headers[1] in cols && CellAt(row1, headers[0]) == Int(1)) {
          drops := true;
        }
      }
    }
    if drops {
      DropConflict(df, r0, done, count0, headers, filters, pmid);
      r := Frame(r.columns, DropIndices(r.lines, {tempDf[0].index, tempDf[1].index}));
      count := count + 1;
    } else {
      KeepConflict(df, r0, done, count0, headers, filters, pmid);
    }
  }

  lemma KeepConflict(df: Frame, r0: Frame, done: set<Cell>, count0: nat, headers: seq<string>,
                     filters: string, pmid: Cell)
    requires |headers| >= 2 && pmid !in done
    requires Examined(df, r0, done, count0, headers, filters)
    requires !DropsGroup(Group(df.lines, pmid), df.columns, headers, filters)
    ensures Examined(df, r0, done + {pmid}, count0, headers, filters)
  {
    KeepStep(df, df.lines, done, headers, filters, pmid);
    assert Conflicting(df, done + {pmid}, headers, filters) == Conflicting(df, done, headers, filters);
  }

  lemma ConflictingAdd(df: Frame, done: set<Cell>, headers: seq<string>, filters: string, p: Cell)
    requires |headers| >= 2 && p !in done
    requires DropsGroup(Group(df.lines, p), df.columns, headers, filters)
    ensures |Conflicting(df, done + {p}, headers, filters)| == |Conflicting(df, done, headers, filters)| + 1
  {
    assert Conflicting(df, done + {p}, headers, filters) == Conflicting(df, done, headers, filters) + {p};
  }

  /** Dropping the indices of two different lines removes two lines. */
  lemma DropTwo(lines: seq<Line>, x: Line, y: Line)
    requires DistinctIndex(lines) && x in lines && y in lines && x.index != y.index
    ensures |DropIndices(lines, {x.index, y.index})| + 2 == |lines|
  {
    DropIndicesSize(lines, {x.index, y.index});
    IndexOfMember(lines, x);
    IndexOfMember(lines, y);
    assert IndicesOf(lines) * {x.index, y.index} == {x.index, y.index};
  }

  lemma DropConflict(df: Frame, r0: Frame, done: set<Cell>, count0: nat, headers: seq<string>,
                     filters: string, pmid: Cell)
    requires WellFormed(df) && |headers| >= 2 && pmid !in done
    requires Examined(df, r0, done, count0, headers, filters)
    requires DropsGroup(Group(df.lines, pmid), df.columns, headers, filters)
    ensures var g := Group(df.lines, pmid);
            Examined(df, Frame(r0.columns, DropIndices(r0.lines, {g[0].index, g[1].index})),
                     done + {pmid}, count0 + 1, headers, filters)
  {
    var g := Group(df.lines, pmid);
    DropStep(df, df.lines, done, headers, filters, pmid);
    ConflictingAdd(df, done, headers, filters, pmid);
    GroupOfKept(df, df.lines, done, headers, filters, pmid);
    GroupMembers(r0.lines, pmid);
    assert g[0] in g && g[1] in g;
    GroupIndexDistinct(df.lines, pmid);
    KeptIsWellFormed(df, df.lines, done, headers, filters);
    DropTwo(r0.lines, g[0], g[1]);
  }

  // ------------------------------------------------------------ corrections

  /** One manual correction: `df.at[index, column] = value`. */
  datatype Write = Write(index: int, column: string, value: Cell)

  /** `headers[k]` with Python's negative indices. */
  function HeaderAt(headers: seq<string>, k: int): string
    requires -|headers| <= k < |headers|
  {
    if k < 0 then headers[|headers| + k] else headers[k]
  }

  /** The position of the first line with index `index`, if any. */
  function Position(lines: seq<Line>, index: int): (r: Option<nat>)
    ensures r.Some? ==> r.value < |lines| && lines[r.value].index == index
    ensures r.Some? ==> forall k :: 0 <= k < r.value ==> lines[k].index != index
    ensures r.None? ==> forall k :: 0 <= k < |lines| ==> lines[k].index != index
  {
    if |lines| == 0 then None
    else if lines[0].index == index then Some(0)
    else match Position(lines[1..], index)
      case None => None
      case Some(k) => Some(k + 1)
  }

  /** `df.at[index, column] = value`, which adds the column and the line
      when they are missing; the new cells elsewhere are NaN. */
  function SetCell(f: Frame, w: Write): (r: Frame)
    ensures |r.lines| >= |f.lines|
    ensures forall k :: 0 <= k < |f.lines| ==> r.lines[k].index == f.lines[k].index
    ensures |f.columns| <= |r.columns| && r.columns[..|f.columns|] == f.columns && w.column in r.columns
  {
    var columns := if w.column in f.columns then f.columns else f.columns + [w.column];
    match Position(f.lines, w.index)
    case Some(k) =>
      Frame(columns, f.lines[k := Line(w.index, f.lines[k].cells[w.column := w.value])])
    case None =>
      Frame(columns, f.lines + [Line(w.index, map[w.column := w.value])])
  }

  /** The corrections applied in order. */
  function ApplyWrites(f: Frame, ws: seq<Write>): (r: Frame)
    ensures |r.lines| >= |f.lines|
    ensures forall k :: 0 <= k < |f.lines| ==> r.lines[k].index == f.lines[k].index
    ensures |f.columns| <= |r.columns| && r.columns[..|f.columns|] == f.columns
  {
    if |ws| == 0 then f else SetCell(ApplyWrites(f, ws[..|ws| - 1]), ws[|ws| - 1])
  }

  /** What `df.at[index, column]` reads: nothing when there is no such line. */
  function Lookup(f: Frame, index: int, c: string): Option<Cell>
  {
    match Position(f.lines, index)
    case Some(k) => Some(CellAt(f.lines[k], c))
    case None => None
  }

  /** The value of the last correction of cell (`index`, `c`), if any. */
  function LastWrite(ws: seq<Write>, index: int, c: string): Option<Cell>
  {
    if |ws| == 0 then None
    else if ws[|ws| - 1].index == index && ws[|ws| - 1].column == c then Some(ws[|ws| - 1].value)
    else LastWrite(ws[..|ws| - 1], index, c)
  }

  /** One correction changes its own cell, makes its line exist, and leaves
      every other cell as it was. */
  lemma SetCellLookup(f: Frame, w: Write, index: int, c: string)
    ensures Lookup(SetCell(f, w), index, c) ==
              if w.index == index && w.column == c then Some(w.value)
              else if w.index == index && Lookup(f, index, c).None? then Some(Missing)
              else Lookup(f, index, c)
  {
    match Position(f.lines, w.index)
    case Some(k) =>
      if w.index != index {
        assert Position(SetCell(f, w).lines, index) == Position(f.lines, index) by {
          PositionAfterUpdate(f.lines, k, Line(w.index, f.lines[k].cells[w.column := w.value]), index);
        }
      }
    case None =>
      PositionAfterAppend(f.lines, Line(w.index, map[w.column := w.value]), index);
  }

  lemma {:induction false} PositionAfterUpdate(lines: seq<Line>, k: nat, x: Line, index: int)
    requires k < |lines| && x.index == lines[k].index && index != x.index
    ensures Position(lines[k := x], index) == Position(lines, index)
  {
    if k > 0 {
      assert lines[k := x][1..] == lines[1..][k - 1 := x];
      PositionAfterUpdate(lines[1..], k - 1, x, index);
    }
  }

  lemma {:induction false} PositionAfterAppend(lines: seq<Line>, x: Line, index: int)
    requires forall k :: 0 <= k < |lines| ==> lines[k].index != x.index
    ensures Position(lines + [x], index) ==
              if index == x.index then Some(|lines|) else Position(lines, index)
  {
    if |lines| > 0 {
      assert (lines + [x])[1..] == lines[1..] + [x];
      PositionAfterAppend(lines[1..], x, index);
    } else {
      assert lines + [x] == [x];
    }
  }

  /** A cell of an existing line that no correction names is unchanged. */
  lemma {:induction false} UncorrectedCellKept(f: Frame, ws: seq<Write>, index: int, c: string)
    requires Lookup(f, index, c).Some? && LastWrite(ws, index, c).None?
    ensures Lookup(ApplyWrites(f, ws), index, c) == Lookup(f, index, c)
  {
    if |ws| > 0 {
      UncorrectedCellKept(f, ws[..|ws| - 1], index, c);
      SetCellLookup(ApplyWrites(f, ws[..|ws| - 1]), ws[|ws| - 1], index, c);
    }
  }

  /** A corrected cell holds the value of its last correction. */
  lemma {:induction false} CorrectedCellSet(f: Frame, ws: seq<Write>, index: int, c: string)
    requires LastWrite(ws, index, c).Some?
    ensures Lookup(ApplyWrites(f, ws), index, c) == LastWrite(ws, index, c)
  {
    var w := ws[|ws| - 1];
    SetCellLookup(ApplyWrites(f, ws[..|ws| - 1]), w, index, c);
    if !(w.index == index && w.column == c) {
      CorrectedCellSet(f, ws[..|ws| - 1], index, c);
    }
  }

  /** Every header position of `entries` names a header. */
  predicate EntriesInRange(entries: seq<(int, Cell)>, headers: seq<string>)
  {
    forall k :: 0 <= k < |entries| ==> -|headers| <= entries[k].0 < |headers|
  }

  function RowWrites(row: int, entries: seq<(int, Cell)>, headers: seq<string>): (r: seq<Write>)
    requires EntriesInRange(entries, headers)
    ensures |r| == |entries|
    ensures forall k :: 0 <= k < |entries| ==> r[k] == Write(row, HeaderAt(headers, entries[k].0), entries[k].1)
  {
    if |entries| == 0 then []
    else RowWrites(row, entries[..|entries| - 1], headers)
           + [Write(row, HeaderAt(headers, entries[|entries| - 1].0), entries[|entries| - 1].1)]
  }

  predicate IndicesInRange(corrections: seq<(int, seq<(int, Cell)>)>, headers: seq<string>)
  {
    forall k :: 0 <= k < |corrections| ==> EntriesInRange(corrections[k].1, headers)
  }

  /** All corrections of a validation sheet, line by line. */
  function Writes(corrections: seq<(int, seq<(int, Cell)>)>, headers: seq<string>): seq<Write>
    requires IndicesInRange(corrections, headers)
  {
    if |corrections| == 0 then []
    else
      var last := corrections[|corrections| - 1];
      Writes(corrections[..|corrections| - 1], headers) + RowWrites(last.0, last.1, headers)
  }

  /** `correct_weird_results`: every listed cell of the sheet named by the
      first term is set, in order; an unknown sheet or an out-of-range header
      index is an error of the caller. */
  method CorrectWeirdResults(df: Frame, dfType: seq<string>, headers: seq<string>,
                             corrections: map<string, seq<(int, seq<(int, Cell)>)>>)
    returns (r: Frame)
    requires |dfType| > 0 && dfType[0] in corrections
    requires IndicesInRange(corrections[dfType[0]], headers)
    ensures r == ApplyWrites(df, Writes(corrections[dfType[0]], headers))
  {
    var sheet := corrections[dfType[0]];
    r := df;
    var i := 0;
    while i < |sheet|
      invariant 0 <= i <= |sheet|
      invariant r == ApplyWrites(df, Writes(sheet[..i], headers))
    {
      assert sheet[..i + 1][..i] == sheet[..i];
      ApplyWritesAppend(df, Writes(sheet[..i], headers), RowWrites(sheet[i].0, sheet[i].1, headers));
      r := CorrectRow(r, sheet[i].0, sheet[i].1, headers);
      i := i + 1;
    }
    assert sheet[..i] == sheet;
  }

  lemma RowWritesSnoc(row: int, entries: seq<(int, Cell)>, headers: seq<string>, j: nat)
    requires EntriesInRange(entries, headers) && j < |entries|
    ensures RowWrites(row, entries[..j + 1], headers)
              == RowWrites(row, entries[..j], headers) + [Write(row, HeaderAt(headers, entries[j].0), entries[j].1)]
  {
    assert entries[..j + 1][..j] == entries[..j];
  }

  lemma ApplyWritesSnoc(f: Frame, ws: seq<Write>, w: Write)
    ensures ApplyWrites(f, ws + [w]) == SetCell(ApplyWrites(f, ws), w)
  {
    assert (ws + [w])[..|ws|] == ws;
  }

  /** Applying two lists of writes in turn is applying their concatenation. */
  lemma {:induction false} ApplyWritesAppend(f: Frame, a: seq<Write>, b: seq<Write>)
    ensures ApplyWrites(f, a + b) == ApplyWrites(ApplyWrites(f, a), b)
    decreases |b|
  {
    if |b| == 0 {
      assert a + b == a;
    } else {
      var n := |b| - 1;
      ApplyWritesAppend(f, a, b[..n]);
      SplitLast(b);
      assert a + b == (a + b[..n]) + [b[n]];
      ApplyWritesSnoc(f, a + b[..n], b[n]);
      ApplyWritesSnoc(ApplyWrites(f, a), b[..n], b[n]);
    }
  }

  /** The inner loop of `correct_weird_results`: the corrections of one line, applied in order. */
  method CorrectRow(r0: Frame, row: int, entries: seq<(int, Cell)>, headers: seq<string>) returns (r: Frame)
    requires EntriesInRange(entries, headers)
    ensures r == ApplyWrites(r0, RowWrites(row, entries, headers))
  {
    r := r0;
    var j := 0;
    while j < |entries|
      invariant 0 <= j <= |entries|
      invariant r == ApplyWrites(r0, RowWrites(row, entries[..j], headers))
    {
      var header := HeaderAt(headers, entries[j].0);
      var value := entries[j].1;
      var w := Write(row, header, value);
      RowWritesSnoc(row, entries, headers, j);
      ApplyWritesSnoc(r0, RowWrites(row, entries[..j], headers), w);
      r := SetCell(r, w);
      j := j + 1;
    }
    assert entries[..j] == entries;
  }
}
