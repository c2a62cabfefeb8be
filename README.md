# CARD-shark scoring engine, validation bookkeeping and PubMed text rules in Dafny

CARD-shark is a literature classifier. It decides whether PubMed abstracts
report new antimicrobial resistance genes. This project models three parts
of it in Dafny and proves what each promises.

- **Scoring engine** (`card_shark_functions.py`).
  - `wordFrequency` builds two frequency tables from a labelled corpus: lower-cased words and journals.
  - `matrixMaker` builds the single-word scoring matrix from two frequency tables.
  - `doubleMatrixMaker` builds the word-pair matrix from sentence-level co-occurrences.
  - `bluePill` scores query abstracts and labels each one against a median cutoff.
- **Validation bookkeeping** (`validation_distribution/validation_visualization.py`).
  - Coding hand-validated answers through `TERMS`.
  - Labelling model predictions TP / TN / FP / FN against the two validators.
  - Tallying those labels.
  - Dropping conflicting duplicate validations.
  - Applying manual cell corrections.
- **Paper download rules** (`paper_download/pull_papers.py`).
  - The text clean-up of `process_text`.
  - The per-record triage of `get_paper_info`.
  - The column projection of `get_pubmed_df`.

Modules, one per concern:

| file | module | contents |
|---|---|---|
| `collections.dfy` | `Collections` | `Count` and first-appearance order (the key order of a Python dict), `MapSeq`, `Option` |
| `strings.dfy` | `Strings` | ASCII `lower()`, Python's string order, `sep.join`, `s.split(sep)` and `s.split()` |
| `scan.dfy` | `Scan` | scanners for the three regular expressions the engine uses: `\b(\w+)`, `[\w][\w']*\w`, and the locus-tag pattern |
| `frequency.dfy` | `Frequency` | `wordFrequency` |
| `matrix.dfy` | `Matrix` | `matrixMaker`, the pair generators `assembly_1` / `assembly_2`, `doubleMatrixMaker` |
| `pair_symmetry.dfy` | `PairSymmetry` | why every co-occurrence of two different words is counted twice under its key |
| `scoring.dfy` | `Scoring` | `bluePill` up to its predictions list |
| `validation.dfy` | `Validation` | the validation bookkeeping |
| `papers.dfy` | `Papers` | `process_text`, the record triage, `get_pubmed_df` |

How the Python is represented:

- **Loops.** The loops that build dictionaries in place (`words`, `journals`, `matrix`, `doubleMatrix`, `scores`, the result columns, the tally, the row drops, the cell writes, the triage buckets) are Dafny methods. Each has loop invariants and is proved against a recursive specification function.
- **Generators.** An `assembly_*` generator is a method returning the sequence of pairs it yields.
- **Floats.** Python floats are exact `real`s.
- **Tables.** A pandas table is a `Frame`: its column names and its lines, each line an index label and a map from column name to `Cell`.
- **Missing cells.** A missing cell is NaN (`Missing`), which compares unequal to everything.
- **Dictionary order.** A dictionary whose iteration order matters is a map paired with the sequence of its keys in insertion order.

Where the code and its prose description disagree, the model follows the code:

- **Term bonus.** The bonus is given for an exact lower-case token key, not a substring. So "characterization" earns nothing, and "Characteriz" earns 3 (`Scoring.TermBonusIsExact`).
- **Locus tag.** A tag is three letters, an optional fourth, a hyphen and one to three digits. "X-12" is not a tag (`Scan.ShortPrefixIsNoLocus`).
- **Word frequencies.** These are counts divided by the number of abstracts. They can exceed 1 (`Frequency.FrequencyCanExceedOne`).
- **Stop-word exclusion.** In `wordFrequency` and the pair generators, exclusion tests the token's original casing. Lowering happens only after it (`Frequency.ExclusionIsCaseSensitive`). Two spellings of one word in a sentence produce the self-pair key `gene|gene` (`Matrix.CasingGivesSelfPair`).
- **Record triage order.** `dict(None)` raises. So a record whose journal issue has no publication date is an "other error" before any check runs, even when it also lacks a pmid (`Papers.MissingDateComesFirst`).
- **The empty-article branch.** It can never decide anything, because an empty article has no date (`Papers.EmptyArticleFailsFirst`).

## Model

| member | source | states |
|---|---|---|
| Collections.FirstAppearance | card_shark_functions.py:184 | the iteration order of a dictionary keyed by a sequence of ids: duplicate-free, holding exactly the ids of the sequence |
| Collections.FirstAppearanceSnoc | card_shark_functions.py:126 | assigning a key extends the key order only when the key is new |
| Collections.CountAppend | card_shark_functions.py:38-42 | occurrence counts add up over concatenation |
| Strings.Lower | card_shark_functions.py:39-42 | `str.lower()` on ASCII: same length, no upper-case letter left, other characters unchanged |
| Strings.LowerIdempotent | card_shark_functions.py:85 | lower-casing an already lowered key changes nothing |
| Strings.LessEqTotal | card_shark_functions.py:84 | Python's string order is total, so `sorted` of two words is well defined |
| Strings.LessEqAntisymmetric | card_shark_functions.py:84 | two strings each at most the other are equal |
| Strings.SplitOn | card_shark_functions.py:75 | `abstract.split(". ")` yields at least one piece, the pieces rejoin to the abstract, and no piece contains the separator |
| Strings.Fields | paper_download/pull_papers.py:33-34 | `split()` yields only non-empty words without whitespace |
| Strings.FieldsOfJoin | paper_download/pull_papers.py:39 | splitting space-joined non-empty, space-free words gives the words back |
| Scan.WordRuns | card_shark_functions.py:77 | `\b(\w+)` yields non-empty runs of word characters |
| Scan.Tokens | card_shark_functions.py:33-35 | every `[\w][\w']*\w` match has at least two characters, starts and ends with a word character, and otherwise holds word characters or quotes |
| Scan.LocusMatch | card_shark_functions.py:128-129 | a locus-tag match is absent or at least five characters long and starts with three letters |
| Scan.LocusCount | card_shark_functions.py:128-129 | non-overlapping matches: at most one per five characters |
| Scan.ShortPrefixIsNoLocus | card_shark_functions.py:129 | "X-12" holds no locus tag |
| Scan.ThreeLetterLocus | card_shark_functions.py:129 | three letters, a hyphen and a digit form a tag |
| Scan.FourLetterLocus | card_shark_functions.py:129 | the optional fourth letter and up to three digits are consumed |
| Scan.LocusAfterBacktrack | card_shark_functions.py:129 | the search is unanchored: "ABCDE-1" has no match at its first letter, the scan moves on one character and finds the four-letter tag "BCDE-1", so the text holds exactly one tag |
| Scan.TokensOfTwoWords | card_shark_functions.py:33-35 | two tokens separated by a space are found as exactly those two tokens |
| Scan.WordRunsOfTwoWords | card_shark_functions.py:77 | two word runs separated by a space are found as exactly those two runs |
| Frequency.WordFrequency | card_shark_functions.py:10-49 | words: exactly the lower-case forms of kept tokens, each valued at its count over the number of rows; journals: exactly the journals of the rows, each valued at ten times its share of the rows, in (0,10]; the abstract list is the selected text of every row in row order; all word keys are lower-case |
| Frequency.CountRows | card_shark_functions.py:16-42 | the row loop leaves raw word counts of the kept tokens and raw journal counts, with one abstract per row and the row count |
| Frequency.CountJournal | card_shark_functions.py:28-31 | one journal more is counted once more, a new journal starting at 1 |
| Frequency.CountWords | card_shark_functions.py:38-42 | after one row's tokens, each lower-case form is counted once per token lowering to it |
| Frequency.NormalizeWords | card_shark_functions.py:44-45 | every word count becomes its count divided by the number of rows, keys unchanged |
| Frequency.NormalizeJournals | card_shark_functions.py:46-47 | every journal count becomes ten times its count over the number of rows, keys unchanged |
| Frequency.KeptWordsCount | card_shark_functions.py:34-35 | an excluded token is never kept; every other token is kept exactly as often as it occurs |
| Frequency.LowerSetCount | card_shark_functions.py:39-42 | a word is a key exactly when some token lowers to it |
| Frequency.JournalSharesSumToTen | card_shark_functions.py:46-47 | for a non-empty corpus the journal values sum to 10 |
| Frequency.TitlesAreIgnored | card_shark_functions.py:22-36 | rows differing only in their titles give the same words, journals and abstract list |
| Frequency.FrequencyCanExceedOne | card_shark_functions.py:38-45 | a word written twice in a one-abstract corpus is counted twice, frequency 2 |
| Frequency.ExclusionIsCaseSensitive | card_shark_functions.py:34-42 | an excluded capitalised spelling does not exclude the lower-case spelling, which is still counted |
| Matrix.KeepAtLeast | card_shark_functions.py:61 | the filter keeps exactly the entries whose value is at least the bound, the bound included, with their values |
| Matrix.KeepAtLeastIdempotent | card_shark_functions.py:60-63 | filtering the filtered matrix again changes nothing |
| Matrix.DifferenceAntisymmetric | card_shark_functions.py:56-58 | swapping the two tables keeps the key set and negates every value |
| Matrix.MatrixMaker | card_shark_functions.py:53-65 | keys are exactly the words of both tables (those passing the 0.05 bound when filtering), valued at card minus ncbi; unfiltered it is the plain difference, filtered it is that difference filtered |
| Matrix.PairKeySymmetric | card_shark_functions.py:84-85 | a pair and its mirror image share a key |
| Matrix.BarJoinInjective | card_shark_functions.py:85 | joining words that hold no bar with "\|" is one-to-one |
| Matrix.EmitInner | card_shark_functions.py:80-82 | the inner generator loop yields `thing` paired with every non-excluded word differing from it, in order |
| Matrix.EmitSentence | card_shark_functions.py:77-82 | the sentence loop yields the pairs of every non-excluded word with its sentence |
| Matrix.EmitText | card_shark_functions.py:75-82 | the abstract loop yields the pairs of each of its sentences in order |
| Matrix.EmitPairs | card_shark_functions.py:72-82 | the generator yields the pairs of every abstract in order |
| Matrix.CountPositive | card_shark_functions.py:83-89 | after the positive pass each emitted key holds its emission count over the number of positive abstracts |
| Matrix.CountKey | card_shark_functions.py:86-89 | one more emission raises a key's rate by one abstract's share, a new key starting at it |
| Matrix.SubtractNegative | card_shark_functions.py:104-110 | the negative pass lowers each existing key by its negative rate and creates no key |
| Matrix.SubtractKey | card_shark_functions.py:107-110 | one negative emission lowers an existing key by one share and ignores a missing key |
| Matrix.DoubleMatrixMaker | card_shark_functions.py:69-112 | keys are exactly the keys the positive corpus emits; each value is positive rate minus negative rate; with no negative abstracts it is the positive rate |
| Matrix.CasingGivesSelfPair | card_shark_functions.py:81-85 | two spellings of one word emit the self-pair key `w\|w` twice |
| PairSymmetry.RowsColumns | card_shark_functions.py:78-82 | the double loop sums the same grid of emissions by rows as by columns |
| PairSymmetry.ByColumnsTranspose | card_shark_functions.py:78-82 | summing a grid by columns is summing its transpose by rows |
| PairSymmetry.SentenceCount | card_shark_functions.py:78-82 | a sentence emits a pair once per pair of positions that yields it |
| PairSymmetry.SentenceMirror | card_shark_functions.py:77-82 | within a sentence a pair and its mirror are emitted equally often |
| PairSymmetry.TextMirror | card_shark_functions.py:75-82 | within an abstract a pair and its mirror are emitted equally often |
| PairSymmetry.CorpusMirror | card_shark_functions.py:72-82 | over a corpus a pair and its mirror are emitted equally often |
| PairSymmetry.CorpusPlain | card_shark_functions.py:77-82 | every emitted word is a lower-case run of word characters |
| PairSymmetry.SameKey | card_shark_functions.py:84-85 | two emitted pairs share a key exactly when they are equal or mirror images |
| PairSymmetry.KeyCount | card_shark_functions.py:84-89 | the count under the key of two different words is the count of the pair plus the count of its mirror |
| PairSymmetry.DistinctPairCountedTwice | card_shark_functions.py:72-89 | every co-occurrence of two different words is counted twice under its key |
| Scoring.ScoreRow | card_shark_functions.py:119-168 | the score of one row is the sum of its locus tags, word-matrix values, term bonuses, journal bonus once, and a quarter of every emitted pair value above 1 |
| Scoring.AddWords | card_shark_functions.py:144-148 | the token loop adds each token's matrix value and exact term bonus |
| Scoring.AddPairs | card_shark_functions.py:163-168 | the pair loop adds a quarter of each emitted key's value exceeding 1 and nothing for other keys |
| Scoring.LastValueWins | card_shark_functions.py:126 | the value a dictionary keeps for a key is the value assigned last |
| Scoring.LastRowWins | card_shark_functions.py:126 | a repeated pmid resets its score: the kept score is that of the last row carrying it |
| Scoring.ScoreRowsStep | card_shark_functions.py:119-126 | one row updates only its own pmid's score |
| Scoring.ScoreRows | card_shark_functions.py:117-168 | the scores dictionary has its pmids in first-appearance order, each scored by its last row |
| Scoring.Insert | card_shark_functions.py:175 | inserting into a sorted list keeps it sorted and adds exactly the one element |
| Scoring.SortScores | card_shark_functions.py:175 | the median's sort is sorted and a permutation of the scores |
| Scoring.MedianInRange | card_shark_functions.py:175 | the median lies between the smallest and the largest score |
| Scoring.Cutoff | card_shark_functions.py:172-182 | the cutoff is 10 without scores; otherwise the median, raised to exactly 10 when it lies in (0,10]; so it is never in (0,10) |
| Scoring.Predictions | card_shark_functions.py:184 | one 0/1 entry per id, 1 exactly when its score reaches the cutoff |
| Scoring.OrderScored | card_shark_functions.py:184 | every pmid in the key order has a score |
| Scoring.BluePill | card_shark_functions.py:116-184 | one 0/1 prediction per distinct pmid in first-appearance order, 1 exactly when the last score of that pmid reaches the median cutoff of all the scores |
| Scoring.LowMedianRaised | card_shark_functions.py:181-182 | a median of 3 becomes the cutoff 10 |
| Scoring.NonPositiveMedianKept | card_shark_functions.py:179-182 | a negative median is kept as the cutoff |
| Scoring.TermBonusIsExact | card_shark_functions.py:135-148 | the term bonus needs the exact lower-case key: "characterization" gets nothing, "Characteriz" gets 3 |
| Validation.Code | validation_distribution/validation_visualization.py:166-179 | a string listed in the answer table gets its 0/1 value; any other cell, numbers and NaN included, is coded 2 |
| Validation.TermsAreBinary | validation_distribution/validation_visualization.py:166-179 | every listed answer means 0 or 1 |
| Validation.CodingExamples | validation_distribution/validation_visualization.py:166-179 | the coding is exact: "Yes" and "No " are coded, "yes", "  No", the number 1 and NaN are unknown |
| Validation.CodeColumn | validation_distribution/validation_visualization.py:27 | coding a column replaces every cell of it by its code, lines and other cells unchanged |
| Validation.CodeHeaders | validation_distribution/validation_visualization.py:26-27 | after coding, a header cell holds the TERMS code of its original value (0, 1 or 2), or 2 when the header is listed more than once, since the text of a code is no listed answer; every other cell is unchanged |
| Validation.PredictionCodes | validation_distribution/validation_visualization.py:41-42 | one code per pmid, 0/1 exactly when that pmid's prediction is a listed answer |
| Validation.LabelNamesDistinct | validation_distribution/validation_visualization.py:88-97 | the four label names are pairwise different |
| Validation.Actual | validation_distribution/validation_visualization.py:81-86 | the ground truth is the common value of the first two headers when they agree, and 0 otherwise (NaN never agrees) |
| Validation.LabelOf | validation_distribution/validation_visualization.py:88-97 | TP for 1 against 1, TN for 0 against 0, FP for 1 against anything else, FN for 0 against anything else |
| Validation.UnknownIsNegative | validation_distribution/validation_visualization.py:83-97 | an unknown answer from both validators makes a 0 prediction FN and a 1 prediction FP |
| Validation.ModelColumns | validation_distribution/validation_visualization.py:75-76 | the labelled columns are exactly those whose name contains a model marker |
| Validation.ResultColumn | validation_distribution/validation_visualization.py:77-100 | one label per line, in line order, for the given model column |
| Validation.SetColumn | validation_distribution/validation_visualization.py:102 | assigning a column sets that cell of every line, appending the name if new, changing nothing else |
| Validation.ResultNameInjective | validation_distribution/validation_visualization.py:102 | different model columns get different result columns |
| Validation.AnnotatedKeys | validation_distribution/validation_visualization.py:75-102 | a labelled line has exactly its old cells and one result cell per model column |
| Validation.AnnotatedKeepsOthers | validation_distribution/validation_visualization.py:75-102 | every cell outside the result columns keeps its value |
| Validation.AnnotatedResult | validation_distribution/validation_visualization.py:80-102 | each result cell holds the label of that line's prediction against its ground truth |
| Validation.AddFinalResults | validation_distribution/validation_visualization.py:72-104 | the result adds one result column per model column in column order, lines and index labels kept, each line labelled as the annotation lemmas describe |
| Validation.AddResultColumn | validation_distribution/validation_visualization.py:76-102 | labelling one more model column extends the annotation by its result column |
| Validation.ModelColumnsStep | validation_distribution/validation_visualization.py:75-76 | the column loop meets each model column once |
| Validation.CountsCover | validation_distribution/validation_visualization.py:219-223 | the four label counts of a label column sum to its length |
| Validation.TalliedCounts | validation_distribution/validation_visualization.py:219-221 | each tally equals the number of cells carrying that label |
| Validation.Tally | validation_distribution/validation_visualization.py:219-223 | the tally succeeds exactly when every cell is a label (otherwise the source raises); each count is that label's number of cells, they sum to the length, and the result is the label fold `Tallied` of the column |
| Validation.Accuracy | validation_distribution/validation_visualization.py:216-223 | one tally per column whose name contains "Result", and no other key; each stored tally is that column's own label counts (`Tallied`, whose counts `TalliedCounts` equates with the per-label occurrence counts); it fails exactly when such a column holds a non-label |
| Validation.GroupMembers | validation_distribution/validation_visualization.py:114 | a pmid's group holds exactly the lines with that pmid; NaN has none |
| Validation.DifferingMembers | validation_distribution/validation_visualization.py:125-127 | the differing columns are exactly those where the two lines differ, NaN differing from itself |
| Validation.MissingAlwaysDiffers | validation_distribution/validation_visualization.py:125 | a NaN cell always counts as a difference |
| Validation.SelfDiffersOnlyOnMissing | validation_distribution/validation_visualization.py:125 | a line compared with itself differs exactly on its NaN cells |
| Validation.SurvivorsMembers | validation_distribution/validation_visualization.py:129-135 | a line survives exactly when it is not one of the first two lines of a conflicting pmid |
| Validation.OtherFiltersKeepAll | validation_distribution/validation_visualization.py:132 | under any filter other than "main" nothing is removed |
| Validation.OnlyFirstTwoRemoved | validation_distribution/validation_visualization.py:117-135 | a single-line group and every line after a group's second always survive |
| Validation.RemoveDifferentResults | validation_distribution/validation_visualization.py:107-138 | the kept lines are exactly the survivors, in order; the reported count is twice the number of conflicting pmids; kept plus reported equals the original line count |
| Validation.ExaminePmid | validation_distribution/validation_visualization.py:113-135 | examining one more pmid drops its first two lines exactly when they conflict, and counts it |
| Validation.DropIndicesSize | validation_distribution/validation_visualization.py:134 | dropping by index labels removes one line per label present among distinct-labelled lines |
| Validation.Position | validation_distribution/validation_visualization.py:161 | the index label's first line, or none when no line carries it |
| Validation.SetCellLookup | validation_distribution/validation_visualization.py:161 | `df.at[row, header] = value` changes that one cell; a new row gets NaN elsewhere, a new column NaN on other lines |
| Validation.UncorrectedCellKept | validation_distribution/validation_visualization.py:156-161 | a cell no correction names keeps its value |
| Validation.CorrectedCellSet | validation_distribution/validation_visualization.py:156-161 | a corrected cell holds the last value written to it |
| Validation.RowWrites | validation_distribution/validation_visualization.py:157-159 | one write per header index of a row, with Python's negative indexing of the headers |
| Validation.ApplyWritesAppend | validation_distribution/validation_visualization.py:156-161 | applying the writes of one row after those of the rows before is applying all of them in order |
| Validation.CorrectRow | validation_distribution/validation_visualization.py:157-161 | the inner loop leaves the table with that row's writes applied in order |
| Validation.CorrectWeirdResults | validation_distribution/validation_visualization.py:141-163 | the corrected table is the original with exactly the listed writes applied in order |
| Papers.StripPunctuation | paper_download/pull_papers.py:28 | deleting characters never lengthens the text |
| Papers.StripPunctuationKeeps | paper_download/pull_papers.py:28 | text without deleted characters is unchanged |
| Papers.SpacePunctuation | paper_download/pull_papers.py:29 | replacing characters by spaces keeps the length |
| Papers.StripPunctuationClean | paper_download/pull_papers.py:25-28 | after deletion, no deleted character remains and lower-case text stays lower-case |
| Papers.CleanIsClean | paper_download/pull_papers.py:25-29 | the cleaned text holds no upper-case letter and no character of either punctuation class |
| Papers.FieldsAreClean | paper_download/pull_papers.py:33 | the words of clean text are clean |
| Papers.KeptStemsMembers | paper_download/pull_papers.py:33-34 | every word outside the stop-list is stemmed into the result, and every result word is the stem of such a word |
| Papers.DropNumbersMembers | paper_download/pull_papers.py:37 | the kept words are exactly the words that are not all digits |
| Papers.WordsBeforeStemming | paper_download/pull_papers.py:25-34 | words handed to the stop-list and stemmer are non-empty, space-free and clean |
| Papers.ProcessedSplitsBack | paper_download/pull_papers.py:37-39 | with a stemmer mapping words to words, splitting the joined output gives the processed words back, none of them all digits |
| Papers.ProcessText | paper_download/pull_papers.py:18-43 | one processed string per input text, in order, each the cleaned, stop-filtered, stemmed and digit-filtered text |
| Papers.ProcessAbstract | paper_download/pull_papers.py:24-39 | the loop body for one abstract produces its processed string |
| Papers.Triage | paper_download/pull_papers.py:87-110 | a record is accepted exactly when it has a date, a non-empty pmid and a non-empty abstract; an accepted paper keeps its pmid, abstract, title, publication date and journal title; a dated record with a pmid but no abstract pieces goes to the missing-abstract list; a rejected record reports its pmid |
| Papers.EmptyArticleFailsFirst | paper_download/pull_papers.py:102-104 | an empty article is always an other error |
| Papers.MissingDateComesFirst | paper_download/pull_papers.py:87-88 | a record without a publication date is an other error whatever else it lacks |
| Papers.MissingPmidBeforeAbstract | paper_download/pull_papers.py:98-108 | with a date, a missing pmid is reported before a missing abstract |
| Papers.TriagePartition | paper_download/pull_papers.py:98-110 | every record lands in exactly one bucket: accepted or one of the three error lists |
| Papers.TriageOrder | paper_download/pull_papers.py:110 | the papers dictionary has the accepted pmids in first-appearance order |
| Papers.TriageLastWins | paper_download/pull_papers.py:110 | each accepted pmid keeps the last paper accepted under it |
| Papers.TriageRecords | paper_download/pull_papers.py:78-115 | the record loop builds exactly the triage of all records in order |
| Papers.FoundAmongDistinct | paper_download/pull_papers.py:135-138 | the projection keeps every found pmid once |
| Papers.GetPubmedDf | paper_download/pull_papers.py:133-146 | the four columns have equal length and are aligned: each line holds a found pmid, its abstract pieces joined by single spaces, its title and journal |
| Papers.TableCoversPapers | paper_download/pull_papers.py:134-138 | the pmid column is duplicate-free and holds every found pmid; `False` entries are left out |
| Papers.PipelineTable | paper_download/pull_papers.py:133-138 | tabulating the triage gives one line per distinct accepted pmid, in order of first acceptance |

## Left out

- **Network and logging.** `get_paper_info`'s Entrez `esearch` / `epost` / `efetch` calls, its batching and all logging are left out. The model takes the fetched records as input.
- **Progress output.** The progress prints of `process_text` and `remove_different_results` are left out.
- **nltk.** `PorterStemmer` and `stopwords.words('english')` are parameters (`stem`, `stop`).
- **Parallelism.** `multiprocessing.Pool` is left out.
- **sklearn.** The metrics in `bluePill` after the predictions list (confusion matrix, MSE, ROC/AUC, precision-recall) and `preprocessing.normalize` are foreign floating-point library calls. They are not modelled.
- **File and table plumbing.** The model does not cover:
  - file reading (`os.listdir`, `read_csv`, json / pickle);
  - `create_validation_df` beyond its header coding;
  - beyond its coding: `add_predictions_to_df`;
  - `add_multiple_predictions_to_df`;
  - both `main` functions beyond the tally loop.
- **Pandas copies.** Tables are values. In-place updates and copies cannot be told apart, because every caller reassigns the returned table.
- **Floats.** Python floats are modelled as exact reals. Rounding is not modelled.
- **Regular expressions** are written as ASCII scanners, not Python's `re` engine:
  - `\w` is ASCII letters, digits and `_`;
  - `str.lower()` and `str.isdigit()` are ASCII;
  - `split()` splits on ASCII whitespace.
- **Sentence splitting in `bluePill`.** The look-behind sentence splitter of `bluePill` is a function parameter of the `Scorer` (`sentences`). Its regular expression is not modelled. `doubleMatrixMaker`'s `split(". ")` is modelled.
- **Median exceptions.** The `try` around `statistics.median` is modelled only for the empty list, the `|values| == 0` case of `Scoring.Cutoff`. Scores are reals, so no other exception arises.
- Validation.AddFinalResults: its precondition asks for 0/1 predictions in every model column, two different header columns, and no existing result column.
  - A prediction outside {0,1} leaves the source's `value` stale from the previous line, or undefined on the first line. That behaviour is not modelled.
  - With equal headers, the source's header dictionary collapses and indexing it fails.
- Validation.PredictionCodes: `str(results[str(item)])` is modelled on pmids that are already strings. A pmid missing from the predictions raises in the source, so it is a precondition.
- Validation.CorrectWeirdResults: two source failures are preconditions, not error results:
  - a `df_type[0]` missing from the corrections, where `.get` returns `None` and iterating it raises;
  - a header index out of range.
  - Row keys are modelled as integers already parsed by `int(row)`.
- Validation.CodeHeaders: a header that is not a column makes `df[item]` raise `KeyError` (validation_visualization.py:27). The model makes every header a column by precondition.
- Validation.RemoveDifferentResults: two source failures are preconditions, not error results:
  - `row1[headers[0]]` (validation_visualization.py:133) raises `KeyError` when the first header is not a column and the second header differs, so the first header must be a column;
  - fewer than two headers raise `IndexError` at line 133, but only when a pmid's first two lines differ under the "main" filter. The model asks for two headers in every case.
- Validation.RemoveDifferentResults: the source iterates the pmid set in arbitrary order. The model examines the pmids in any order chosen by the loop, and the result does not depend on it, because groups are disjoint. Its precondition asks for distinct index labels and column names, which `reset_index` and the CSV header give.
- Papers.Triage: `abstract == ''` is compared against the list of abstract pieces. Both "no abstract" and "an empty list of pieces" are modelled as missing. Exceptions other than `dict(None)` are not modelled.
- Scoring.BluePill: it returns only the predictions list, as the source does with `only_predictions`. Pmids are modelled as strings.
