# data_compare_llm — a Dafny model of the comparison core

data_compare_llm is a Streamlit page. A user uploads two CSV or Excel files
and picks a comparison operation. This project models the operations whose
logic lives in the page's own code in `app.py`:

- **File loading** (`read_file`). A file whose name ends in `.csv` goes to the
  CSV parser; every other file goes to the spreadsheet parser.
- **The common-column guard.** Six of the nine operations (the three merges,
  both anti-joins and fuzzy matching) first form the set of column labels the
  two tables share, and answer "no common columns" when it is empty. Only the
  anti-joins and fuzzy matching are modelled beyond that guard.
- **"Rows in File 1 but not in File 2" and its mirror.** These are anti-joins
  on a chosen join column. A row is kept when its key does not occur anywhere
  in the other table's join column. Kept rows stay in storage order.
- **The fuzzy summarizer** (`summarize_mismatches`). It compares two rows
  label by label. A missing value on either side skips the label. A text/text
  pair is flagged when its similarity score is below 80. A number/number pair
  is flagged when the absolute difference exceeds 1. A pair of different kinds
  is never flagged. The summary is `None` when nothing is flagged.
- **"Similar Rows (Fuzzy Matching)".** This loop pairs each row of file 1 with
  the first row of file 2 whose join key is equal. It summarizes each pair and
  collects the non-empty summaries, each with its row's key (lost when the
  join column is itself labelled "Summary").

Modules:

- `Wrappers`: `Option` and `Result`.
- `Cells`: a cell is `Missing`, `Number` or `Text`. The module also has the
  pandas notion of equality.
- `Tables`: tables, rows, column access, element-wise masks, boolean
  selection, `.iloc[0]`, and the common-column set.
- `Loader`: `read_file`.
- `AntiJoin`: the two anti-join operations.
- `Summarizer`: `summarize_mismatches`.
- `FuzzyMatch`: the fuzzy-matching loop.

The two Python loops are Dafny methods with loops:
- `Summarizer.SummarizeMismatches`
- `FuzzyMatch.CollectMismatchSummaries`

Each method is proved equal to a prefix-fold specification function
(`DifferencesUpTo` and `CollectedUpTo`). The lemmas then characterize those
functions. The rest of the core is pure expressions over tables, and the
model writes it as functions.

Python exceptions are values of type `Tables.PyError`:
- `KeyError(column)`: `row2[col]` on a row without that label.
- `IndexError`: `.iloc[0]` on an empty selection.

An operation that raises yields `Failure(error)`.

Behaviours of the code that the model keeps as written:

- **Every label of the file-1 row is compared.** The summarizer visits every
  label of the file-1 row, whether file 2 has it or not (app.py:138).
  `row2[col]` raises `KeyError` for a label file 2 lacks. It does so only when
  file 1's value there is present, because the `or` at app.py:139
  short-circuits. `Summarizer.KeyErrorRule` states exactly when this happens.
- **A key with no partner in file 2 raises.** The code does not catch the
  `IndexError` of `.iloc[0]` at app.py:157. One file-1 row without a partner
  makes the whole operation fail (`FuzzyMatch.UnmatchedKeyRaises`).
- **("Alice", "Alise") is not flagged.** `fuzz.ratio("Alice", "Alise")` is
  round(100 · 2 · 4 / 10) = 80. The test at app.py:143 is a strict `<`, so at
  threshold 80 the pair is not flagged (`Summarizer.AliceAliseExample`).
- **A missing key never finds a partner.** A missing join key in file 1 never
  matches in file 2, because `==` on NaN is false, so it raises `IndexError`
  (`FuzzyMatch.MissingKeyFindsNoRow`). The anti-joins use `isin`, which finds
  a NaN among values that hold a NaN. `Cells.Equal` and plain `==` on `Cell`
  model these two notions.
- **The join column is compared too.** Its two values are equal. When the
  scorer gives every string 100 against itself, as `fuzz.ratio` does, the join
  column is therefore never reported (`FuzzyMatch.JoinColumnNeverReported`).
- **A join column labelled "Summary" loses the key.** The entry at app.py:160
  is the dict display `{join_col: key, "Summary": summary}`. When `join_col`
  is `"Summary"` the two keys coincide, and the dict keeps the later value, the
  summary (`FuzzyMatch.Entry`, `FuzzyMatch.SummaryLabelLosesKey`).

## Model

| member | source | states |
|---|---|---|
| Loader.EndsWith | app.py:15 | `str.endswith` holds exactly when the suffix fits and agrees with the last characters, position by position |
| Loader.ParserFor | app.py:15-18 | the CSV parser is chosen exactly when the name is some stem followed by ".csv" |
| Loader.ReadFile | app.py:14-18 | the content goes to the CSV parser when the name ends with ".csv", and to the spreadsheet parser otherwise |
| Loader.CsvSuffixChoosesCsv | app.py:15-16 | any name of the form stem + ".csv" is read as CSV |
| Loader.CsvChoiceHasCsvSuffix | app.py:15-18 | a name read as CSV has at least four characters and ends in ".csv" |
| Loader.ParserExamples | app.py:15-18 | the suffix test is case-sensitive and looks only at the end: "data.csv" and ".csv" are CSV; "data.CSV", "data.xlsx", "data.csv.xlsx" and "csv" are not |
| Cells.IsNa | app.py:139 | `pd.isna` holds exactly for the cells that compare unequal to themselves, the missing ones |
| Cells.Equal | app.py:157 | pandas `==` is cell equality, except that a missing cell equals nothing, itself included |
| Tables.CommonColumns | app.py:131 | a label is common exactly when both tables have it |
| Tables.Get | app.py:139 | `row[label]` exists exactly when the row has that label, and it is the cell at that label's position |
| Tables.ColumnOf | app.py:157 | `df[col]` has one cell per row, and cell i is row i's value under col |
| Tables.EqMask | app.py:157 | `series == key` is true at i exactly when cell i equals the key under pandas equality |
| Tables.NotIsInMask | app.py:93 | `~series.isin(values)` is true at i exactly when cell i is not among the values |
| Tables.TruePositions | app.py:93 | the positions boolean indexing keeps are in range, are true in the mask, include every true position, and are strictly increasing |
| Tables.Select | app.py:93 | `df[mask]` keeps the columns and holds exactly the rows at the mask's true positions, in order |
| Tables.FirstRow | app.py:157 | `.iloc[0]` raises IndexError exactly when the table is empty, and otherwise gives its first row |
| Tables.NoTruePositions | app.py:157 | a mask with no true element selects no row |
| Tables.FirstTruePosition | app.py:157 | the first selected row is the first true position of the mask |
| AntiJoin.RowsNotIn | app.py:93 | the anti-join is a valid table under the source table's columns |
| AntiJoin.RowsNotInIsKeyFilter | app.py:93 | the anti-join is an order-preserving subsequence of the source rows; a row is kept exactly when its key does not occur in the other table's join column |
| AntiJoin.KeysOfRowsNotIn | app.py:93 | the join keys left are exactly the source keys minus the other table's keys |
| AntiJoin.RowsInFile1NotInFile2 | app.py:89-97 | "no common columns" exactly when the tables share no label; otherwise the file-1 rows whose key file 2 lacks |
| AntiJoin.RowsInFile2NotInFile1 | app.py:99-107 | "no common columns" exactly when the tables share no label; otherwise the file-2 rows whose key file 1 lacks |
| AntiJoin.RowsInFile2NotInFile1IsMirror | app.py:89-107 | the second operation is the first with the files swapped, under the same guard |
| AntiJoin.KeysPartition | app.py:89-107 | keys only in file 1, keys only in file 2 and shared keys are pairwise disjoint, and together they cover every key of either file |
| Summarizer.DefaultSettings | app.py:135 | the defaults the call at app.py:158 relies on: numeric threshold 1 and text threshold 80, with the given scorer |
| Cells.Abs | app.py:147 | Python's `abs`: the result is non-negative and is the number or its negation |
| Summarizer.Compare | app.py:141-150 | only text/text and number/number pairs can be flagged; text is flagged exactly when its score is below the text threshold, a number pair exactly when the difference exceeds the numeric threshold, with both values and the score |
| Summarizer.Verdict | app.py:138-140 | iteration i raises exactly when row1's value is present and row2 lacks the label, and then KeyError of that label |
| Summarizer.VerdictCompares | app.py:139-150 | a value missing on either side yields nothing; two present values yield their comparison |
| Summarizer.SummarizeMismatches | app.py:135-152 | the loop returns or raises exactly what the specification `Summary` gives |
| Summarizer.FailureIsFinal | app.py:138-140 | once an iteration raises, the outcome is that error |
| Summarizer.DifferencesSucceedIffNoError | app.py:138-140 | the loop completes exactly when no label raises |
| Summarizer.DifferencesAreFlaggedEntries | app.py:136-150 | a loop that completes holds one entry per flagged label, in row order, with that label's comparison |
| Summarizer.DifferencesFailAtFirstError | app.py:138-140 | a loop that raises raises the error of the first label that does |
| Summarizer.DifferencesAreFlaggedColumns | app.py:136-150 | the loop completes exactly when no label raises; it then holds one entry per flagged label, in row order, with that label's comparison; otherwise it raises the first label's error |
| Summarizer.ReportedIffFlagged | app.py:138-152 | a label is in the summary exactly when its comparison flags it, and then with that comparison's detail |
| Summarizer.MissingNeverReported | app.py:139-140 | a label whose value is missing on either side is never reported |
| Summarizer.TextColumnRule | app.py:141-145 | a text/text label is reported exactly when its score is below the text threshold, with both strings and the score |
| Summarizer.NumberColumnRule | app.py:146-150 | a number/number label is reported exactly when the absolute difference exceeds the numeric threshold; a difference equal to the threshold is not reported |
| Summarizer.MixedKindsNeverReported | app.py:141-150 | a text/number or number/text pair is never reported |
| Summarizer.SummaryShape | app.py:136-152 | every reported label is a label of row1; reported labels appear once each, in row1's order; the result is None exactly when nothing is flagged, and a present summary is non-empty |
| Summarizer.EqualValuesNeverReported | app.py:141-150 | when the scorer gives every string 100 against itself and the thresholds are in range, a label with equal values on both sides is never reported |
| Summarizer.KeyErrorRule | app.py:138-140 | KeyError is raised exactly when some label of row1 with a present value is absent from row2, and it names the first such label |
| Summarizer.AliceAliseExample | app.py:141-145 | a pair scoring 80, such as ("Alice", "Alise"), is not flagged under the default threshold 80 |
| Summarizer.NumberExamples | app.py:146-150 | under threshold 1, 10 vs 10.5 and 10 vs 11 are not flagged, and 10 vs 12 is flagged with difference 2 |
| Summarizer.KeyErrorExamples | app.py:138-140 | a label row2 lacks raises KeyError when row1 has a value there, and is skipped when row1's value is missing |
| FuzzyMatch.FirstEqual | app.py:157 | the reference lookup finds the first position whose key equals the given key, or reports that none does |
| FuzzyMatch.MatchingRow | app.py:157 | the lookup raises IndexError exactly when no file-2 key equals the given key; otherwise it is a file-2 row with an equal key |
| FuzzyMatch.MatchingRowIsFirstEqual | app.py:157 | `df2[df2[join_col] == key].iloc[0]` is the first file-2 row with an equal key, and raises IndexError when there is none |
| FuzzyMatch.MissingKeyFindsNoRow | app.py:157 | a missing key never finds a row, so it raises IndexError |
| FuzzyMatch.RowOutcome | app.py:157-158 | row i raises IndexError when no file-2 key equals its key, and otherwise is the summary of row i against the first file-2 row with an equal key |
| FuzzyMatch.Entry | app.py:160 | the entry holds the summary, and holds the key exactly when the join column is not labelled "Summary" |
| FuzzyMatch.CollectFailureIsFinal | app.py:156-160 | once a row raises, the loop's outcome is that error |
| FuzzyMatch.CollectedSucceedsOnReportedRows | app.py:156-160 | the loop completes exactly when no row raises, and then holds one entry per row with a summary, in row order |
| FuzzyMatch.CollectedFailsAtFirstError | app.py:156-158 | a loop that raises raises the error of the first row that does |
| FuzzyMatch.CollectedAreReportedRows | app.py:154-160 | the loop completes exactly when no row raises; it then holds one entry per row with a summary, in row order, each built from that row's key and summary; otherwise it raises the first failing row's error |
| FuzzyMatch.CollectedSummariesFollowTable1 | app.py:154-160 | entries follow file 1's row order, at most one per row; each carries its row's key (none when the join column is labelled "Summary") and the non-empty summary against the first file-2 row with an equal key; a row is left out exactly when nothing in it is flagged |
| FuzzyMatch.UnmatchedKeyRaises | app.py:157 | a file-1 row whose key no file-2 row equals makes the whole operation raise |
| FuzzyMatch.DuplicateKeyPairs | app.py:146-152 | the two row pairs of the duplicate-key lemmas: equal values give None; 10 vs 50 is flagged with difference 40 |
| FuzzyMatch.OneRowCollected | app.py:154-160 | on a one-row file 1, the result is that row's error, no entry, or one entry with its key and summary |
| FuzzyMatch.DuplicateKeyFirstAgrees | app.py:157 | with two file-2 rows sharing the key, only the first is compared; there it agrees, so there is no entry |
| FuzzyMatch.DuplicateKeyFirstDiffers | app.py:157 | the same rows in the other order give an entry for the first one, which differs |
| FuzzyMatch.JoinColumnNeverReported | app.py:157-158 | when the scorer gives every string 100 against itself, a row's summary never reports the join column |
| FuzzyMatch.SummaryLabelPair | app.py:146-152 | the row pair of the "Summary" example: 10 vs 50 is flagged with difference 40 |
| FuzzyMatch.SummaryLabelLosesKey | app.py:160 | joined on a column labelled "Summary", the entry holds the summary and no key |
| FuzzyMatch.SummarizeRow | app.py:156-158 | the loop body yields row i's key and its lookup-and-summary outcome |
| FuzzyMatch.CollectStep | app.py:158-160 | one turn of the loop moves the fold one row on: raise, skip, or append the row's entry |
| FuzzyMatch.CollectMismatchSummaries | app.py:154-160 | the loop returns or raises exactly what the specification `Collected` gives |
| FuzzyMatch.SimilarRows | app.py:130-160 | "no common columns" exactly when the tables share no label; otherwise the collected summaries or the raised error |

## Left out

- The Streamlit page is not modelled: uploads, widgets, previews, the operation menu and rendering. The user's choice of join column is a parameter. The guard guarantees that this column is a common one.
- The parsing inside `pd.read_csv` and `pd.read_excel` is not modelled. The two parsers are function parameters of `Loader.ReadFile`, and the tables they produce are given as inputs.
- "Merge on Common Column", "Exact Matches" and "Not Matching Rows" are pandas merges and are not modelled. Only their common-column guard, `Tables.CommonColumns`, is shared with the modelled operations.
- "Row-wise Subtraction", "Column-wise Statistics Comparison" and "Show Summary Stats" are not modelled. They use pandas' `describe` and arithmetic.
- `fuzz.ratio` is not modelled. It is a foreign library call and appears as a parameter of type `(string, string) -> Similarity` with values 0 to 100. Nothing else is assumed of it. The lemmas that need a string to score 100 against itself take that as a precondition.
- The local language-model explanation (`explain_variance`, the Ollama call) is not modelled. It is network I/O.
- Floating point is not modelled. Numeric cells are exact reals, so rounding in `abs(a - b)` is not captured. Integer and float cells are both `Number`, and booleans are not a separate kind.
- Python type tests are not modelled. Every numeric cell compares as a number, so numpy scalar types that fail `isinstance(x, (int, float))` are not distinguished. Every text cell compares as text.
- The entries of `mismatch_summaries` are records (`FuzzyMatch.SummaryRow`), not dicts. The key collision of a "Summary" join column is modelled; building the DataFrame from the entries is not.
- The f-string description is rendered as a structured `Detail`: both values and the score. The text formatting is not modelled.
- Row index labels of the pandas frames are not kept. Tables are positional, and the anti-join output keeps rows but not their original labels.
- Tables and rows with duplicate column labels are excluded by `ValidTable` and `ValidRow`; in pandas, `row[col]` would then return a Series.
- `Tables.CommonColumns` is a set. The order of the Python list built from it, which only orders the UI's choices, is not modelled.
- The `summarize_mismatches` thresholds are parameters of `Summarizer.Settings`. The fuzzy-matching operation always uses the defaults 1 and 80, as the call at app.py:158 does.
- AntiJoin.RowsNotIn: its own contract states only the shape of the result. Which rows it keeps is stated by `AntiJoin.RowsNotInIsKeyFilter` and `AntiJoin.KeysOfRowsNotIn`.
