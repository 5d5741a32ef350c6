# Cylinder bands: cleaning and loading, modelled in Dafny

The repository prepares the UCI "cylinder bands" printing dataset for a relational database.
It does this in two steps, one script each.

- `cleaning.py` holds `execute_senior_db_cleaning`. It reads the CSV into a data frame, then:
  1. turns `?` placeholders into nulls;
  2. parses the `timestamp` column as a `YYYYMMDD` date;
  3. drops columns with at most one distinct non-null value;
  4. lower-cases and strips the text columns;
  5. merges rare customer spellings into frequent look-alikes (difflib, cutoff 0.85, at most five matches);
  6. promotes text columns that are mostly numeric to numbers;
  7. narrows whole-valued float columns to nullable integers;
  8. turns yes/no/true/false columns into booleans;
  9. drops duplicate rows.

  It also writes a report with a header, one line per change and a closing summary.
- `load_data.py` loads a CSV into an entity–attribute–value schema. `load_and_clean_csv` takes a `filepath` argument but ignores it: it always reads the hard-coded `cylinder_band.csv` (load_data.py:24-27). The model takes the table that this read produces as its input.
  - `load_and_clean_csv` fixes the `humifity` column name, maps customer and paper-mill spellings to canonical names, and keeps the first row per `(timestamp, cylinder_number)`;
  - `categorize_columns` splits the columns into string and numeric attributes;
  - `populate_metadata_tables` registers the attribute names in `stringcols` / `numericcols` (a duplicate name is ignored) and reads back the name → id maps;
  - `populate_runs_table` inserts one run per row;
  - `populate_string_values` / `populate_numeric_values` insert one `(run_id, attribute_id, value)` fact per non-null cell.

## How the model is built

- **Tables.** A data frame is a `Frame.Table`: a column order, a type tag per column (`Text`, `Integer`, `Float`, `Boolean`, `NullableInteger`, `NullableBoolean`, `DateTime`), and rows that map column names to cells (`Missing`, `Str`, `Num` (an exact real), `Bool`, `Date`). Pandas' NaN is `Missing`.
- **Outside parts as parameters.** Date parsing (`to_datetime`), number parsing (`to_numeric`) and difflib's matching-block count are function parameters. Their internals are outside the model. The 0.85 cutoff, the limit of five matches, the score order and the tie-breaking of `get_close_matches` are modelled exactly in `Fuzzy` for a list of distinct possibilities, which is the only kind the script passes (the `value_counts` index).
- **Cleaning.** Each cleaning phase is a pure function `Phase(table) -> Step(table, report lines)` in module `Cleaning`. Lemmas state what each phase does. The class `Cleaning.Cleaner` holds the data frame and the report being built; its methods change them phase by phase, as the script does in place. `Cleaning.ExecuteSeniorDbCleaning` runs the methods in the script's order. Its result is `Cleaning.Run`: `TypeErrorRaised` when the typo scan raises (the customer column reaching phase 5 holds a number, a bool or a date), and otherwise `Written` with the table and report of the composition `Clean`. The lemmas about `Clean` describe the runs that write their files.
- **Loading.** In module `Loader`, the class `Loader.Database` holds the five tables as fields. The metadata tables are `Dictionary` values, with the auto-increment counter made explicit. Its methods are proved against the functions `InsertAll`, `IdsOf`, `RunsFor` and `EmitRows`, and lemmas about those functions give the load's guarantees.
- **Loops.** The script's loops are methods with loop invariants:
  - the typo scan: `Fuzzy.PlanTypoFixes`;
  - the column split: `Loader.CategorizeColumns`;
  - the per-row, per-column value loops: `Loader.CollectFacts`.

## Where the code is followed over its description

- **The typo scan's skip test.** The script skips a candidate when it is already a *target* of a replacement: `val in replacements.values()` (cleaning.py:53). Candidates are distinct, and every target is an earlier candidate, so the test never fires. `Fuzzy.SkipNeverFires` proves this. A candidate that was itself merged away is therefore still scanned, and it may claim rarer matches.
- **Applying the typo replacements.** `Series.replace` with a dict looks each value up once; replacements are not chained. `Frame.Replace` does the same.
- **The "mostly numeric" test.** It divides the number of values that parse by the number of rows, including null ones (cleaning.py:70).
- **Boolean and nullable columns.** `categorize_columns` compares the dtype with `object`, `int64` and `float64` only (load_data.py:85-96). A column of any other dtype goes into neither list, so nothing of it is stored, and `Loader.KindOf` returns `NotStored` for it. This covers three kinds of column. The first is the numpy `bool` column that `pd.read_csv` makes of a column holding only `True`/`False` with no empty cell; the model's `Boolean` type stands for it. The other two are an `Int64` or `boolean` column of an in-memory frame. Through a CSV file, an integer column with an empty cell reads back as `float64`, and a `True`/`False` column with an empty cell reads back as `object`. Those are classified by that type. The model's input table carries the types the read produced.

## Model

| member | source | states |
|---|---|---|
| Text.StripIdempotent | cleaning.py:41 | stripping twice equals stripping once |
| Text.CanonicalTextIdempotent | cleaning.py:41 | lower-then-strip is idempotent |
| Frame.KeepFirstBySpec | load_data.py:64 | dedup by key (keep='first') lists, in source order, exactly the rows that are the first with their key (KeepsFirstOccurrences); the result is a subsequence with pairwise distinct keys and keeps every key of the input |
| Frame.KeepFirstByShape | load_data.py:64 | dedup by key keeps a subsequence with pairwise distinct keys, every key of the input and the first row of every key |
| Frame.KeepFirstByIndexed | load_data.py:64 | the kept rows are the rows at an increasing list of positions that holds exactly the positions of first occurrences |
| Frame.KeepFirstByKeepsFirst | load_data.py:64 | the kept rows satisfy KeepsFirstOccurrences: in source order, exactly the first row of each key |
| Frame.IncreasingSameElements | load_data.py:64 | two strictly increasing position lists with the same elements are equal |
| Frame.KeepsFirstOccurrencesUnique | load_data.py:64 | KeepsFirstOccurrences determines its result: any list of rows that satisfies it is the dedup result, so keeping a later duplicate (keep='last') is ruled out |
| Frame.KeepFirstByNoRepeats | cleaning.py:90-93 | without a repeated key nothing is dropped; with one the output is strictly shorter |
| Fuzzy.CutoffInIntegers | cleaning.py:56 | ratio `2M/T >= 0.85` holds exactly when `40M >= 17T` |
| Fuzzy.CloseMatchesSpec | cleaning.py:56 | get_close_matches returns at most 5 distinct possibilities above the cutoff, best first; any omitted close possibility ranks below every returned one; fewer than 5 means all close ones |
| Fuzzy.SortByCountSpec | cleaning.py:48-49 | the value_counts ordering is a permutation of the values sorted by non-increasing count |
| Fuzzy.RankByFrequencyIsRanking | cleaning.py:48-49 | the ranking lists each non-null value once, by non-increasing count |
| Fuzzy.PlanTypoFixes | cleaning.py:50-60 | the scan loop produces exactly the plan `TypoPlan` and the replacement dict built from it |
| Fuzzy.RecordMatches | cleaning.py:57-60 | the inner loop appends one fix per match strictly rarer than the candidate |
| Fuzzy.MatchFixesSpec | cleaning.py:57-59 | a fix is recorded for a match exactly when the candidate's count is strictly greater |
| Fuzzy.ReplacementsFromFixes | cleaning.py:59 | every key of the dict comes from a recorded fix and every fix's typo is a key |
| Fuzzy.ReplacementsLastWins | cleaning.py:59 | a later assignment to the same typo overrides an earlier one |
| Fuzzy.SkipNeverFires | cleaning.py:53 | the skip on `replacements.values()` never fires: the plan equals the unskipped scan |
| Fuzzy.AllFixesSound | cleaning.py:52-59 | every fix maps a close match of a candidate to that strictly more frequent candidate |
| Fuzzy.AllFixesComplete | cleaning.py:52-59 | every close match rarer than its candidate gets a fix |
| Fuzzy.TypoPlanSound | cleaning.py:46-60 | every fix merges a value ranked later into an earlier, strictly more frequent, close (>= 0.85) value |
| Fuzzy.TypoPlanComplete | cleaning.py:46-60 | every close, strictly rarer match of a candidate is fixed and is a key of the dict |
| Fuzzy.ReplacementsSound | cleaning.py:62-63 | each replacement maps an occurring value to a different, occurring, strictly more frequent, close value |
| Fuzzy.AtMostFivePerCandidate | cleaning.py:56 | one candidate contributes at most five fixes |
| Cleaning.NullTokenPhaseSpec | cleaning.py:22-24 | no `?` remains; nulls grow by the number of `?`; other cells are unchanged; the report line carries the count of `?` |
| Cleaning.TimestampPhaseSpec | cleaning.py:27-30 | with a timestamp column it becomes DateTime; a cell becomes a date exactly when it is present and parses, and is null otherwise; other columns are unchanged; without the column the table is unchanged and nothing is reported |
| Cleaning.ConstantColumnPhaseColumns | cleaning.py:33-36 | a column survives exactly when it has more than one distinct non-null value; the order is kept; a report line appears exactly when something is dropped |
| Cleaning.ConstantColumnPhaseCells | cleaning.py:33-36 | surviving columns keep their cells and types |
| Cleaning.ConstantColumnPhaseValid | cleaning.py:33-36 | dropping columns keeps the table well formed |
| Cleaning.TextPhaseSpec | cleaning.py:39-43 | a text cell becomes its lower-cased, stripped form, and `nan` becomes null; no cell is the text `nan` afterwards; shape and types are kept |
| Cleaning.TextPhaseIdempotent | cleaning.py:39-43 | normalising text twice equals normalising once |
| Cleaning.TypoPhaseOnlyCustomer | cleaning.py:46-63 | only the customer column changes; without it the phase is a no-op with no report |
| Cleaning.TypoPhaseMergesIntoFrequent | cleaning.py:62-63 | a customer cell is either unchanged or replaced by an occurring, strictly more frequent, close spelling |
| Cleaning.TypoPhaseReport | cleaning.py:47-60 | the report is the scan line followed by exactly as many lines as the plan has fixes, each naming an occurring value merged into an occurring, strictly more frequent, close value |
| Cleaning.TypoLinesSound | cleaning.py:60 | each line written by the scan names a merge into a strictly more frequent, close, occurring value |
| Cleaning.TypoLinesListFixes | cleaning.py:59-60 | every fix of the plan has its line in the report |
| Cleaning.TypoPhaseReportComplete | cleaning.py:52-63 | every replacement applied to the customer column, and every close match strictly rarer than its candidate, has a line naming that merge |
| Cleaning.MostlyNumericInIntegers | cleaning.py:70 | `parsed / rows > 0.5` holds exactly when `2 * parsed > rows` |
| Cleaning.PromoteStepSpec | cleaning.py:68-72 | a text column is promoted exactly when more than half of all rows parse; it becomes Integer if every cell is an integer literal, else Float; unparsable cells become null; nothing else changes |
| Cleaning.NarrowStepSpec | cleaning.py:75-79 | a Float column narrows to nullable integer exactly when it has a non-null value and every non-null value is whole; cells are unchanged |
| Cleaning.NumericColumnsShape | cleaning.py:66-79 | the per-column loop changes only the listed columns and keeps the shape |
| Cleaning.NumericPhaseValid | cleaning.py:66-79 | type optimisation keeps the table well formed |
| Cleaning.IsBinaryColumnCells | cleaning.py:84-85 | a column is binary exactly when it has a non-null value and all of them are yes/no/true/false |
| Cleaning.BooleanStepSpec | cleaning.py:82-87 | a binary text column becomes NullableBoolean with yes/true mapped to true, no/false to false, null kept; otherwise nothing changes |
| Cleaning.BooleanColumnsShape | cleaning.py:83-87 | the boolean loop changes only the listed columns |
| Cleaning.BooleanPhaseValid | cleaning.py:82-87 | boolean coercion keeps the table well formed |
| Cleaning.DedupPhaseRows | cleaning.py:90-91 | the output rows are, in source order, exactly the first copy of each distinct row (keep='first', pinned down by Frame.KeepsFirstOccurrencesUnique); a duplicate-free subsequence containing every input row |
| Cleaning.DedupPhaseDistinct | cleaning.py:90-91 | the output rows are a duplicate-free subsequence containing every input row, with columns and types unchanged |
| Cleaning.DedupPhaseReport | cleaning.py:92-93 | a line with the number removed appears exactly when rows were removed |
| Cleaning.DedupPhaseValid | cleaning.py:91 | deduplication keeps the table well formed |
| Cleaning.Cleaner.constructor | cleaning.py:10-19 | the frame is the input and the report is the header with the input's row and column counts |
| Cleaning.Cleaner.ReplaceNullTokens | cleaning.py:22-24 | the frame and report advance by the null-token phase |
| Cleaning.Cleaner.ConvertTimestamp | cleaning.py:27-30 | the frame and report advance by the timestamp phase |
| Cleaning.Cleaner.DropConstantColumns | cleaning.py:33-36 | the frame and report advance by the constant-column phase |
| Cleaning.Cleaner.NormalizeText | cleaning.py:39-43 | the frame and report advance by the text phase |
| Cleaning.Cleaner.MergeCustomerTypos | cleaning.py:46-63 | raises (returns `raised`) exactly when the customer column holds a non-text value, after the scan line and with the frame unchanged; otherwise the frame and report advance by the typo phase, whose plan comes from the scan loop |
| Cleaning.Cleaner.OptimizeNumericTypes | cleaning.py:66-79 | the loop over the columns advances the frame and report by the numeric phase |
| Cleaning.Cleaner.OptimizeColumn | cleaning.py:68-79 | one column is promoted, then narrowed |
| Cleaning.Cleaner.CoerceBooleans | cleaning.py:82-87 | the loop over the text columns advances the frame and report by the boolean phase |
| Cleaning.Cleaner.CoerceColumn | cleaning.py:84-87 | one column becomes boolean when its values are all binary words; the frame and report advance by that step |
| Cleaning.Cleaner.DropDuplicates | cleaning.py:90-93 | the frame and report advance by the dedup phase |
| Cleaning.Cleaner.WriteSummary | cleaning.py:97-100 | the summary lines are appended and the frame is unchanged |
| Cleaning.ExecuteSeniorDbCleaning | cleaning.py:5-103 | the phases in order give exactly `Run`: `TypeErrorRaised` with nothing written when the typo scan raises, otherwise the table and report of `Clean` |
| Cleaning.NonTextKeptBeforeScan | cleaning.py:22-43 | phases 1 to 4 keep every row and keep each customer cell a number, bool or date exactly when it was one |
| Cleaning.NonTextColumnBeforeScan | cleaning.py:22-43 | the same for every row of the table the typo scan sees |
| Cleaning.RaisesOnSomeRow | cleaning.py:48-56 | the scan raises exactly when some customer cell is a number, a bool or a date |
| Cleaning.TypoScanRaisesOnInput | cleaning.py:46-56 | the run raises TypeError exactly when the customer column survives phases 1 to 4 and some input customer cell is a number, a bool or a date |
| Cleaning.TextCustomerWritten | cleaning.py:46-103 | a run whose customer cells are all missing or text writes the output of `Clean` |
| Cleaning.CleanShape | cleaning.py:5-100 | the cleaned table is well formed, has no more rows, no duplicate rows, and its columns are a subsequence of the input's |
| Cleaning.CleanNoNanText | cleaning.py:39-93 | no cell of the cleaned table is the text `nan` |
| Cleaning.CleanReport | cleaning.py:10-100 | the report starts with the header and initial counts, then the null-token line, and ends with the final summary with the final counts |
| Loader.LoadAndCleanCsv | load_data.py:24-72 | the step-by-step frame updates give exactly `CleanedCsv` |
| Loader.CleanedCsvFails | load_data.py:56-64 | a KeyError exactly when a required column is absent after the rename; the error names only absent required columns |
| Loader.RenamedSpec | load_data.py:32-33 | `humifity` is renamed to `humidity`, values carried over; without it nothing changes |
| Loader.RenamedNames | load_data.py:33 | the renamed column set swaps the one name |
| Loader.RenameValid | load_data.py:33 | renaming to a fresh name keeps the table well formed |
| Loader.CleanedCsvValid | load_data.py:24-72 | a well-formed input yields a well-formed table |
| Loader.CorrectedSpec | load_data.py:37-61 | customer and paper-mill cells go through one dict lookup each; every other cell and the dedup key are unchanged |
| Loader.CustomerMappingSettled | load_data.py:37-56 | a changed customer becomes one of the seven canonical names, and mapping again changes nothing |
| Loader.PaperMillMappingSettled | load_data.py:59-61 | mapping the paper-mill spelling twice equals mapping once |
| Loader.ReplaceColumnSettled | load_data.py:56 | replace is a no-op on a column whose values the mapping leaves alone |
| Loader.CleanedCsvRows | load_data.py:64 | the kept rows are, in source order, exactly the corrected rows that are the first with their (timestamp, cylinder_number) pair (keep='first'); a subsequence with distinct pairs, every pair kept |
| Loader.CleanedCellsSettled | load_data.py:37-61 | after cleaning, both mappings leave every cell unchanged |
| Loader.CleanedCsvIdempotent | load_data.py:24-72 | cleaning a cleaned frame changes nothing |
| Loader.CategorizeColumns | load_data.py:76-101 | the loop returns exactly the string and numeric columns in frame order |
| Loader.CategorizeRules | load_data.py:81-96 | a column is a string attribute iff it is object-typed, or int/float and in an override list; numeric iff int/float and in no override list; never timestamp; so a `bool`, nullable or datetime column is in neither |
| Loader.CategorizePartition | load_data.py:76-101 | the two lists are disjoint, in frame order, without timestamp, and distinct when the columns are |
| Loader.InsertSpec | load_data.py:113-119 | an insert keeps names unique and ids increasing and below the counter; it only appends; a duplicate leaves the table unchanged |
| Loader.InsertRegisters | load_data.py:113-119 | after an insert exactly the old names plus the new one are registered |
| Loader.InsertAllSpec | load_data.py:112-129 | the insert loops keep the table well formed and only append |
| Loader.InsertAllRegisters | load_data.py:112-129 | the names registered afterwards are exactly the old ones plus the listed ones |
| Loader.InsertAllIdempotent | load_data.py:112-129 | registering the same names again changes nothing |
| Loader.InsertAllOfRegistered | load_data.py:118-119 | registering only known names changes nothing |
| Loader.IdsOfKeys | load_data.py:135-139 | the id cache has exactly the names of the table's rows as keys |
| Loader.IdsOfValues | load_data.py:135-139 | with unique names, each name maps to its own row's id |
| Loader.IdsInjective | load_data.py:135-139 | distinct names get distinct ids |
| Loader.EmitRowSpec | load_data.py:173-187 | one row yields a fact per non-null listed column, with its run id, attribute id and value; a failed lookup names an unregistered column in the list whose cell in this row has a value |
| Loader.EmitRowFirstMiss | load_data.py:173-181 | a failed lookup names the first such column in list order: every earlier column of the row is null or registered |
| Loader.EmitRowsFailure | load_data.py:172-187 | the load fails exactly when some non-null cell lies in an unregistered column |
| Loader.EmitRowsSound | load_data.py:172-187 | every fact comes from a non-null cell of its 1-based row |
| Loader.EmitRowsComplete | load_data.py:172-187 | every non-null listed cell yields its fact when the load does not fail |
| Loader.EmitRowsOneFactPerCell | load_data.py:172-187 | no two facts share a (run, attribute) pair when the ids are injective |
| Loader.FactsJoinOwnRun | load_data.py:152-172 | the facts join the run inserted for their own row exactly when the run counter started at 1 |
| Loader.SecondLoadFactMisjoins | load_data.py:152-187 | on a second load the inserted run gets id 2, but the row's fact carries run id 1 |
| Loader.EmitRowsFromOne | load_data.py:172 | numbering the facts from run id 1 is exactly the scripts' numbering |
| Loader.FactsJoinInsertedRun | load_data.py:152-187 | when facts take the ids of the runs just inserted, every fact joins its own row's run, whatever the counter was before |
| Loader.CollectFacts | load_data.py:171-187 | the nested loops give exactly `EmitRows`, and `total` counts the facts |
| Loader.RegisteredLoadSucceeds | load_data.py:301-306 | after registering the listed columns no id lookup fails |
| Loader.RegisteredLoadOneFactPerCell | load_data.py:172-187 | after registering the listed columns there is at most one fact per (run, attribute) |
| Loader.Database.constructor | load_data.py:105-229 | the five tables start empty and both counters at 1 |
| Loader.Database.PopulateMetadataTables | load_data.py:105-141 | the tables become `InsertAll` of the names; the returned caches are their `IdsOf`; nothing else changes |
| Loader.Database.PopulateRunsTable | load_data.py:146-159 | one run per row is appended with consecutive ids from the counter; nothing else changes |
| Loader.Database.PopulateStringValues | load_data.py:165-194 | the string facts of `EmitRows` are appended and counted; a failed lookup is returned |
| Loader.Database.PopulateNumericValues | load_data.py:200-229 | the numeric facts of `EmitRows` are appended and counted; a failed lookup is returned |
| Loader.LoadCsv | load_data.py:293-311 | a KeyError from cleaning leaves the database unchanged; otherwise the tables equal the composition of the cleaned frame's categorisation, registration, runs and facts |
| Loader.FreshLoadConsistent | load_data.py:293-311 | on an empty database no lookup fails, every fact joins the run of its own row, and there is at most one fact per (run, attribute) |

## Left out

- Reading and writing CSV files, the ignored `filepath` argument and the hard-coded paths (load_data.py:24-27, 68), the report file (cleaning.py:96, 102-103), console output and the returned message: these are I/O. A table is an input, and the report is a sequence of lines.
- The report's Turkish wording: each line is a tagged datatype value carrying the numbers and names it prints. The 70-character rules are a constant width.
- The MySQL connection, commits, the commit every 1000 values (load_data.py:189-191, 224-226), the rollback in `main` (load_data.py:322) and `connection.close()`: the database is an in-memory object. Loader.Database.PopulateStringValues and Loader.Database.PopulateNumericValues keep the facts they appended before a failed lookup. In the source, the facts committed in earlier 1000-value batches survive the exception and the rest are rolled back. `Loader.LoadCsv` never reaches that case, because every listed column is registered first (`Loader.RegisteredLoadSucceeds`).
- `verify_data` (load_data.py:235-272) only prints counts and a sample join. `connect_to_db` and `app.py` (the web front end) are not part of this model.
- `str(value)` / `float(value)` before inserting (load_data.py:180, 215): a fact keeps its `Cell`. Floating-point rounding is not modelled; numbers are exact reals.
- `to_datetime`, `to_numeric` and difflib's matching-block count are function parameters. Only what the script does with their results is modelled.
- `str.lower()` is modelled on ASCII letters only; `str.strip()` uses Python's full whitespace set.
- A rename onto a `humidity` column that already exists, which pandas allows and which yields duplicate column names: `Loader.CleanedCsvValid` assumes it does not happen.
- An insert that the database rejects still uses up an auto-increment id in MySQL. In the model a duplicate name leaves the counter unchanged. Ids stay unique and increasing either way.
- Fuzzy.RankByFrequency: ties in `value_counts` are broken by first appearance. Pandas does not promise this order. The typo-plan lemmas assume only a frequency ranking, so they hold for any tie order.
- Fuzzy.CloseMatches: with a repeated possibility, difflib returns every copy that qualifies, but the model returns one copy. The script only passes distinct values (the `value_counts` index), so this case does not arise.
- Cleaning.TextPhase: only text cells are lower-cased. A non-string value stored in an object column, which `astype(str)` would render as text, is left as it is. Such a value in the customer column therefore makes `Cleaning.Run` raise TypeError in the typo scan, where the script would have scanned its rendered text. A customer column of type `int64`, `float64`, `bool` or datetime raises in both.
- Loader.Database.PopulateRunsTable, Loader.EmitRow: a row without a listed column reads as null, where pandas would raise a KeyError. A well-formed table has every column in every row.

## Findings

| source | as written | input that shows it | evidently intended | confidence | as-written member | corrected member |
|---|---|---|---|---|---|---|
| load_data.py:172 | the value loaders number rows with `enumerate(..., start=1)`, not with the ids `populate_runs_table` just inserted (load_data.py:152-156) | a second load of a one-row table: its run gets id 2, but its fact refers to run 1, a row of the first load | each fact refers to the run inserted for its own row | high; not executed | Loader.SecondLoadFactMisjoins | Loader.FactsJoinInsertedRun |

`Loader.FactsJoinOwnRun` states the general case of the row above: the script's run ids match the inserted runs exactly when the runs table started empty. `Loader.EmitRowsFrom` numbers the facts from the first inserted id. By `Loader.EmitRowsFromOne` it agrees with the script on a fresh schema, which is the case `Loader.FreshLoadConsistent` covers. The `Loader.Database` methods keep the script's numbering, because they model the code as written.
