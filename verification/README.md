# Data-quality engine of the cleaning script

A Dafny model of the data-quality engine in `src/data_cleaning.py`. The script
loads nine CSV tables of a clinical dataset (patients, encounters, providers,
medications, procedures, observations, careplans, conditions, allergies). It
tolerates files in one of three text encodings. It checks each loaded table
for missing values, and for duplicate and malformed primary keys where a key
is declared. Then it checks fourteen foreign-key relationships against the
key columns they refer to.

The script prints its results. The model returns them as values instead: one
`Finding` per printed message, in print order, plus a `Status` that says
whether the script ran to its end or stopped at an uncaught exception.

Modules:

- `Tables` (`tables.dfy`): cells (`Null` or text), columns, and tables stored
  column by column with distinct column labels.
- `Findings` (`findings.dfy`): one constructor per message the script prints.
- `Loader` (`loader.dfy`): the encoding ladder of `read_csv_safely`. Each
  `pd.read_csv` attempt is an abstract outcome supplied by the caller: a
  table, a decoding error, or any other exception.
- `Quality` (`quality.dfy`): `check_nulls`, `check_duplicates` (pandas
  `duplicated` with `keep="first"`) and `check_data_types`. The format check
  models two details of Python's behaviour: `astype(str)` turns a missing
  value into `"nan"`, and `$` also matches before one final newline.
- `Integrity` (`integrity.dfy`): `check_fk`, including how pandas `isin`
  treats missing values.
- `Driver` (`driver.dfy`): the table declarations, the `tables` key map, the
  loop over it, the fourteen `check_fk` calls, and the whole run.

Behaviour of the code that the model keeps:

- The foreign-key count is a count of rows, and missing foreign-key values
  are counted like any other value absent from the key column.
- A table that no encoding can decode does not lead to "skipped" findings.
  Its variable holds `None`, and the first `check_fk` call that subscripts it
  raises `TypeError`, which ends the script (`RunStopsAtUnloadedTable`). The
  skip branch of `check_fk` is therefore never reached from the script
  (`RunNeverSkipsForeignKeyCheck`).
- A missing file or a missing requested column is not recorded as a load
  failure. Only decoding errors are caught, so any other exception ends the
  script (`Status.Aborted`).
- Findings come in print order: loading messages, then per-table findings in
  load order, then foreign-key findings in edge order.
- The duplicate check reports a flag, not a count. A table without a declared
  key gets no duplicate or format finding.

## Model

| member | source | states |
|---|---|---|
| Loader.TryEncodings | src/data_cleaning.py:9-17 | the ladder itself: try the encodings in order and stop at the first attempt that is not a decoding error; `FirstDecodableWins` characterises its outcome and attempts |
| Loader.FirstDecodableWins | src/data_cleaning.py:9-17 | the ladder tries a prefix of the encoding list in order; every attempt before the last raised a decoding error; the last attempt's table or exception is the result; `None` comes back exactly when every encoding raised a decoding error, and then all of them were tried |
| Loader.TryInOrder | src/data_cleaning.py:11-17 | the loop over any encoding list returns the same outcome and the same attempts as the ladder definition |
| Loader.ReadCsvSafely | src/data_cleaning.py:9-17 | `read_csv_safely` on the fixed list utf-8, ISO-8859-1, windows-1252 behaves as the ladder over that list |
| Loader.LadderBounded | src/data_cleaning.py:10-15 | one to three attempts are made, strictly in the order utf-8, ISO-8859-1, windows-1252 |
| Loader.SecondEncodingFallback | src/data_cleaning.py:10-15 | a file that fails utf-8 and parses as ISO-8859-1 is loaded on the second attempt with that table, and windows-1252 is not tried |
| Integrity.Missing | src/data_cleaning.py:35 | the offending foreign-key cells are at most as many as the rows, each occurs in the foreign-key column and none occurs in the key column |
| Integrity.MissingPerValue | src/data_cleaning.py:35 | each value absent from the key column is kept once per row holding it; values present in the key column are dropped |
| Integrity.MissingCountsOffendingRows | src/data_cleaning.py:35-37 | the missing count equals the number of foreign-key row positions whose value the key column lacks |
| Integrity.CheckFk | src/data_cleaning.py:30-39 | skip exactly when either column is absent; "valid" exactly when both are present and every foreign-key value occurs in the key column; otherwise a missing-reference finding whose count is the positive number of offending rows, naming both columns |
| Integrity.MissingCountPermutationInvariant | src/data_cleaning.py:35-37 | reordering the rows of either column leaves the missing count unchanged |
| Integrity.CheckFkPermutationInvariant | src/data_cleaning.py:35-39 | reordering the rows of either column leaves the `check_fk` finding unchanged |
| Integrity.OneMissingReference | src/data_cleaning.py:35-37 | foreign keys P1, P2, P4 against keys P1, P2, P3 give one missing reference |
| Integrity.RepeatedOffenderCountedPerRow | src/data_cleaning.py:35-37 | an offending value on two rows is counted twice |
| Integrity.NullForeignKeyMissingUnlessKeyHasNull | src/data_cleaning.py:35-39 | a missing foreign-key value counts as a missing reference unless the key column also holds a missing value |
| Tables.Col | src/data_cleaning.py:57 | `table[col]` has one cell per row and is the column stored under that label |
| Quality.NullCount | src/data_cleaning.py:42 | the null count of a column is the number of missing cells in it |
| Quality.NullColumns | src/data_cleaning.py:42-43 | the reported pairs are exactly the columns with a positive null count, each paired with its exact count |
| Quality.CheckNulls | src/data_cleaning.py:41-47 | "no nulls" exactly when no column holds a missing value; otherwise the reported counts are exactly the columns with a positive count, with their counts; the table name is kept |
| Quality.NullColumnsPermutationInvariant | src/data_cleaning.py:42-43 | the per-column counts depend only on each column's multiset of cells |
| Quality.CheckNullsPermutationInvariant | src/data_cleaning.py:41-47 | reordering the rows of a table leaves the null report unchanged |
| Quality.MarkDuplicates | src/data_cleaning.py:50 | the scan marks row i exactly when its value was seen before the scan began or occurs in an earlier row |
| Quality.Duplicated | src/data_cleaning.py:50 | `duplicated(keep="first")` marks row i exactly when an earlier row holds the same value, so a first occurrence is never marked |
| Quality.CountTrue | src/data_cleaning.py:50 | the sum of a boolean mask is at most its length and positive exactly when some entry is true |
| Quality.DuplicateCount | src/data_cleaning.py:50 | `duplicated(subset=[pk]).sum()`, the number of rows that repeat an earlier value; `DuplicateCountIsRowsMinusDistinct` gives it as rows minus distinct values |
| Quality.MarkDuplicatesCount | src/data_cleaning.py:50 | marked rows plus distinct values seen equals rows plus values seen before the scan |
| Quality.DuplicateCountIsRowsMinusDistinct | src/data_cleaning.py:50 | the duplicated-row count is the row count minus the number of distinct key values |
| Quality.DuplicateCountPermutationInvariant | src/data_cleaning.py:50 | the duplicated-row count depends only on the multiset of key values |
| Quality.CheckDuplicates | src/data_cleaning.py:49-53 | the key column is flagged exactly when two rows share a value; a table with at most one row is never flagged; the finding names the table and the key |
| Quality.DuplicatesFlaggedIffFewerDistinct | src/data_cleaning.py:49-53 | the key column is flagged exactly when it has fewer distinct values than rows |
| Quality.CheckDuplicatesPermutationInvariant | src/data_cleaning.py:49-53 | reordering the key column's rows leaves the duplicate verdict unchanged |
| Quality.IdRunLength | src/data_cleaning.py:57 | the greedy run of identifier characters at the start of a string stops at the first other character |
| Quality.MatchesIdPattern | src/data_cleaning.py:57 | `re.match` of the identifier pattern on one string; `MatchesIdPatternIff` states exactly which strings it accepts |
| Quality.MatchesIdPatternIff | src/data_cleaning.py:57 | the pattern accepts exactly the non-empty strings of letters, digits and hyphens, optionally followed by one newline |
| Quality.AsText | src/data_cleaning.py:57 | `astype(str)` on one cell: a missing value becomes "nan" and text stays as it is; `NullPassesFormatCheck` uses it |
| Quality.ColumnWellFormed | src/data_cleaning.py:57 | `.all()` of the pattern matches over a column: every cell, as text, matches; `CheckDataTypes` reports exactly the listed columns for which it fails |
| Quality.CheckDataTypes | src/data_cleaning.py:55-58 | every finding is an invalid-characters finding for a listed column with a value that fails the pattern; every listed failing column is reported; an empty table gets no finding |
| Quality.CheckDataTypesFlagsEachColumnOnce | src/data_cleaning.py:55-58 | distinct listed columns give distinct findings, so no column is flagged twice |
| Quality.NullPassesFormatCheck | src/data_cleaning.py:57 | a missing value, checked as the text "nan", passes |
| Quality.TrailingNewlinePassesFormatCheck | src/data_cleaning.py:57 | "P1" followed by a newline passes |
| Quality.SpaceFailsFormatCheck | src/data_cleaning.py:57 | "abc 123" fails |
| Driver.LoadOrderListsEveryTableOnce | src/data_cleaning.py:20-28 | every table is loaded, and no table twice |
| Driver.KeysRequested | src/data_cleaning.py:20-71 | every declared key column is among the columns requested for its table |
| Driver.EdgesWellFormed | src/data_cleaning.py:82-95 | every edge's source column is requested for its table, and every target is the `Id` column of a table declared with key `Id` |
| Driver.EveryTableOnAnEdge | src/data_cleaning.py:82-95 | every table is the source or the target of some edge |
| Driver.LoadTable | src/data_cleaning.py:9-28 | one `read_csv_safely` call on a table's file; `LoadTableOutcome` characterises its result |
| Driver.LoadTableOutcome | src/data_cleaning.py:9-28 | a `read_csv_safely` call gives no table exactly when every encoding raised a decoding error; a loaded table, or an exception, is the outcome of one of the encodings |
| Driver.LoadPhase | src/data_cleaning.py:20-28 | loading completes exactly when no table raises anything but decoding errors; an abort carries the error some table raised; after completion each variable holds its table or `None`; every message is the "unable to read" message of an undecodable file, and after completion every undecodable file has one |
| Driver.Attempted | src/data_cleaning.py:20-28 | the number of tables loaded before the first one whose load raises: every table before it loads or is undecodable, and the table at that position raises |
| Driver.UnreadableMessages | src/data_cleaning.py:16-17 | the "unable to read" messages of a list of tables are at most as many as the tables and name exactly the undecodable files among them |
| Driver.UnreadableMessagesOncePerTable | src/data_cleaning.py:16-28 | there are exactly as many messages as positions of the list holding an undecodable table, so each undecodable table gets one message |
| Driver.LoadPhaseMessages | src/data_cleaning.py:16-28 | the messages printed while loading are, in load order, those of the undecodable tables before the first table whose load raises |
| Driver.LoadPhaseAbortsAtFirstFailure | src/data_cleaning.py:20-28 | loading aborts exactly when some table's load raises, with the exception of the first such table in load order |
| Driver.LoadPhaseStopsAtFirstFailure | src/data_cleaning.py:16-28 | loading prints, in load order, one "unable to read" message per undecodable file up to the first table whose load raises, and nothing after it; it aborts exactly when such a table exists, with that table's error |
| Driver.LoadedTableHasRequestedColumns | src/data_cleaning.py:13 | when `pd.read_csv` honours `usecols`, a loaded table holds every requested column |
| Driver.ReadCsvKeepsRequestedColumns | src/data_cleaning.py:20-28 | when `pd.read_csv` honours `usecols`, every table that loads holds its requested columns |
| Driver.LoadedEnvironment | src/data_cleaning.py:20-28 | after a completed load of every table, each table variable holds the loaded table or `None` |
| Driver.KeyChecks | src/data_cleaning.py:77-79 | the duplicate and format checks on a key column report only duplicate or invalid-character findings naming that table and that column |
| Driver.CheckTable | src/data_cleaning.py:74-79 | a loaded table gets the row-count message and the null check; with a declared key it then gets the duplicate and format checks on that key, and without one nothing more; a key missing from the table raises `KeyError` on that key right after the first two messages, and nothing else is reported for the table |
| Driver.CheckIfLoaded | src/data_cleaning.py:73-79 | a table holding `None` gets no finding, and a loaded table gets exactly the findings and outcome of `CheckTable`; findings name the table and, for key checks, its declared key; the iteration raises exactly when a loaded table lacks its declared key |
| Driver.QualityPhase | src/data_cleaning.py:73-79 | every finding is a single-table finding of a loaded table, key findings are on the declared key, and the loop raises exactly when some loaded table lacks its declared key |
| Driver.QualityPhaseReportsOnlyTableChecks | src/data_cleaning.py:73-79 | the loop reports nothing else: every finding is one that `CheckTable` reports for some loaded table |
| Driver.QualityPhaseCoversLoadedTables | src/data_cleaning.py:73-79 | when the loop completes, every loaded table got its row-count message and its null check, and every loaded table with a declared key holds that column and got its duplicate check and every finding of its format check on that key |
| Driver.QualityPhaseCompletes | src/data_cleaning.py:73-79 | when every loaded table holds its requested columns, the loop runs to its end |
| Driver.QualityReportsLoadedTables | src/data_cleaning.py:73-79 | after a completed load, single-table findings name only tables that loaded, and key findings only their declared key |
| Driver.Subscript | src/data_cleaning.py:82 | subscripting yields the column exactly when the variable holds a table with that column; a variable holding `None` raises `TypeError` |
| Driver.EdgeFinding | src/data_cleaning.py:82-95 | a `check_fk` call whose arguments evaluate reports valid or missing references for that edge's table and column, never a skip |
| Driver.FkPhase | src/data_cleaning.py:82-95 | the findings are the `check_fk` findings of the edges in order; a completed phase checked every edge; an aborted phase stopped at the first edge whose arguments raise, with that exception |
| Driver.FkPhaseFindingKinds | src/data_cleaning.py:82-95 | the foreign-key calls report only valid or missing-reference findings |
| Driver.FkPhaseCompletesIff | src/data_cleaning.py:82-95 | the foreign-key calls complete exactly when every edge's arguments evaluate |
| Driver.EdgeOutcome | src/data_cleaning.py:82-95 | a well-formed edge's arguments evaluate exactly when both its tables loaded; otherwise the call raises `TypeError` on `None` |
| Driver.FkPhaseChecksEveryEdge | src/data_cleaning.py:82-95 | with every table loaded, every edge is checked, in order, by `check_fk` on the loaded columns |
| Driver.RunWith | src/data_cleaning.py:20-95 | the script over a given load order, edge list and per-table loading outcome: loading, then the single-table loop, then the foreign-key calls, each starting only when the one before completed; `RunCompletesWhenAllTablesLoad`, `RunStopsAtUnloadedTable` and `RunChecksOnlyLoadedTables` state its outcomes |
| Driver.Run | src/data_cleaning.py:20-95 | the script itself, over the nine tables and fourteen edges, with `read_csv_safely` on each file; the `Run*` lemmas below state its outcomes |
| Driver.RunFindingKinds | src/data_cleaning.py:20-95 | a run reports only loading messages, single-table findings and valid or missing-reference findings |
| Driver.RunNeverSkipsForeignKeyCheck | src/data_cleaning.py:30-33 | the skip message of `check_fk` never appears in a run of the script |
| Driver.QualityReportsOnlyTableChecks | src/data_cleaning.py:20-79 | after a completed load, every finding of the loop is one that `CheckTable` reports for a table that loaded, on that loaded table |
| Driver.RunReportsOnlyTableChecks | src/data_cleaning.py:20-95 | in a whole run, every single-table finding is one that `CheckTable` reports for a table that loaded, so no other row-count, null, duplicate or format finding appears |
| Driver.RunChecksOnlyLoadedTables | src/data_cleaning.py:73-79 | in a whole run, single-table findings name only tables that loaded, and duplicate and format findings only a table's declared key |
| Driver.RunCompletesWhenAllTablesLoad | src/data_cleaning.py:20-95 | when every table loads with its requested columns, the run completes, prints no loading message, and ends with one `check_fk` finding per edge, in order, computed on the loaded columns |
| Driver.RunStopsAtUnloadedTable | src/data_cleaning.py:20-95 | when no file raises but some file cannot be decoded, every such file gets its loading message and the run ends with the `NoneType` subscript error |
| Driver.RunOnReadableFiles | src/data_cleaning.py:20-95 | the script, with every file decodable and `usecols` honoured, completes with one `check_fk` finding per edge at its end |
| Driver.RunOnUndecodableFile | src/data_cleaning.py:20-95 | the script, with some file undecodable and no other exception, ends with the `NoneType` subscript error |

## Left out

- `detect_encoding` (src/data_cleaning.py:4-7): a wrapper over `chardet` that nothing calls.
- `src/app.py`: a dashboard of random values and sliders, with no logic that these checks depend on.
- Byte decoding and CSV parsing: each `pd.read_csv` call is the abstract outcome `readCsv(file)(encoding)`, a parameter of the model. That ISO-8859-1 decodes every byte sequence, so windows-1252 is never reached in practice, is not modelled.
- pandas type inference: cells are text or missing. Numeric columns, and the string form `astype(str)` gives them, are not modelled.
- Console text: findings are values. The wording of messages and the dictionary formatting of null counts are not modelled.
- Exception messages: an uncaught exception is a label string such as `"KeyError: Id"`, not Python's exact text.
- Driver.QualityPhase: its own contract states only which tables and columns the findings name; that they are exactly the `CheckTable` findings of loaded tables is stated by `QualityPhaseReportsOnlyTableChecks` and `QualityPhaseCoversLoadedTables`, and on an abort nothing says which loaded table lacks its declared key or which findings came before it.
- Driver.RunOnReadableFiles and Driver.RunCompletesWhenAllTablesLoad: they describe the foreign-key findings at the end of the report, not the single-table findings before them, which `QualityPhaseCoversLoadedTables` covers.
- Concurrency: the script is sequential, and nothing concurrent is modelled.
