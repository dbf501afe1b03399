# Immune cell response analysis — a Dafny model

The repository loads a flat table of per-sample immune-cell counts into a
normalised SQLite database (`src/db.py`). It then derives statistics from it
(`src/analysis.py`):

- per-sample population percentages;
- the responder cohort;
- the baseline cohort aggregates.

This project models both parts and proves properties of them.

- `wrappers.dfy` (`Wrappers`): `Option`, `Result` and `Outcome`.
- `text.dfy` (`Text`): Python's `str.strip()` and `str.lower()` (ASCII letters), and SQLite's BINARY collation as a total order on strings.
- `store.dfy` (`Store`): the database content as a value. It holds:
  - the four tables, with primary keys as map keys;
  - `cell_counts` in rowid order, with its AUTOINCREMENT counter;
  - the schema's constraints as a validity predicate;
  - the semantics of one `INSERT OR IGNORE` statement and of a sequence of them.
- `loader.dfy` (`Loader`): `load_data` as a specification.
  - Normalisation comes first: missing counts become 0, and the four text columns are stripped and lower-cased.
  - Then `drop_duplicates`.
  - Then the exact sequence of inserts the loader issues: projects, subjects, samples, then every row times every population.
  - It also holds the properties of a load: first writer wins, idempotence, constraints kept, everything stored, and the error paths.
- `database.dfy` (`Database`): the `CellCountDatabase` class, with:
  - the committed file (`disk`);
  - the optional open connection (`conn`), whose view includes uncommitted writes;
  - its methods as imperative code whose loops are proved against `Loader.Load`.
- `rounding.dfy` (`Rounding`): `ROUND(x, 2)` in exact integer hundredths, halves away from zero. Division by a zero total yields NULL.
- `analysis.dfy` (`Analysis`): `write_summary_table` and `responders_dataset`.
- `baseline.dfy` (`Baseline`): the four `baseline_summary` queries, and the summary record assembled from them.

Behaviour of the code worth noting:

- **Bad values are skipped, not errors.** A negative count, a population outside the five, or a missing or negative time is not a load error. `INSERT OR IGNORE` applies its IGNORE resolution to NOT NULL and CHECK failures, so the row is skipped. Only a foreign-key failure aborts a load (`Store.Execute`). When no row of a sample has a present, non-negative time and the sample is not already stored, the sample is never inserted. Any non-negative count of that sample then fails the `cell_counts` foreign key and aborts the load (`Loader.BadTimeAbortsLoad`).
- **A failed load is partly committed.** `load_data` does not roll back. `__exit__` commits whatever the connection holds, even when the `with` block raised. So the statements that ran before a failing one reach the file (`Database.CellCountDatabase.Exit`).
- **Loading before the schema fails only on a non-empty table.** It fails with "no such table: projects" (`Loader.LoadWithoutSchema`). An empty table issues no statement and succeeds.
- **A sample's project is not checked against its subject's project.** Nothing in the schema or the loader ties the two together.
- **'yes' plus 'no' can exceed the distinct subjects.** The two counts can together exceed the distinct baseline subjects: a subject with one baseline sample of each response is counted in both groups. The exact statement is `Baseline.ResponderCounts`: yes + no = |yes ∪ no| + |yes ∩ no|, and |yes ∪ no| ≤ distinct baseline subjects. The witness is `Baseline.BothResponsesCountTwice`.

## Model

| member | source | states |
|---|---|---|
| Text.Strip | src/db.py:109 | the result has no whitespace at either end, and is the input with its leading and trailing whitespace removed |
| Text.Lower | src/db.py:109 | the result has the same length and no upper-case letter; an upper-case ASCII letter becomes its lower-case letter, and every other character is kept |
| Text.LowerIgnoresCase | src/db.py:109 | two strings lower-case to the same text exactly when they differ only in the case of their letters |
| Text.LowerOfLowerCase | src/db.py:109 | a string without upper-case letters is its own lower-casing |
| Text.StripPadded | src/db.py:109 | stripping a trimmed string padded with whitespace on either side gives back that string |
| Text.StrLe | src/analysis.py:37 | definition of the BINARY collation on text; its order properties are `Text.StrLeTotal`, `Text.StrLeAntisymmetric` and `Text.StrLeTransitive` |
| Text.StrLeTotal | src/analysis.py:37 | any two strings are ordered by the BINARY collation one way or the other |
| Text.StrLeAntisymmetric | src/analysis.py:37 | two strings each ordered before the other are equal |
| Text.StrLeTransitive | src/analysis.py:37 | the collation order is transitive |
| Store.CELL_POPULATIONS | src/db.py:12 | the five populations, in the order the loader visits them and the `cell_counts` CHECK admits; used by `Loader.RowCellCountInserts` and `Store.Db.Valid` |
| Store.Db.Valid | src/db.py:44-95 | definition of the schema's constraints: no rows without the schema, the CHECKs, UNIQUE(sample_id, population) with growing ids, and every foreign key resolved; kept by `Store.ExecutePreservesValid` and `Store.ExecuteAllPreservesValid` |
| Store.Admissible | src/db.py:53-92 | definition of the NOT NULL and CHECK constraints a row must pass; a row failing them is skipped (`Store.ExecuteAbsorbed`) |
| Store.ParentsPresent | src/db.py:56-90 | definition of the foreign keys a row needs; when they hold no insert fails (`Store.ExecuteAllSucceeds`), when a count's sample is missing the run fails (`Store.OrphanCountFails`) |
| Store.Execute | src/db.py:113 | definition of one `INSERT OR IGNORE`: a missing table is an error, a taken key or a failed NOT NULL/CHECK skips the row, a missing parent is a foreign-key error, otherwise the row is added; its properties are `Store.ExecuteStored`, `Store.ExecuteAbsorbed` and `Store.ExecutePreservesValid` |
| Store.LookupCount | src/db.py:93 | the count stored for a (sample, population) pair is absent exactly when no row holds the pair, and is the count of a row holding it |
| Store.ExecuteAll | src/db.py:111-168 | a run keeps the schema flag; without the schema a non-empty run fails on the first statement's table and changes nothing |
| Store.CreateTables | src/db.py:40-97 | after `CREATE TABLE IF NOT EXISTS` the schema exists and every row is unchanged; a valid store stays valid; an existing schema is left as it is |
| Store.CreateTablesIdempotent | src/db.py:44-95 | creating the schema twice is creating it once |
| Store.RowCount | src/db.py:183-184 | `COUNT(*)` of each table is its number of rows; without the schema it fails with that table missing |
| Store.ExecutePreservesValid | src/db.py:44-95 | a successful insert keeps the CHECK, NOT NULL, UNIQUE and foreign-key constraints |
| Store.ExecuteStored | src/db.py:113 | after an insert, a key holds the row it held before, else the insert's own row if it writes that key |
| Store.ExecuteAbsorbed | src/db.py:113 | an insert whose key is taken, or that violates NOT NULL or CHECK, leaves the store as it is |
| Store.ExecuteAllAppend | src/db.py:111-168 | running two sequences is running the first, then the second unless the first failed |
| Store.ExecuteAllPrefix | src/db.py:160-168 | a run one statement longer runs that statement unless the shorter run failed |
| Store.ExecuteAllStops | src/db.py:160-168 | after a failure, later statements change nothing |
| Store.ExecuteAllPreservesValid | src/db.py:111-168 | every run, even one that fails part-way, leaves the constraints and references intact |
| Store.ExecuteAllFirstWriterWins | src/db.py:111-168 | after a successful run, each key holds its previous row, else the row of the first statement that writes it |
| Store.ExecuteAllAbsorbsAll | src/db.py:111-168 | after a successful run, re-running any of its statements would change nothing |
| Store.ExecuteAllNoop | src/db.py:111-168 | statements that each change nothing change nothing together |
| Store.ExecuteAllIdempotent | src/db.py:111-168 | re-running a successful sequence of `INSERT OR IGNORE` leaves the result unchanged |
| Store.ParentsPersist | src/db.py:111-168 | a parent row present before a successful run is present after it |
| Store.ExecuteAllSucceeds | src/db.py:111-168 | with the schema present and every parent present, no statement fails |
| Store.ExecuteAllErrors | src/db.py:111-168 | with the schema present, the only error a run can end with is a foreign-key failure |
| Store.OrphanCountFails | src/db.py:160-168 | a usable count for a sample that is not stored, and that no earlier statement inserts, aborts the run with a foreign-key failure |
| Loader.AsStr | src/db.py:109 | definition of `astype(str)` on a text cell: a missing value becomes "nan" |
| Loader.CanonicalText | src/db.py:108-109 | the normalised text has no whitespace at either end and no upper-case letter, and equals the stripped text (`nan` for a missing value) up to the case of its letters |
| Loader.CanonicalTextCollapses | src/db.py:108-109 | values that differ only in the whitespace around them and the case of their letters normalise to the same text |
| Loader.CanonicalTextExample | src/db.py:108-109 | "Melanoma " is stored as "melanoma" |
| Loader.CountOrZero | src/db.py:106 | definition of `fillna(0)` on a count cell; its effect per population is `Loader.NormalizedCounts` |
| Loader.NormalizeRow | src/db.py:106-109 | definition of the normalisation of one row: the four text columns canonical, the five counts with missing values as 0, the other cells unchanged |
| Loader.LoadInserts | src/db.py:111-168 | definition of the statements `load_data` issues: the de-duplicated projects, subjects and samples, then every row's counts; split into phases by `Loader.LoadInPhases` |
| Loader.Load | src/db.py:100-171 | definition of `load_data` on the connection's content: the load's statements run in order; its properties are `Loader.LoadPreservesValid`, `Loader.LoadIdempotent`, `Loader.LoadFirstWriterWins` and `Loader.LoadSucceeds` |
| Loader.NormalizeAll | src/db.py:106-109 | normalisation works row by row and keeps the number of rows |
| Loader.Distinct | src/db.py:112 | `drop_duplicates` keeps exactly the values of its input and starts with the first one |
| Loader.ProjectInserts | src/db.py:112-113 | one project insert per input row, in order |
| Loader.SubjectInserts | src/db.py:116-124 | one subject insert per input row carrying subject, project, age and sex |
| Loader.SampleInserts | src/db.py:127-157 | one sample insert per input row carrying the eight sample columns |
| Loader.RowCellCountInserts | src/db.py:161-168 | five count inserts per row, one per population in the fixed order, with the row's count for it |
| Loader.CellCountInserts | src/db.py:160-168 | the count phase issues statements exactly when there are rows |
| Loader.CellCountInsertsShape | src/db.py:160-168 | every count statement is some row's count for some population |
| Loader.CellCountInsertsCover | src/db.py:160-168 | every row's count for every population is issued |
| Loader.CanonicalTextIdempotent | src/db.py:109 | normalising normalised text changes nothing |
| Loader.NormalizedCounts | src/db.py:106 | a missing count becomes 0 and a present one is kept |
| Loader.FirstWriterDistinct | src/db.py:112-138 | de-duplication does not change which statement writes a key first |
| Loader.FirstWriterOfLoad | src/db.py:111-168 | the de-duplicated load and the undeduplicated statements have the same first writer of every key |
| Loader.FirstWriterOfPhase | src/db.py:111-168 | only the phase inserting into a table writes that table's keys |
| Loader.LoadPreservesValid | src/db.py:100-171 | every load, even a failing one, keeps the constraints and references |
| Loader.LoadIdempotent | src/db.py:100-171 | loading the same table again after a successful load changes nothing, and so no row count changes |
| Loader.LoadFirstWriterWins | src/db.py:100-171 | after a successful load each key holds its previous row, else the row of the first input row writing it |
| Loader.LoadKeepsFirstSubject | src/db.py:116-124 | a subject repeated in the input keeps the project, age and sex of its first row |
| Loader.CellCountInsertsSkip | src/db.py:160-168 | rows that all have a negative count for a pair never write it |
| Loader.CellCountInsertsFirstWriter | src/db.py:160-168 | the first row with a non-negative count for a pair writes that pair first |
| Loader.LoadKeepsFirstCount | src/db.py:160-168 | a repeated (sample, population) pair keeps the count of the first row whose count is not negative |
| Loader.LoadSucceeds | src/db.py:111-168 | with the schema and admissible times, the load succeeds and stores every project, subject and sample of the input and every non-negative count |
| Loader.LoadRuns | src/db.py:111-168 | the insert order puts every parent before its children, so the four phases run without error |
| Loader.EntityPhasesRun | src/db.py:111-157 | the project, subject and sample phases succeed and store every sample |
| Loader.ProjectsPhase | src/db.py:112-113 | the project phase succeeds and stores every project |
| Loader.SubjectsPhase | src/db.py:116-124 | once the projects exist, the subject phase succeeds and stores every subject |
| Loader.SamplesPhase | src/db.py:127-157 | once the subjects exist, the sample phase succeeds and stores every sample |
| Loader.CellCountsPhase | src/db.py:160-168 | once the samples exist, the count phase succeeds |
| Loader.LoadCovers | src/db.py:111-157 | a successful load holds every project and subject, and every sample whose time is admissible |
| Loader.LoadCoversCounts | src/db.py:160-168 | a successful load holds a row for every non-negative count |
| Loader.LoadWithoutSchema | src/db.py:100-113 | before the schema exists, a non-empty load fails at the projects insert and changes nothing; an empty one succeeds |
| Loader.BadTimeAbortsLoad | src/db.py:127-168 | in any input, a sample that is not stored and none of whose rows has a present, non-negative time is never inserted, so any non-negative count of it fails the foreign key and aborts the load |
| Loader.BadTimeSingleRow | src/db.py:111-168 | a one-row input with a missing or negative time and a non-negative b_cell count fails the foreign key, with its project and subject already stored |
| Loader.LoadInPhases | src/db.py:111-168 | a load is its four phases in turn, each starting only when the one before succeeded |
| Loader.CellCountInsertsAppend | src/db.py:160-168 | the count statements of two blocks of rows are those of the first block, then those of the second |
| Database.CellCountDatabase.constructor | src/db.py:14-16 | the object remembers the path and has no connection |
| Database.CellCountDatabase.Connect | src/db.py:29-33 | the new connection sees the committed content |
| Database.CellCountDatabase.Enter | src/db.py:18-20 | entering the context connects |
| Database.CellCountDatabase.Exit | src/db.py:22-27 | leaving the context commits the connection's view, if there is a connection, and closes it; without one nothing changes |
| Database.CellCountDatabase.Commit | src/db.py:97 | the file takes the connection's view |
| Database.CellCountDatabase.Cursor | src/db.py:35-38 | a cursor exists exactly when connected; otherwise the error is "not connected" |
| Database.CellCountDatabase.CreateSchema | src/db.py:40-98 | when connected, creates the missing tables and commits; otherwise fails with "not connected" and changes nothing |
| Database.CellCountDatabase.ExecuteStatement | src/db.py:162-168 | one statement changes the connection's view as `Execute` says, and a failing one changes nothing |
| Database.CellCountDatabase.ExecuteEach | src/db.py:112-157 | a phase's loop leaves the view and the status `ExecuteAll` gives |
| Database.CellCountDatabase.InsertCellCounts | src/db.py:160-168 | the nested loop over rows and populations leaves the view and the status of the count statements run in order |
| Database.CellCountDatabase.InsertRowCounts | src/db.py:161-168 | one row's five count inserts, in population order, leave the view and the status of running those statements on the view they started from |
| Database.CellCountDatabase.RowDone | src/db.py:160-168 | once a row's inserts have all passed, the phase has run exactly the count statements of the rows so far |
| Database.CellCountDatabase.RowFailureEndsPhase | src/db.py:160-168 | a failing count insert ends the whole phase, and the load, with that row's view and error |
| Database.CellCountDatabase.CellCountsRow | src/db.py:160-168 | the count statements of the first i + 1 rows are those of the first i followed by row i's, in population order |
| Database.CellCountDatabase.LoadData | src/db.py:100-171 | the connection ends with the result of `Load`; the file takes it only when the load succeeded; unconnected, it fails with "not connected" |
| Database.CellCountDatabase.InitializeDatabase | src/db.py:173-176 | creating the schema (committed), then loading |
| Database.CellCountDatabase.VerifyCounts | src/db.py:178-185 | the map has exactly the four table names, each mapped to its row count; the errors are "not connected" and the missing `projects` table |
| Rounding.RoundDiv | src/analysis.py:34 | the result is the nearest integer to a/b, halves away from zero |
| Rounding.Percentage | src/analysis.py:34 | NULL exactly when the total is 0; otherwise the share in hundredths of a percent, within half a hundredth |
| Rounding.RoundDivBetween | src/analysis.py:162 | rounding keeps a quotient between integer bounds |
| Rounding.PercentageBounds | src/analysis.py:34 | a count within its total has a percentage between 0 and 100.00 |
| Analysis.SampleTotal | src/analysis.py:24-28 | definition of the `sample_totals` CTE, `SUM(count)` over a sample's rows; bounded by `Analysis.CountWithinTotal`, and the shares it divides sum to 100 by `Analysis.SharesSumTo100` |
| Analysis.CountWithinTotal | src/analysis.py:24-28 | with no negative count, each count is between 0 and its sample's total |
| Analysis.JoinedRows | src/analysis.py:29-36 | one joined row per `cell_counts` row, with the sample's total and rounded share |
| Analysis.RowLeTotal | src/analysis.py:37 | the (sample, population) order is total |
| Analysis.RowLeTransitive | src/analysis.py:37 | the (sample, population) order is transitive |
| Analysis.InsertRow | src/analysis.py:37 | inserting into sorted rows keeps them sorted and adds exactly that row |
| Analysis.SortRows | src/analysis.py:37 | the output is sorted by (sample, population) and is a permutation of the input |
| Analysis.SummaryTable | src/analysis.py:22-41 | without the schema the query fails on `cell_counts`; otherwise the rows are the join, sorted |
| Analysis.SummaryTableRows | src/analysis.py:23-38 | a row is in the table exactly when it is some stored count with its sample's total and share |
| Analysis.SharesSumTo100 | src/analysis.py:24-34 | the unrounded percentages of a sample with a non-zero total add up to exactly 100 |
| Analysis.ShareBounds | src/analysis.py:34 | each unrounded percentage, and its rounding, lies between 0 and 100 |
| Analysis.RoundedSharesNear100 | src/analysis.py:34 | the rounded percentages of a sample with n rows add up to 100 within n/2 hundredths |
| Analysis.RowsArePopulations | src/db.py:93 | with unique (sample, population) pairs, a sample has one row per population it has |
| Analysis.AtMostFiveRows | src/analysis.py:24-36 | in a valid database a sample has at most five rows, and its rounded percentages add up to 100 within 0.02 |
| Analysis.InCohort | src/analysis.py:59-61 | definition of the cohort filter: condition 'melanoma', treatment 'miraclib', sample type 'pbmc' |
| Analysis.IsResponderSample | src/analysis.py:59-62 | definition of the responder filter: in the cohort with response 'yes' or 'no'; used by `Analysis.ResponderRowsUpTo` |
| Analysis.ResponderRowsUpTo | src/analysis.py:51-62 | a row is output exactly when it comes from a count whose sample is in the cohort with response 'yes' or 'no' |
| Analysis.RespondersDataset | src/analysis.py:44-64 | without the schema the query fails on `cell_counts` |
| Analysis.ResponderPercentagesMatchSummary | src/analysis.py:44-63 | every responder row belongs to a cohort sample with a known response, carries that response, and has the percentage the summary table gives its (sample, population) |
| Baseline.IsBaseline | src/analysis.py:124-127 | definition of the baseline filter: in the cohort at time 0; its sample set is `Baseline.BaselineIds` |
| Baseline.BaselineIds | src/analysis.py:123-127 | the baseline samples are exactly those in the cohort at time 0 |
| Baseline.SamplesOfProjects | src/analysis.py:119-130 | the baseline samples of a set of projects |
| Baseline.ProjectSampleCounts | src/analysis.py:119-130 | one group per project with a baseline sample, holding its number of distinct samples (at least 1) |
| Baseline.SumValues | src/analysis.py:180 | definition of the sum of the group counts; order-independent by `Baseline.SumValuesRemove` |
| Baseline.SumValuesRemove | src/analysis.py:180 | the sum of the group counts does not depend on the order of the groups |
| Baseline.GroupsPartitionSamples | src/analysis.py:180 | the per-project counts add up to the number of samples of those projects |
| Baseline.SubjectsWithResponse | src/analysis.py:132-144 | the distinct subjects with a baseline sample of a given response |
| Baseline.BaselineSubjects | src/analysis.py:132-144 | the distinct subjects with a baseline sample |
| Baseline.ResponseSubjectCounts | src/analysis.py:132-144 | groups exist for 'yes' and 'no' exactly when they have a subject, each holding its number of distinct subjects |
| Baseline.SubjectsWithSex | src/analysis.py:146-158 | the distinct joined subjects of a given sex, NULL being its own group |
| Baseline.SexSubjectCounts | src/analysis.py:146-158 | one group per sex value that has a subject, holding its number of distinct subjects |
| Baseline.MatchCount | src/analysis.py:162-172 | definition of the number of rows `AVG` averages: male responders' b_cell counts at baseline; empty exactly as `Baseline.MatchCountZero` says |
| Baseline.MatchSum | src/analysis.py:162-172 | definition of the sum of those counts; bounded by `Baseline.MatchSumBetween` |
| Baseline.MatchCountZero | src/analysis.py:160-173 | the average's input is empty exactly when no count matches the filters |
| Baseline.MatchSumBetween | src/analysis.py:162 | the sum of k matching counts is between k times their smallest and k times their largest value |
| Baseline.AvgBCellsMaleResponders | src/analysis.py:160-173 | NULL exactly when no row matches; otherwise the mean in hundredths, within half a hundredth |
| Baseline.AvgWithinCounts | src/analysis.py:162 | the rounded mean lies between the smallest and the largest matching count |
| Baseline.GroupCount | src/analysis.py:185-197 | the count of a group the query returned, else 0 |
| Baseline.Summarize | src/analysis.py:175-207 | without the schema the first query fails on `samples`; `baseline_projects` is the number of project groups |
| Baseline.BaselineSampleCount | src/analysis.py:175-201 | `baseline_samples` is the number of distinct baseline samples; `baseline_projects` is at most that, and 0 exactly when it is |
| Baseline.ResponderCounts | src/analysis.py:183-189 | the responder and non-responder counts are the distinct 'yes' and 'no' subjects (0 when absent), and add up to their union plus their overlap |
| Baseline.BothResponsesCountTwice | src/analysis.py:132-144 | one subject with a 'yes' and a 'no' baseline sample is counted twice, against one distinct subject |
| Baseline.SexCounts | src/analysis.py:191-197 | the male and female counts are the distinct subjects whose sex is exactly "M" and "F" (0 when absent); together they are at most the distinct joined subjects |
| Baseline.EmptyCohort | src/analysis.py:180-207 | with no baseline sample every count is 0 and the average is NULL |

## Left out

- `compare_responders` (`src/analysis.py:89-115`): floating-point means, scipy's `ttest_ind` and an order by float p-values.
- `save_responders_boxplot`: rendering only.
- `main` in both files, `ensure_dir`, and the file writing (`to_csv`): command-line dispatch and I/O.
- `query_df`: the connection it opens per query is the model's database value.
- `pd.read_csv` is not part of this model. The input table is given as rows with typed cells. A missing column or an unparsable file is not modelled.
- Logging, the `row_factory`, and the `foreign_keys` pragma. The pragma is always on in the model.
- `ON DELETE` / `ON UPDATE CASCADE` are not modelled: the system never deletes or updates rows.
- Text.Lower: folds only the ASCII letters A to Z. Other Unicode case mappings of `str.lower()` (an accented capital, say) are not modelled, and `Loader.CanonicalText` inherits this.
- Counts are integers. A fractional count truncated by `astype(int)`, and counts too large for 64 bits, are not modelled.
- A NULL key (a missing project, subject or sample id) is not modelled.
- `ROUND` and `AVG` are modelled exactly, in hundredths, with no IEEE-754 double arithmetic. A tie that a double would round the other way is not modelled.
- An ignored `cell_counts` insert does not advance the AUTOINCREMENT counter in the model.
- The order of the rows of `responders_dataset`, and of the three baseline breakdown tables, is not modelled: they are results as sets and maps. Only the summary record is built from them.
- RoundDiv: its rounding bounds are stated for a positive divisor only, the only kind the queries use.
- Distinct: its contract states that it keeps exactly the input's values and starts with the first. It does not state that no value repeats. What a load depends on, the first writer of each key, is proved unchanged by `Loader.FirstWriterDistinct`.
- CellCountInserts: its own contract states only that it is empty exactly for no rows. Its content is given by `Loader.CellCountInsertsShape` and `Loader.CellCountInsertsCover`, and its order, row by row, by `Database.CellCountDatabase.CellCountsRow`.
- Percentage: its rounding bound is stated for a non-negative count, which the `count >= 0` CHECK guarantees for stored rows.
- AvgBCellsMaleResponders: its rounding bound is stated for a non-negative sum, which the same CHECK guarantees.
- Summarize: this is a specification function rather than executable code, because the sum over the project groups picks the groups in no fixed order.
