# Income tracker core, modelled in Dafny

A tutor records each day's students and price per student. The application stores
these rows in a hosted `records` table and shows:

- today's totals and the current month's totals, with a per-day profit chart;
- the option to snapshot a month into an `archives` row.

This can be done for the current month, or for a selection of earlier months
grouped from the stored records. Archived months can be listed newest first and
deleted.

This project models the five components that hold that logic. Each one becomes a
Dafny module:

| module | source | form |
|---|---|---|
| `IncomeForm` | components/income-form.tsx | class `FormState` with `HandleSubmit`, and the pure profit formula |
| `MonthlySummary` | components/monthly-summary.tsx | pure month filter and sums, a loop method `ChartData`, class `SummaryState` with `HandleArchive` |
| `PreviousMonthArchiver` | components/previous-month-archiver.tsx | loop method `GroupBy`, loop method `ArchiveMonths` proved against the recursive `RunBatch`, class `ArchiverState` with `LoadMonthlyData`, `HandleMonthSelection` and `HandleArchiveSelected` |
| `ArchivesView` | components/archives-view.tsx | class `ArchivesState` with `FetchArchives`, `HandleDelete` and `OnOpenChange` |
| `RecordsTable` | components/records-table.tsx | pure functions |

Four supporting modules hold shared pieces:

- `Collections`: filter, stable newest-first sort, distinctness.
- `Schema`: the row types of lib/supabase.ts, dates, and the four running sums.
- `Store`: the two tables as a value `Db`, and the queries run against them.
- `MonthKeys`: the `${year}-${month}` key, and reading it back with `split('-').map(Number)`.

The backend is a value. Every handler takes the current `Db` and returns the new
one. Whatever the backend or the browser decides is a parameter of the handler:

- whether a user is signed in;
- whether each request succeeds;
- the ids and timestamps the backend assigns;
- today's date.

React state becomes class fields, and each handler is a method that `modifies
this`. Amounts are `real`, so sums are exact. A `reduce` is the left fold
`Aggregate`.

Some behaviours of the code are easy to miss. The model keeps each of them as the
code has it:

- The batch path for earlier months stops at the first failed insert. The error
  is thrown out of the loop, later selected months are not processed, and the
  archives already inserted in that run stay
  (components/previous-month-archiver.tsx:173).
  `PreviousMonthArchiver.BatchAbortsOnFailure` states this.
- The batch path deletes no records at all. `PreviousMonthArchiver.BatchKeepsRecords`
  states this.
- The current-month path deletes every record whose id is not the nil UUID,
  whatever its month and whoever owns it (components/monthly-summary.tsx:134-137).
  `MonthlySummary.PurgeDropsOtherMonths` states this.
- Both duplicate checks read only the returned row and ignore the request's error
  (components/monthly-summary.tsx:93-101, components/previous-month-archiver.tsx:144-152).
  A failed check therefore lets a second archive of the same month through.
  `MonthlySummary.FailedCheckAllowsDuplicate` states this. Once a month is stored
  twice, `maybeSingle` errs on every later check, so the guard never fires for
  that month again. `Store.DuplicateDisablesGuard` states this.
- The chart's last step sorts its points by their display label `d MMM`, parsed
  back into a date (components/monthly-summary.tsx:58-60). That step is not modelled
  (see Left out).

## Model

| member | source | states |
|---|---|---|
| Collections.SortNewestFirst | components/previous-month-archiver.tsx:91-94 | the result is ordered by (year, month) descending and is a permutation of the input (same multiset, same length) |
| Collections.SortKeepsKeysDistinct | components/previous-month-archiver.tsx:74-94 | sorting a list with pairwise distinct (year, month) keys keeps them distinct |
| Collections.FilterKeepsDistinct | components/previous-month-archiver.tsx:110-116 | removing elements from a duplicate-free selection (JS `Set.delete`) leaves it duplicate-free |
| Collections.Filter | components/monthly-summary.tsx:20-23 | `filter` keeps exactly the elements satisfying the predicate, and no more elements than the input |
| Schema.Aggregate | components/monthly-summary.tsx:25-37 | the four `reduce` sums start from zero: the empty list sums to zero |
| Schema.RecordsOn | components/records-table.tsx:10-12 | the records on a date are exactly the input's records with that date |
| Schema.AggregateAppend | components/monthly-summary.tsx:25-37 | the four `reduce` sums are additive over concatenation |
| Schema.AggregateSnoc | components/monthly-summary.tsx:26-29 | one more record adds exactly its own four fields to the sums |
| Schema.AggregateSingleton | components/previous-month-archiver.tsx:76-79 | the sums over one record are its own fields |
| Store.InsertRecord | components/income-form.tsx:42-50 | the row is appended after the existing ones, which stay as they were; archives are untouched |
| Store.InsertArchive | components/monthly-summary.tsx:112-121 | the row is appended after the existing ones, which stay as they were; records are untouched |
| Store.Matching | components/monthly-summary.tsx:93-98 | the query returns exactly the stored archives of that user, month and year |
| Store.PurgeRecords | components/monthly-summary.tsx:134-137 | after the purge only nil-UUID rows remain, all of them remain, and archives are untouched |
| Store.DeleteArchive | components/archives-view.tsx:38 | exactly the archives with that id go; records are untouched |
| Store.RecordsOf | components/previous-month-archiver.tsx:43-47 | the fetched records are exactly the user's rows |
| Store.ArchivesOf | components/previous-month-archiver.tsx:52-55 | the fetched archives are exactly the user's rows |
| Store.MaybeSingle | components/previous-month-archiver.tsx:144-150 | no row iff nothing matches, an error iff more than one row matches, otherwise the one row |
| Store.ExistingArchive | components/monthly-summary.tsx:93-101 | a found archive is a stored one for that user, month and year; a failed request reads as "none"; two or more matches (the `maybeSingle` error) read as "none"; with exactly one match and a succeeding request it is found |
| Store.DuplicateDisablesGuard | components/monthly-summary.tsx:93-101 | once a month is stored twice, every later check reads "none" and every later insert leaves it stored at least twice |
| Store.UniqueMatchesAtMostOne | components/monthly-summary.tsx:92-99 | with at most one archive per (user, month, year), the check's query matches at most one row |
| Store.ExistingArchiveExact | components/monthly-summary.tsx:92-109 | with unique keys and a succeeding request, the check finds an archive iff one is stored |
| Store.InsertKeepsUnique | components/monthly-summary.tsx:111-121 | inserting an archive whose key is free keeps keys unique |
| MonthKeys.Decimal | components/previous-month-archiver.tsx:65 | the decimal rendering of a number is a non-empty digit string |
| MonthKeys.Number | components/previous-month-archiver.tsx:75 | on the digit strings month keys hold, `Number` gives a value iff the text is all digits; the empty text reads as 0 (other JavaScript number syntax: see Left out) |
| MonthKeys.FormatKey | components/previous-month-archiver.tsx:65 | the key splits at its dash into exactly the decimal year and the decimal month |
| MonthKeys.ParseKey | components/previous-month-archiver.tsx:75 | a key parses iff it has at least two dash-separated pieces and the first two are all digits |
| MonthKeys.SplitAppend | components/previous-month-archiver.tsx:75 | splitting at a separator placed between two strings splits each side apart |
| MonthKeys.ParseKeyIgnoresRest | components/previous-month-archiver.tsx:75 | destructuring takes the first two pieces: text after a further dash does not change the parse |
| MonthKeys.Split | components/previous-month-archiver.tsx:75 | `split` yields at least one piece |
| MonthKeys.DecimalRoundTrip | components/previous-month-archiver.tsx:65-75 | reading the decimal rendering back gives the number |
| MonthKeys.ParseFormatRoundTrip | components/previous-month-archiver.tsx:65-75 | parsing a formatted month key gives back its year and month |
| MonthKeys.FormatKeyInjective | components/previous-month-archiver.tsx:65 | two months share a key iff they are the same month |
| IncomeForm.Compute | components/income-form.tsx:26-28 | teacher profit plus school profit is students × 15, teacher profit is five times school profit, total is students × price, all zero without students |
| IncomeForm.NewRecord | components/income-form.tsx:42-50 | the inserted row follows the rates and carries the user, date, count and price given |
| IncomeForm.TotalIndependentOfSplit | components/income-form.tsx:26-28 | the total equals the two profits together iff there are no students or the price is 15 |
| IncomeForm.Preview | components/income-form.tsx:123-135 | the preview shows iff both fields are filled, and then its two profits add to students × 15 |
| IncomeForm.PreviewMatchesSubmission | components/income-form.tsx:123-135 | the preview shows the amounts a submission of the same fields stores |
| IncomeForm.AggregateFollowsRates | components/income-form.tsx:26-27 | sums over rows that follow the rates follow them too |
| IncomeForm.NoDuplicateDateCheck | components/income-form.tsx:42-50 | two submissions for one date add two rows for that date |
| IncomeForm.FormState.constructor | components/income-form.tsx:13-16 | empty count, price 15, not loading |
| IncomeForm.FormState.HandleSubmit | components/income-form.tsx:19-69 | without a user or on insert error nothing is written and the fields stay; on success one row is inserted, the count clears, the price resets, and the callback fires |
| MonthlySummary.CurrentMonthIsCalendarMonth | components/monthly-summary.tsx:17-23 | for valid dates the inclusive month range is "same year and month" |
| MonthlySummary.MonthlyRecords | components/monthly-summary.tsx:20-23 | exactly the input's records in the current month |
| MonthlySummary.MonthlyStats | components/monthly-summary.tsx:25-37 | all sums are zero when the month has no records |
| MonthlySummary.MonthlyStatsAdditive | components/monthly-summary.tsx:25-37 | the monthly sums are additive over the record list |
| MonthlySummary.MonthlyStatsSnoc | components/monthly-summary.tsx:20-37 | a new record changes the sums iff it is in the current month, and then by its own fields |
| MonthlySummary.IndexOfDate | components/monthly-summary.tsx:43-44 | the lookup returns the point for the date, or -1 when there is none |
| MonthlySummary.ChartOpenPoint | components/monthly-summary.tsx:49-55 | a record with a new date opens a point that keeps the chart invariant |
| MonthlySummary.ChartMergePoint | components/monthly-summary.tsx:46-48 | a record with a known date adds to that point and keeps the chart invariant |
| MonthlySummary.ChartData | components/monthly-summary.tsx:39-57 | one point per distinct date of the month's records, each holding the profit sums over that date |
| MonthlySummary.Snapshot | components/monthly-summary.tsx:112-121 | the inserted row is for the user and today's month and year, holds the month's records, and its totals are their sums |
| MonthlySummary.SnapshotIsTheMonth | components/monthly-summary.tsx:112-121 | the snapshot holds exactly the records of its month, and its totals are their sums |
| MonthlySummary.SnapshotFollowsRates | components/monthly-summary.tsx:116-118 | snapshot totals obey the 12.5 / 2.5 split when the rows do |
| MonthlySummary.ArchiveKeepsKeysUnique | components/monthly-summary.tsx:92-121 | a passing check followed by the insert keeps one archive per (user, month, year) |
| MonthlySummary.FailedCheckAllowsDuplicate | components/monthly-summary.tsx:93-101 | when the check request fails while the month is archived, the insert creates a duplicate |
| MonthlySummary.PurgeDropsOtherMonths | components/monthly-summary.tsx:133-137 | records of other months are deleted although the snapshot does not hold them |
| MonthlySummary.SummaryState.constructor | components/monthly-summary.tsx:14 | not archiving |
| MonthlySummary.SummaryState.HandleArchive | components/monthly-summary.tsx:63-169 | the outcome follows the order of checks (no records, no user, existing archive, insert error, delete error); nothing is written before a failure; the snapshot is inserted, and the purge runs only after it |
| PreviousMonthArchiver.WithKey | components/previous-month-archiver.tsx:63-71 | a group is never longer than the record list |
| PreviousMonthArchiver.WithKeyMembers | components/previous-month-archiver.tsx:63-71 | a group holds exactly the records with its key |
| PreviousMonthArchiver.WithKeyNone | components/previous-month-archiver.tsx:63-71 | a key no record has gets an empty group |
| PreviousMonthArchiver.WithKeySnoc | components/previous-month-archiver.tsx:70 | `push` appends the record to its own group only |
| PreviousMonthArchiver.InMonthKey | components/previous-month-archiver.tsx:63-71 | the group of a key holds exactly the records with that key |
| PreviousMonthArchiver.SumOfGroupsSnoc | components/previous-month-archiver.tsx:74-79 | adding a key adds its group's sums |
| PreviousMonthArchiver.SumOfGroupsOther | components/previous-month-archiver.tsx:67-70 | changing a group outside the key list leaves the sum unchanged |
| PreviousMonthArchiver.SumOfGroupsBumpHead | components/previous-month-archiver.tsx:70 | pushing a record onto the first listed group, which no later key repeats, adds exactly that record |
| PreviousMonthArchiver.SumOfGroupsBump | components/previous-month-archiver.tsx:70 | pushing a record onto a listed group adds exactly that record |
| PreviousMonthArchiver.GroupStepKeys | components/previous-month-archiver.tsx:67-69 | a new key is appended once, keeping keys distinct and in step with the map |
| PreviousMonthArchiver.GroupStepKeySet | components/previous-month-archiver.tsx:67-70 | the map's keys are the keys of the records seen |
| PreviousMonthArchiver.GroupStepContents | components/previous-month-archiver.tsx:67-70 | every group equals the seen records with its key |
| PreviousMonthArchiver.GroupStepShape | components/previous-month-archiver.tsx:63-71 | one step keeps keys, map and contents right |
| PreviousMonthArchiver.GroupStepSumOld | components/previous-month-archiver.tsx:70 | a record with a known key keeps the sum of the groups equal to the sum of the records |
| PreviousMonthArchiver.GroupStepSumNew | components/previous-month-archiver.tsx:67-70 | a record with a new key does too |
| PreviousMonthArchiver.GroupStepSum | components/previous-month-archiver.tsx:63-71 | either way the sums are preserved |
| PreviousMonthArchiver.GroupStep | components/previous-month-archiver.tsx:63-71 | one iteration of the grouping loop keeps the grouping invariant |
| PreviousMonthArchiver.GroupedEmpty | components/previous-month-archiver.tsx:60 | the empty map groups the empty list |
| PreviousMonthArchiver.GroupBy | components/previous-month-archiver.tsx:60-71 | keys distinct, one per key of the records; each group is exactly its records, in order; the groups' sums add up to the sum of all records |
| PreviousMonthArchiver.GroupingPartitions | components/previous-month-archiver.tsx:60-71 | every record lands in exactly one group, its own key's, and no group is empty |
| PreviousMonthArchiver.KeyOfGroup | components/previous-month-archiver.tsx:74-75 | every grouping key parses back to the month it was formatted from |
| PreviousMonthArchiver.InMonthKeyExact | components/previous-month-archiver.tsx:63-71 | a month's group holds exactly the records of that year and month |
| PreviousMonthArchiver.ArchivedKeys | components/previous-month-archiver.tsx:61 | every stored archive's key is in the set, and every key in it parses |
| PreviousMonthArchiver.ToMonthlyData | components/previous-month-archiver.tsx:74-90 | the entry's year and month are those its key parses to, it holds the group's records, its totals are their sums, and it is flagged iff its key is archived |
| PreviousMonthArchiver.BuildMonthlyData | components/previous-month-archiver.tsx:74-90 | one entry per key, in key order, each true to its key's group and archived flag |
| PreviousMonthArchiver.ArchivedKeysExact | components/previous-month-archiver.tsx:61-89 | a month is flagged archived iff an archive for it is stored |
| PreviousMonthArchiver.BuiltEntries | components/previous-month-archiver.tsx:74-90 | each built entry is true to its month: its records, their sums, its archived flag |
| PreviousMonthArchiver.BuiltDistinctCovering | components/previous-month-archiver.tsx:74-90 | one entry per month, covering every record |
| PreviousMonthArchiver.BuildIsMonthlyView | components/previous-month-archiver.tsx:74-94 | the sorted list is newest first, one entry per month, every entry true, every record covered |
| PreviousMonthArchiver.MonthlyViewPartitions | components/previous-month-archiver.tsx:60-94 | every record is in exactly one entry, the one of its own year and month |
| PreviousMonthArchiver.BuildSum | components/previous-month-archiver.tsx:74-90 | the entries' totals add up to the groups' sums |
| PreviousMonthArchiver.InsertSum | components/previous-month-archiver.tsx:91-94 | inserting into the sorted list adds the entry's totals |
| PreviousMonthArchiver.SortSum | components/previous-month-archiver.tsx:91-94 | sorting keeps the sum of the totals |
| PreviousMonthArchiver.MonthList | components/previous-month-archiver.tsx:59-94 | the computed list is newest first, one entry per month, every entry true to its month's records and archives, every record's month listed, and its totals add up to the sum of all records |
| PreviousMonthArchiver.LoadedList | components/previous-month-archiver.tsx:59-96 | the loaded list is the month view of the records and archives, and its totals add up to the sum of all records |
| PreviousMonthArchiver.FindMonth | components/previous-month-archiver.tsx:138-139 | a found entry is in the list with that year and month; none means no entry has them |
| PreviousMonthArchiver.FindMonthFirst | components/previous-month-archiver.tsx:138-139 | `find` returns the first matching entry: no entry before it has that year and month |
| PreviousMonthArchiver.FindMonthUnique | components/previous-month-archiver.tsx:138-139 | in a list with one entry per month, `find` returns the entry of that month |
| PreviousMonthArchiver.MonthArchive | components/previous-month-archiver.tsx:162-171 | the inserted row is for the user and the entry's month and year, holds the entry's records and copies its totals |
| PreviousMonthArchiver.MonthArchiveIsTheMonth | components/previous-month-archiver.tsx:162-171 | the archive inserted for an entry holds exactly that month's records, with their sums |
| PreviousMonthArchiver.BatchKeepsRecords | components/previous-month-archiver.tsx:137-176 | the batch deletes no record |
| PreviousMonthArchiver.BatchCountsInserts | components/previous-month-archiver.tsx:137-176 | the count equals the number of archives appended, and earlier archives are kept in place |
| PreviousMonthArchiver.BatchArchivesListedMonths | components/previous-month-archiver.tsx:137-171 | every new archive copies an unflagged list entry for the user, and its month and year are those of a selected key |
| PreviousMonthArchiver.BatchKeepsArchives | components/previous-month-archiver.tsx:137-176 | every archive stored before the batch is still stored after it |
| PreviousMonthArchiver.BatchRunsThrough | components/previous-month-archiver.tsx:162-173 | when no selected key's insert fails, the loop is not aborted |
| PreviousMonthArchiver.BatchCoversSelected | components/previous-month-archiver.tsx:137-176 | after a batch that is not aborted, every selected month that is listed and not flagged has an archive for the user |
| PreviousMonthArchiver.SelectedMonthsArchived | components/previous-month-archiver.tsx:137-176 | with one entry per month, after a batch that runs through, every selected month (by its own key) that was listed and not flagged has an archive for the user |
| PreviousMonthArchiver.BatchArchivesEachSelectedOnce | components/previous-month-archiver.tsx:137-176 | with unique keys, no failed check and no failed insert, every such month ends with exactly one archive for the user |
| PreviousMonthArchiver.BatchKeepsKeysUnique | components/previous-month-archiver.tsx:144-171 | when no check request fails, the batch keeps one archive per (user, month, year) |
| PreviousMonthArchiver.BatchAbortsOnFailure | components/previous-month-archiver.tsx:173 | once an insert fails, later keys are not processed |
| PreviousMonthArchiver.RunBatch | components/previous-month-archiver.tsx:137-176 | the count grows by at most one per selected key, and an aborted run names a selected key whose insert failed |
| PreviousMonthArchiver.RunBatchStep | components/previous-month-archiver.tsx:137-176 | one iteration of the loop: skip, duplicate, throw or insert |
| PreviousMonthArchiver.ArchiveMonths | components/previous-month-archiver.tsx:135-176 | the loop's store, count and failure flag are those of the recursive batch definition |
| PreviousMonthArchiver.ArchiverState.constructor | components/previous-month-archiver.tsx:25-28 | empty list, loading, nothing archiving, nothing selected |
| PreviousMonthArchiver.ArchiverState.LoadMonthlyData | components/previous-month-archiver.tsx:35-107 | with no user or a failed fetch the list is kept; otherwise it is the month view of the user's records and archives, with totals adding up to all the records; loading ends either way |
| PreviousMonthArchiver.ArchiverState.HandleMonthSelection | components/previous-month-archiver.tsx:109-117 | afterwards the key is selected iff `selected`, all other keys are unchanged, and the selection stays duplicate-free |
| PreviousMonthArchiver.ArchiverState.HandleArchiveSelected | components/previous-month-archiver.tsx:119-197 | empty selection: nothing happens; no user: nothing written; otherwise the batch runs; a failure keeps the selection and list; success reports the count, leaves every selected, listed, unflagged month archived for the user, reloads and clears the selection; loading is untouched on the no-user and failure paths and ends after the reload; the busy set is emptied |
| ArchivesView.ListArchives | components/archives-view.tsx:25-29 | each stored archive exactly once, ordered by year then month, descending |
| ArchivesView.ListingAfterDelete | components/archives-view.tsx:37-53 | after a delete the relisted archives are the old ones minus that id; records are untouched |
| ArchivesView.FirstIsNewest | components/archives-view.tsx:27-29 | the first listed archive is of the newest stored month |
| ArchivesView.Toggle | components/archives-view.tsx:100-101 | the card becomes open iff it was closed, and no other card is open |
| ArchivesView.ToggleTwice | components/archives-view.tsx:100-101 | a double toggle restores the state only if no other card was open |
| ArchivesView.Render | components/archives-view.tsx:60-97 | the loading card while loading, the empty message iff there are no archives, else one card per archive in order |
| ArchivesView.ArchivesState.constructor | components/archives-view.tsx:15-17 | empty list, loading, nothing expanded |
| ArchivesView.ArchivesState.FetchArchives | components/archives-view.tsx:24-35 | a successful fetch replaces the list with the ordered listing; a failed one keeps it; loading ends either way |
| ArchivesView.ArchivesState.HandleDelete | components/archives-view.tsx:37-53 | a failed delete changes nothing and does not refetch; a successful one removes exactly that id and refetches; records are never touched |
| ArchivesView.ArchivesState.OnOpenChange | components/archives-view.tsx:97-101 | the clicked card is open afterwards iff it was closed, and at most one card is open |
| RecordsTable.TodayRecords | components/records-table.tsx:10-12 | exactly the records dated today |
| RecordsTable.TodaySummary | components/records-table.tsx:14-20 | the card shows iff some record is dated today |
| RecordsTable.TodaySummarySnoc | components/records-table.tsx:14-16 | a record changes the card only if it is dated today, and then by its own figures |
| RecordsTable.TodayWithinMonth | components/records-table.tsx:10-16 | today's student count never exceeds the current month's |
| RecordsTable.Body | components/records-table.tsx:53-70 | the empty message iff there are no records at all, else one row per record in input order |
| RecordsTable.CardImpliesRows | components/records-table.tsx:20-54 | a shown card implies a non-empty table, but not the converse |

## Left out

- Backend I/O, authentication and row-level security are not modelled as
  services. Their outcomes are handler parameters. `ListArchives` lists every
  stored archive, since the query in components/archives-view.tsx:25-29 has no
  owner filter and relies on row-level security, which is not part of this model.
- Asynchrony: each handler runs to completion, so interleavings of
  `loadMonthlyData`, `fetchArchives` and the archive handlers, and the
  check-then-insert race, are not modelled.
- Floating point: amounts are exact reals. `toFixed(2)` display rounding is not
  modelled, and neither is `Number(...)` on numeric columns.
- `parseInt` and `parseFloat` of the form fields: the fields are modelled as
  already-parsed values or empty. `NaN` from malformed text is not modelled,
  because the inputs are `type="number"` and `required`.
- Date handling by `Date` and date-fns is not modelled. That covers
  `new Date('YYYY-MM-DD')` parsing as UTC versus local months, `toISOString`
  and `startOfMonth`. Dates are calendar triples, and "today" is a parameter.
- MonthlySummary.ChartData: the final sort on the display label `d MMM` parsed
  back with `new Date` is not modelled. The order of the points is not specified.
- Store.RecordsOf: the server-side `order('date', { ascending: false })` on the
  records fetch (components/previous-month-archiver.tsx:47) is not modelled; the
  fetched records keep store order. The records inside each month entry that
  `LoadMonthlyData` builds, and so the `records_data` of every archive the batch
  inserts, are therefore in store order where the application has them newest
  first. Which records belong to each month, and all sums, do not depend on it.
- MonthKeys.Number / MonthKeys.ParseKey: JavaScript's `Number` also reads text
  with surrounding spaces, a sign, a fraction or an exponent (`" 7"`, `"+3"`,
  `"1.5"`, `"1e2"`); the model reads digit strings only and takes everything else
  as NaN, so a key such as `"2024- 5"` matches no month in the model. Keys built by
  `${year}-${month}` are always digit strings, so the keys the interface offers are
  unaffected.
- Collections.SortNewestFirst is a stable insertion sort. `Array.prototype.sort`
  is stable too (since ECMAScript 2019), and the month list never holds two entries
  of one month. The backend's `ORDER BY year, month` is not guaranteed stable for
  equal keys, so for archives of the same month the model fixes one order where
  the backend may return another.
- Toasts, dialogs, icons, month names in Arabic, the chart component and
  app/page.tsx are presentation only.
- The `catch` branches for exceptions other than a failed request. An `Error`
  thrown for a missing user is modelled as the failure outcome.
- The `results` list in the batch loop only feeds the toast's text. Its length
  is the returned count.
