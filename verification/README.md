# Regulatory-reporting server: model and proofs

This project models the report-navigation subsystem of a regulatory-reporting server and the
self-contained algorithms and protocols around it, and proves properties of the model with
Dafny 4.11. `dafny verify dfyconfig.toml` checks every file.

Where the source changes state, the model does: classes whose methods reassign the fields the
source reassigns, loops where the source loops, each proved equal to a specification function
about which the properties are then proved. The collection lock, the provider store, the
scheduled tasks and the reporting dates, which several processes or threads share, are state
machines over values whose atomic steps are the SQL statements, transactions and locked
sections, and their properties hold of every execution, whatever the interleaving.

- **Report navigation.** `StepOrder` is the dependency ordering with its fallback for cycles,
  `StepEvaluation` the evaluation pass with manual overrides, `OrderSensitivity` the exact
  configurations in which it depends on their order, `Snapshots` the stored rows and their
  first-completion times over whole histories, `Collection` the runs that write them and keep
  step, process and card rows in agreement.
- **Calendar.** `Calendar` is one Gregorian calendar; `Periods` and `PeriodKeys` the week,
  month, quarter and year bounds, the ISO-week keys, and the independent month idioms, all
  proved against it.
- **Two fencing protocols.** `SchedulerLease` is the collection lock with its lease,
  `ProviderStore` and `ProviderFencing` the card-provider registries over one table.
- **Parsers and printers.** `YamlReader`, `YamlPrinter`, `YamlRoundTrip`; `SqlWriter` with a
  reader of MySQL literals; `Utf8`, `Multipart` and `UploadName`. `Text` and `Decimals` hold the
  string and number operations they share.
- **Drivers and schedulers.** `FlowChain` runs the flow chain against a gateway that may answer
  anything and raise at any call; `TaskSettings` and `TaskScheduler` are the scheduled-task
  manager, `TaskThreads` its threads from start to stop, `TaskOverlaps` and `TaskWitnesses` what
  they do not exclude; `Schedules` and `ScheduleRuns` the reporting dates and their inheritance
  beside manual edits.
- **Administration and lookups.** `Accounts`, `AuthManagement`, `AccountLaws` and `AccountRuns` are
  users and sessions, `Capabilities` and `CapabilityStore` the role-capability matrix, `ContractJoin` and
  `AssetCaches` the two ways of attaching contract start dates and the per-date caches.

Exceptions are values: a `Result` or an `Option` of an error. Clock readings, drawn tokens,
answers of queries, outcomes of handlers and evaluators are parameters. Step codes, task codes
and keys of table rows are unique where the source's tables make them primary keys
(storage_report_navigation.py:48-58).

## What turned out not to hold

- Reordering steps that depend on each other in a cycle can change their statuses:
  `OrderSensitivity.OrderMattersIff` says for exactly which configurations. Statuses outside
  the fallback tail never change (`StepEvaluation.ReorderKeepsReleasedStatuses`).
- Two collections can be in progress together when a run outlives its thirty-minute lease
  (`SchedulerLease.OverrunAdmitsSecondHolder`).
- An uploaded file's announced name is not always recovered: the disposition line is cut at
  every semicolon, inside quotes too, and all quotation marks at the ends of the value are
  stripped (`UploadName.FilenameReadsBackIff` gives the exact condition).
- The two ways of attaching contract start dates can differ on rows whose project or contract is
  NULL, whose project is the text `None`, or whose contract is empty
  (`ContractJoin.AlwaysAgreesIff`).
- A disabled task can have a next run (`TaskScheduler.DisabledKeepsNextRunIff`), and the running
  task can wait in the manual queue (`TaskOverlaps.RunningBecomesQueuedIff` says by which step).
- The run made by `start` can overlap another: after a stop whose join gave up, or when two
  starts are under way at once (`TaskWitnesses.StopThatGaveUp` and
  `TaskWitnesses.ConcurrentStartsOverlap`), and otherwise never
  (`TaskOverlaps.OverlapNeedsDisorder`).
- A live session's role does not follow its account's (`AccountRuns.EditLeavesSessionRoles`).
- `update_user` raises whenever no account has the acting user's id, also for an empty id: the
  initial-administrator test normalises an empty name before anything else is looked at
  (security.py:223-224 and 490-491; `AccountRuns.UnknownActorEditsNothing`).

## Model

| member | source | states |
|---|---|---|
| `StepOrder.StepsInDependencyOrder` | src/auto_check/app/report_navigation.py:594-615 | the ordering loop terminates and returns the rounds of released steps followed by the fallback tail |
| `StepOrder.ReadyNow` | src/auto_check/app/report_navigation.py:601-607 | the round's list holds the pending steps whose in-list dependencies are all resolved, in order |
| `StepOrder.TakeReady` | src/auto_check/app/report_navigation.py:611-614 | moving a round's steps one by one leaves exactly the blocked steps pending and resolves the moved codes |
| `StepOrder.OrderIsPermutation` | src/auto_check/app/report_navigation.py:594-615 | the result holds every given step exactly as often as it was given |
| `StepOrder.DependenciesComeFirst` | src/auto_check/app/report_navigation.py:594-615 | outside the fallback tail every in-list dependency of a step stands before it |
| `StepOrder.TailIsGreatest` | src/auto_check/app/report_navigation.py:608-610 | the tail is a set in which each step depends on a member of the set, and contains every such set |
| `StepOrder.TailKeepsGivenOrder` | src/auto_check/app/report_navigation.py:608-610 | the tail keeps the configured order |
| `StepOrder.TailEmptyIffAcyclic` | src/auto_check/app/report_navigation.py:594-615 | the tail is empty exactly when the in-list dependency graph has no cycle |
| `StepEvaluation.EvaluateReadsOnlyDependencies` | src/auto_check/app/report_navigation.py:149-187 | an evaluator's answer depends on the statuses of the step's own dependencies only |
| `StepEvaluation.ReleasedStatusIsSettled` | src/auto_check/app/report_navigation.py:730-803 | the status recorded for a released step is what its evaluator says of the final statuses |
| `StepEvaluation.StatusesAreASolution` | src/auto_check/app/report_navigation.py:730-803 | with acyclic dependencies the recorded statuses, overrides included, satisfy status(s) = eval(s, statuses of s's dependencies) |
| `StepEvaluation.AcyclicStatusesAreUnique` | src/auto_check/app/report_navigation.py:730-803 | they are the only statuses that do |
| `StepEvaluation.ReorderKeepsReleasedStatuses` | src/auto_check/app/report_navigation.py:594-615 | reordering the configured steps changes no status outside the fallback tail, cycles or not |
| `StepEvaluation.ReorderKeepsStatuses` | src/auto_check/app/report_navigation.py:730-803 | with acyclic dependencies reordering the configured steps changes no status at all |
| `OrderSensitivity.OrderMattersIff` | src/auto_check/app/report_navigation.py:594-615 | the order of the configured steps matters exactly when a step of the fallback tail reads other steps' statuses, does not depend on itself, and depends only on judged steps of the list |
| `OrderSensitivity.NoDifference` | src/auto_check/app/report_navigation.py:149-187 | without such a step no reordering, context or overrides give any step another status, cycles or not |
| `OrderSensitivity.OrderMattersFor` | src/auto_check/app/report_navigation.py:608-610 | every such step gets different statuses first and last in the tail, when the other judged steps are overridden |
| `StepEvaluation.CyclicOrderMatters` | src/auto_check/app/report_navigation.py:608-610 | two steps that depend on each other, as a concrete input |
| `StepEvaluation.CountReordered` | src/auto_check/app/report_navigation.py:748-803 | a count over the steps does not depend on their order |
| `StepEvaluation.JudgementIs` | src/auto_check/app/report_navigation.py:149-187 | which status each kind of evaluator gives: query answers and raises, aggregates over dependencies, and what is never judged |
| `StepEvaluation.StatusIs` | src/auto_check/app/report_navigation.py:748-777 | outside the fallback tail a step is COMPLETED exactly when overridden or when its answer, or the statuses it depends on, say so; ERROR exactly when its query fails and no override holds |
| `Snapshots.ProcessTimeLaw` | src/auto_check/app/storage_report_navigation.py:765-808 | outside pbc_central, over any history of saves that carry a time when completed: no stored time after a save that is not completed, else the time of the latest save of the current streak that opened it or did not preserve |
| `Snapshots.SetsTimeIsUnique` | src/auto_check/app/storage_report_navigation.py:765-808 | that save is unique |
| `Snapshots.PbcKeepsFirstTime` | src/auto_check/app/storage_report_navigation.py:765-808 | pbc_central keeps the time of its first completed save through any later saves |
| `Snapshots.StepTimeLaw` | src/auto_check/app/storage_report_navigation.py:810-852 | step rows obey the first law, by their automatic status |
| `Snapshots.ProcessRowsAreIndependent` | src/auto_check/app/storage_report_navigation.py:765-808 | a process row depends on the saves of its own code only, however saves of different codes interleave |
| `Snapshots.StepRowsAreIndependent` | src/auto_check/app/storage_report_navigation.py:810-852 | and so does a step row |
| `Collection.MonthRows.CollectSteps` | src/auto_check/app/report_navigation.py:748-803 | one pass stores the rows of the evaluation in dependency order and returns the counts of judged completed and of failed steps |
| `Collection.MonthRows.CollectProcess` | src/auto_check/app/report_navigation.py:730-831 | the process row is COMPLETED exactly when the completed judged steps equal a positive total, otherwise ERROR exactly when a stored step row has the automatic status ERROR, otherwise INCOMPLETE, and its counts are those of the stored step rows |
| `Collection.MonthRows.CollectOnce` | src/auto_check/app/report_navigation.py:713-881 | after a successful collection every step, process and report-forms card row agrees with the rows below it; it succeeds exactly when every schedule and every period's supplement query answers, and a failed one still leaves process rows in agreement with step rows |
| `Collection.MonthRows.SaveReportFormsCards` | src/auto_check/app/report_navigation.py:1380-1470 | the report-forms card of every period counts the COMPLETED processes, with completed + incomplete = total |
| `Collection.MonthRows.RecountProcess` | src/auto_check/app/report_navigation.py:1380-1470 | a process row recounted after a manual change agrees with the stored step rows |
| `Collection.MonthRows.Recalculate` | src/auto_check/app/report_navigation.py:1380-1470 | from process rows in agreement, whatever the cards say, the recount re-establishes agreement of process and card rows without judging another step |
| `Collection.MonthRows.SetManualState` | src/auto_check/app/report_navigation.py:1268-1303 | setting or lifting an override brings process and card rows into agreement, also after a failed collection left cards behind, changes the rows of its own step and process only, and is refused where manual completion is not allowed |
| `Collection.SavedStatuses` | src/auto_check/app/report_navigation.py:748-803 | the stored effective statuses are those of the pass, and rows of other steps stay |
| `Collection.StoredRow` | src/auto_check/app/report_navigation.py:730-803 | with acyclic dependencies the whole stored row of a step, times included, is a function of the final statuses and of the row before |
| `Collection.ReorderKeepsStepRows` | src/auto_check/app/report_navigation.py:730-803 | with acyclic dependencies reordering a process's configured steps leaves the whole step table after a collection as it was |
| `Collection.ReorderKeepsProcessRow` | src/auto_check/app/report_navigation.py:805-839 | and its process row: status and counts always, the whole row when display orders are distinct |
| `Collection.CompletedSaysAll` | src/auto_check/app/report_navigation.py:819-831 | a process row in agreement says COMPLETED exactly when there are judged steps and every one of them is stored as completed |
| `Collection.ManualRowIsStored` | src/auto_check/app/report_navigation.py:1380-1414 | the row written for an overridden step is the stored row with the override applied |
| `Collection.FinalStepIsGreatest` | src/auto_check/app/report_navigation.py:805-809 | the process time is taken from the judged step greatest in display order |
| `Collection.StepRowIs` | src/auto_check/app/report_navigation.py:748-803 | with acyclic dependencies, a stored step row from the final statuses, the override and the row before |
| `Collection.ProcessTimeIs` | src/auto_check/app/report_navigation.py:805-831 | with acyclic dependencies, outside pbc_central, a completed process's time is the one its last judged step reports, else that of the streak the row is in, else the collection's |
| `Calendar.OrdinalOrder` | src/auto_check/app/report_navigation.py:531-553 | calendar order of dates is the order of their day numbers |
| `Calendar.DaysBeforeYearIs` | src/auto_check/app/report_navigation.py:531-553 | before year y there are 365 (y - 1) + (y - 1) / 4 - (y - 1) / 100 + (y - 1) / 400 days |
| `Calendar.OrdinalIs` | src/auto_check/app/report_navigation.py:531-553 | the day number of a date in closed form, without a table of months or leap years |
| `Calendar.WeekdayIs` | src/auto_check/app/report_navigation.py:533-534 | the weekday of every date is that of Zeller's congruence |
| `Calendar.FromOrdinal` | src/auto_check/app/report_navigation.py:555-574 | every day number from 1 names the one date with that number |
| `Calendar.AddDays` | src/auto_check/app/report_navigation.py:466-469 | adding days moves the day number by as many, or fails outside years 1 to 9999 |
| `Periods.EveryDayHasPeriod` | src/auto_check/app/report_navigation.py:531-553 | every date lies in a week, month, quarter and year |
| `Periods.PeriodIsUnique` | src/auto_check/app/report_navigation.py:531-553 | and in one of each only |
| `Periods.BoundsArePeriod` | src/auto_check/app/report_navigation.py:531-553 | period_bounds returns the period around the date, and raises exactly when that period ends after year 9999 |
| `Periods.PreviousIsPeriodBefore` | src/auto_check/app/report_navigation.py:555-574 | every period but the first of the calendar has one that ends where it starts; the previous bounds are that period, and period_bounds of its first day returns it |
| `Periods.NothingBeforeYearOne` | src/auto_check/app/report_navigation.py:555-574 | asking for the period before the first one of the calendar raises |
| `Periods.BusinessDateIsPreviousMonthEnd` | src/auto_check/app/server.py:4824-4832 | the minus-one-day idiom (report_navigation.py:590-591) and the monthrange idiom name the same day and fail together |
| `Periods.MonthAfterIsNext` | src/auto_check/app/report_navigation.py:466-469 | the first of the month reached by adding days to a month's start is the next month's first |
| `Periods.FollowingMonthIsPeriodEnd` | src/auto_check/app/report_navigation_schedule_preparation.py:34-36 | first-of-month plus 32 days, sent back to day 1, is the end of period_bounds for the month, and fails with it |
| `Periods.MonthEndIsDayBeforeNext` | src/auto_check/app/report_navigation_schedule_preparation.py:41 | the month-end test holds exactly on the day before the next month's first |
| `PeriodKeys.WeekOneHoldsFirstThursday` | src/auto_check/app/report_navigation.py:577-587 | the model's week 1 is the one with the year's first Thursday, as section 4.1.4 of ISO 8601:2004 has it |
| `PeriodKeys.IsoCalendarLocatesMonday` | src/auto_check/app/report_navigation.py:577-587 | ISO year and week locate the Monday of the date's week |
| `PeriodKeys.SameIsoWeek` | src/auto_check/app/report_navigation.py:577-587 | two dates share ISO year and week exactly when they share a Monday |
| `PeriodKeys.KeyShowsParts` | src/auto_check/app/report_navigation.py:577-587 | storage keys are equal exactly when the numbers printed in them are |
| `PeriodKeys.KeyIffSamePeriod` | src/auto_check/app/report_navigation.py:577-587 | two dates share a storage key exactly when they share the period, for each kind of period |
| `PeriodKeys.KeyLooksSo` | src/auto_check/app/report_navigation.py:577-587 | a key is a year, a dash and a two-digit week or month or a one-digit quarter, each decimal read back as the number, or the year alone |
| `SchedulerLease.SchedulerState.TryAcquireSchedulerLock` | src/auto_check/app/storage_report_navigation.py:1316-1333 | the lock row takes owner, lease end and start time exactly when the scheduler is enabled and the lease is free at the time read |
| `SchedulerLease.SchedulerState.ReleaseSchedulerLock` | src/auto_check/app/storage_report_navigation.py:1335-1361 | a release clears the row and stores its result only for its current owner |
| `SchedulerLease.MutualExclusion` | src/auto_check/app/report_navigation.py:705-711 | with a monotone clock and fresh owners, if every run ends within its lease at most one run is between acquire and release, in every reachable state |
| `SchedulerLease.OverrunAdmitsSecondHolder` | src/auto_check/app/storage_report_navigation.py:1316-1333 | the hypothesis is needed: an execution in which a run that outlives its lease meets a second one |
| `SchedulerLease.OwnerChange` | src/auto_check/app/storage_report_navigation.py:1316-1361 | the row leaves an owner only by that owner's release or by an acquire past the lease |
| `SchedulerLease.LateReleaseChangesNothing` | src/auto_check/app/storage_report_navigation.py:1335-1361 | once taken over, an owner's release never changes the row again |
| `SchedulerLease.ReleaseFrees` | src/auto_check/app/storage_report_navigation.py:1335-1361 | over executions: after the owner's release the first attempt to find the scheduler enabled succeeds, whatever time it read |
| `SchedulerLease.AttemptSucceedsIff` | src/auto_check/app/storage_report_navigation.py:1316-1333 | an attempt succeeds exactly when the scheduler is enabled and no lease reaches the time it read |
| `SchedulerLease.CrashIsOutlived` | src/auto_check/app/storage_report_navigation.py:1316-1333 | after a crash, while every attempt has read a time within the lease, an attempt succeeds exactly when the scheduler is enabled and it reads a time past lock_until, whatever other runs do in between |
| `ProviderStore.ClaimMeaning` | src/auto_check/app/storage_report_navigation.py:945-1026 | the left-to-right UPDATE amounts to: another owner's row untouched, own row re-claimed, past results dropped when the version is new |
| `ProviderStore.Store.ClaimCardProvider` | src/auto_check/app/storage_report_navigation.py:945-1026 | the claim method does exactly that to the stored row |
| `ProviderStore.Store.DeactivateCardProvider` | src/auto_check/app/storage_report_navigation.py:1028-1055 | deactivation is guarded by the current token |
| `ProviderStore.Store.MarkCardProviderFailure` | src/auto_check/app/storage_report_navigation.py:1057-1089 | a failure is recorded only under the current token |
| `ProviderStore.Store.SaveCardProviderSuccess` | src/auto_check/app/storage_report_navigation.py:1091-1129 | a success and its four snapshots are stored only under the current token, else nothing is |
| `ProviderStore.PublishReplacesFour` | src/auto_check/app/storage_report_navigation.py:1091-1129 | a publication replaces the snapshots of all four periods of its card and no other |
| `ProviderStore.ClaimLeaves` | src/auto_check/app/storage_report_navigation.py:945-1026 | every column of the claimed row, for a first claim, a renewed one and a refused one |
| `ProviderStore.DeactivationLeaves` | src/auto_check/app/storage_report_navigation.py:1028-1055 | a deactivation under the current token clears the active flag and nothing else of the results; any other changes nothing |
| `ProviderStore.FailureLeaves` | src/auto_check/app/storage_report_navigation.py:1057-1089 | a failure under the current token marks the row stale with the error and keeps its successes and snapshots; any other changes nothing |
| `ProviderStore.SuccessLeaves` | src/auto_check/app/storage_report_navigation.py:1091-1129 | a success under the current token clears error and staleness and puts its four snapshots, each period its own; any other changes nothing |
| `ProviderStore.CollectPeriods` | src/auto_check/app/report_navigation.py:1571-1644 | a collection asks each period in turn and yields all four validated results or none; the total, completed and incomplete counts and the time of each are those of that period's answer, and its delta plus the previous completed count is the completed count |
| `ProviderStore.AcceptableIs` | src/auto_check/app/report_navigation_platform.py:676-702 | an answer is accepted exactly when it is counts that add up, of the stated version, at a time with an offset |
| `ProviderFencing.OwnerForever` | src/auto_check/app/storage_report_navigation.py:945-1026 | a card row's owner never changes after its first claim, over any interleaving of registries |
| `ProviderFencing.OnlyCurrentTokenPublishes` | src/auto_check/app/storage_report_navigation.py:1091-1129 | snapshots change only by a commit of the row's current token |
| `ProviderFencing.PublishedCountsAreAnswers` | src/auto_check/app/report_navigation.py:1571-1644 | whatever snapshots a commit changes, the four it leaves show, period by period, the answers given to the collection of the card's current registration |
| `ProviderFencing.CommitRecords` | src/auto_check/app/storage_report_navigation.py:1057-1129 | a commit records its outcome in the row, success or failure, when its registration is current, and changes nothing otherwise |
| `ProviderFencing.ApplyDecides` | src/auto_check/app/report_navigation_platform.py:351-366 | a collection is taken up exactly while its registration is in memory, and becomes a publication exactly when all four answers are sound, else a failure |
| `ProviderFencing.RegisterDecides` | src/auto_check/app/report_navigation_platform.py:302-330 | a registration is refused while the card is taken in its process or its row is another owner's, and changes nothing; else the row is claimed for it |
| `ProviderFencing.CloseDecides` | src/auto_check/app/report_navigation_platform.py:360-366 | a handle closes its own registration while that is in memory; later it closes nothing |
| `ProviderFencing.CloseDeactivates` | src/auto_check/app/storage_report_navigation.py:1028-1055 | a closed card is inactive and stale afterwards, unless its row was claimed anew |
| `ProviderFencing.AlwaysOwned` | src/auto_check/app/report_navigation_platform.py:283-332 | no process ever holds a registration of a card that is another owner's |
| `ProviderFencing.ClaimSupersedes` | src/auto_check/app/report_navigation_platform.py:283-332 | a successful claim supersedes every registration of that card drawn before |
| `ProviderFencing.SupersededNeverPublishes` | src/auto_check/app/report_navigation_platform.py:351-358 | a superseded registration never changes the store again, whatever is still in flight |
| `ProviderFencing.ClosedNeverPublishes` | src/auto_check/app/report_navigation_platform.py:351-366 | a collection that overlaps its handle's close publishes nothing |
| `ProviderFencing.AlwaysDistinct` | src/auto_check/app/report_navigation_platform.py:283-332 | no two registrations in memory share a token, in one registry or in two, in every reachable state |
| `ProviderFencing.AlwaysTruthful` | src/auto_check/app/storage_report_navigation.py:1091-1129 | in every reachable state a row that is not stale is active with a recorded success and no error, and its four snapshots come from one publication |
| `YamlReader.StripYamlComment` | src/auto_check/app/reconcile_schema.py:174-187 | the flag loop cuts the line at the first # outside quotes |
| `YamlReader.ParseSimpleYaml` | src/auto_check/app/reconcile_schema.py:146-172 | the stack reader equals its specification on every text, errors included |
| `YamlReader.RootStays` | src/auto_check/app/reconcile_schema.py:155-172 | popping never removes the root and keeps indentations strictly increasing |
| `YamlPrinter.StripTrail` | src/auto_check/app/reconcile_schema.py:174-187 | spaces and a comment after an entry disappear |
| `YamlPrinter.ScalarBack` | src/auto_check/app/reconcile_schema.py:189-198 | booleans in any case, integers with signs and underscores, strings in either kind of quotes, and bare texts that are neither boolean nor integer are read back from their text |
| `YamlRoundTrip.ReadEntries` | src/auto_check/app/reconcile_schema.py:146-172 | reading printed entries at any indentation and depth adds exactly their meaning to the open map |
| `YamlRoundTrip.ReaderInvertsPrinter` | src/auto_check/app/reconcile_schema.py:146-198 | parsing a printed map returns the map, whatever comments, blank lines, spaces around keys, colons and values, and line ends it is printed with |
| `YamlRoundTrip.EveryMapIsPrinted` | src/auto_check/app/reconcile_schema.py:146-198 | every nested map of plain keys and boolean, integer and quotable string leaves has such a printing |
| `YamlRoundTrip.RefusedText` | src/auto_check/app/reconcile_schema.py:146-172 | the first line after printed entries with no colon, or nothing before it, is the error raised, whatever follows |
| `SqlWriter.ChainIsOneEncoding` | scripts/export_sqlite_to_mysql.py:345-355 | the chained replacements equal one per-character encoding |
| `SqlWriter.StringRoundTrip` | scripts/export_sqlite_to_mysql.py:345-355 | a MySQL string reader recovers the text and stops exactly at the closing quote |
| `SqlWriter.IdentifierRoundTrip` | scripts/export_sqlite_to_mysql.py:357-358 | quoted identifiers likewise |
| `SqlWriter.LiteralRoundTrip` | scripts/export_sqlite_to_mysql.py:333-343 | each NULL, integer, boolean and string literal reads back as its value, whatever follows |
| `SqlWriter.InsertRoundTrip` | scripts/export_sqlite_to_mysql.py:324-331 | a whole INSERT reads back as its table, columns and values in order |
| `SqlWriter.ExportRoundTrip` | scripts/export_sqlite_to_mysql.py:324-331 | every statement of an export reads back as its row |
| `SqlWriter.InsertLines` | scripts/export_sqlite_to_mysql.py:324-331 | the loop yields one statement a row, and raises exactly when a row lacks a column |
| `Multipart.ParseMultipartFile` | src/auto_check/app/server.py:5303-5328 | the parser's loops compute the specification on every body and boundary, headers decoded as UTF-8 with replacement |
| `Multipart.ParseFilename` | src/auto_check/app/server.py:5316-5324 | the header loops yield the first filename parameter of the last content-disposition line that has one |
| `Multipart.DelimiterRecurs` | src/auto_check/app/server.py:5304-5306 | the delimiter cannot straddle a line end: it next occurs where the writer closed the part |
| `Multipart.HeaderEnds` | src/auto_check/app/server.py:5309-5311 | the first blank line ends the headers |
| `Multipart.PartRoundTrip` | src/auto_check/app/server.py:5307-5328 | a part reads back as its content, CR and LF at the content's edges included, and the file name its decoded headers announce |
| `Multipart.BodyRoundTrip` | src/auto_check/app/server.py:5303-5328 | for every content and header without the delimiter, parsing the written body returns exactly that content, whatever parts follow |
| `Multipart.EpilogueIsNoFile` | src/auto_check/app/server.py:5303-5308 | a body without parts has no file, whatever text follows its closing delimiter |
| `Utf8.EncodeRoundTrip` | src/auto_check/app/server.py:5312 | decoding the UTF-8 bytes of a text returns the text |
| `Utf8.NoReplacement` | src/auto_check/app/server.py:5312 | bytes decoded without a replacement character are the UTF-8 bytes of what they decode to |
| `UploadName.UploadRoundTrip` | src/auto_check/app/server.py:5303-5328 | parsing the body a client writes for a file returns exactly its content, and its announced name exactly when that holds no semicolon and neither starts nor ends with a quotation mark |
| `UploadName.FilenameReadsBackIff` | src/auto_check/app/server.py:5316-5324 | the announced file name comes back exactly when it holds no semicolon and neither starts nor ends with a quotation mark |
| `UploadName.LastNamingLineDecides` | src/auto_check/app/server.py:5315-5324 | of any headers, the last content-disposition line with a filename parameter decides by its first one, stripped of spaces and then of quotation marks; without one the name is upload.zip |
| `FlowChain.World.WaitForSubmittedTask` | src/auto_check/app/flow_tool.py:252-270 | ends within the bound with a task of the flow newer than the id read before, or with the cause of the stop |
| `FlowChain.World.WaitForTaskEnd` | src/auto_check/app/flow_tool.py:273-293 | ends within the bound; succeeds only after the awaited task was seen with that end time and a later cancel check had not fired, and times out only when the last look at the table did not show the awaited task with an end time |
| `FlowChain.World.RunStep` | src/auto_check/app/flow_tool.py:170-218 | one step: cancel check, search, at most one submission, waits; its record is well-formed whatever the gateway does, each look-up answers None exactly when no row has the id, and a timeout in the second wait follows a look that showed no end |
| `FlowChain.World.RunFlowChain` | src/auto_check/app/flow_tool.py:150-228 | steps run in order, each begins only after the ones before it ended; a stop names its cause, a timeout only after the time allowed and a last look that showed no end of the awaited task, and leaves later steps untouched; each step is bounded in timeout and interval |
| `FlowChain.World.SubmitAndFind` | src/auto_check/app/flow_tool.py:188-199 | without a running task: the greatest id is read, the flow submitted once, and the task it created awaited |
| `FlowChain.SubmitsOnce` | src/auto_check/app/flow_tool.py:176-199 | a step submits at most once, only when the table it searched held no task of the flow without an end time, and not at all once a cancel check fired |
| `FlowChain.EndedStepWaitedForItsTask` | src/auto_check/app/flow_tool.py:176-218 | a step that ended waited for a task already running, or for one newer than every task in the table before its submission |
| `FlowChain.NoneEndedUnseen` | src/auto_check/app/flow_tool.py:138-147 | when no look showed an end, no table searched for the awaited task held it with an end time |
| `FlowChain.Running` | src/auto_check/app/flow_tool.py:102-113 | the running task found is the flow's greatest id without an end time |
| `FlowChain.SubmittedAfter` | src/auto_check/app/flow_tool.py:125-136 | the submitted task found is the flow's least id above the one given |
| `TaskSettings.ParseDailyTime` | src/auto_check/app/scheduled_tasks.py:124-135 | an accepted clock time is a minute of the day |
| `TaskSettings.DailyTimeRoundTrip` | src/auto_check/app/scheduled_tasks.py:124-135 | every minute's text is read back as that minute |
| `TaskSettings.DailyTimeAcceptedIff` | src/auto_check/app/scheduled_tasks.py:124-135 | a text is accepted exactly when, stripped, it is some minute's text |
| `TaskSettings.Merge` | src/auto_check/app/scheduled_tasks.py:307-336 | settings that are stored have exactly one of interval and clock time, in range |
| `TaskSettings.MergeRefusesIff` | src/auto_check/app/scheduled_tasks.py:307-336 | a checked change of valid settings is refused exactly when it switches kind without the value that kind needs |
| `TaskSettings.MergeKeepsKind` | src/auto_check/app/scheduled_tasks.py:307-336 | a change that keeps the kind overwrites only the value given |
| `TaskSettings.MergeIs` | src/auto_check/app/scheduled_tasks.py:307-336 | the settings after an accepted change, value by value |
| `TaskSettings.CheckedIff` | src/auto_check/app/scheduled_tasks.py:269-306 | which changes pass the checks: the two kinds, intervals of 1 to 10080 minutes, the texts of the minutes of a day |
| `TaskSettings.NextDailyRunIsFirst` | src/auto_check/app/scheduled_tasks.py:138-151 | a daily task's next run is the first instant strictly later that shows its clock time |
| `TaskSettings.NextRunIsLater` | src/auto_check/app/scheduled_tasks.py:138-151 | a next run is strictly later: an interval task's by exactly its stored interval, a daily task's by a day at most |
| `TaskSettings.NextRunIs` | src/auto_check/app/scheduled_tasks.py:138-151 | an interval task next runs its stored interval later, a daily one at the first later instant of its clock time |
| `TaskScheduler.UpdateLaw` | src/auto_check/app/scheduled_tasks.py:269-360 | an accepted edit keeps settings exclusive, touches its own task only, and sets or clears the next run as its enabled flag says |
| `TaskScheduler.UpdateAcceptedIff` | src/auto_check/app/scheduled_tasks.py:269-360 | an edit is accepted exactly for a registered task in the table, with values in range, and the value a new kind needs |
| `TaskScheduler.UpdateIs` | src/auto_check/app/scheduled_tasks.py:339-360 | the edited row, column by column: an interval task's next run lies exactly its stored interval after the edit |
| `TaskScheduler.UpdateErrorIs` | src/auto_check/app/scheduled_tasks.py:269-336 | which error an edit raises when several apply |
| `TaskScheduler.OtherErrorsAre` | src/auto_check/app/scheduled_tasks.py:232-267 | restoring or deleting an unregistered code raises, and so does restoring a task that is there |
| `TaskScheduler.RestoreLaw` | src/auto_check/app/scheduled_tasks.py:232-267 | the four tasks that can be restored, with their settings and first runs; a task that is there is not touched |
| `TaskScheduler.DisabledKeepsNextRunIff` | src/auto_check/app/scheduled_tasks.py:339-353 | exactly when a task left disabled by an edit has a next run |
| `TaskScheduler.DisabledTaskMayHaveNextRun` | src/auto_check/app/scheduled_tasks.py:345-352 | a disabled task can have one: a concrete edit |
| `TaskScheduler.EndedLaw` | src/auto_check/app/scheduled_tasks.py:442-481 | after a run of an enabled task the next run is later than the finish: for interval tasks by exactly the stored interval, for daily tasks the first instant of the clock time; status and error are the handler's |
| `TaskScheduler.ErrorText` | src/auto_check/app/scheduled_tasks.py:435-440 | a stored error is never empty and at most 2000 characters |
| `TaskScheduler.ScheduledTaskManager.RequestRunNow` | src/auto_check/app/scheduled_tasks.py:372-384 | a request is accepted exactly when the task exists and neither runs nor waits, and then waits last; nothing else changes |
| `TaskScheduler.ScheduledTaskManager.UpdateTask` | src/auto_check/app/scheduled_tasks.py:269-360 | the edit's checks, in order, and its effect |
| `TaskScheduler.ScheduledTaskManager.RestoreTemplate` | src/auto_check/app/scheduled_tasks.py:232-267 | a missing template is restored with its first run, an existing one refused |
| `TaskScheduler.ScheduledTaskManager.DeleteTask` | src/auto_check/app/scheduled_tasks.py:362-370 | deletion removes the row alone and says whether there was one |
| `TaskScheduler.ScheduledTaskManager.ExecuteTask` | src/auto_check/app/scheduled_tasks.py:412-481 | an execution's two transactions around the handler |
| `TaskScheduler.ScheduledTaskManager.Tick` | src/auto_check/app/scheduled_tasks.py:483-513 | an undisturbed tick runs the oldest manual request, then every due task in listed order, and leaves the flag clear |
| `TaskScheduler.NothingDueAfterTick` | src/auto_check/app/scheduled_tasks.py:483-513 | after it no registered task is due at the time it read |
| `TaskThreads.OneHandlerAtATime` | src/auto_check/app/scheduled_tasks.py:483-513 | with any number of scheduler threads, starts, stops, requesters and edits, at most one scheduler thread executes, and the flag names its task |
| `TaskThreads.ServedInOrder` | src/auto_check/app/scheduled_tasks.py:372-384 | the queue has no duplicates and is what was accepted minus what was taken: first come, first served, each at most once |
| `TaskThreads.OldestRequestIsServed` | src/auto_check/app/scheduled_tasks.py:485-492 | an idle thread that finds nothing running launches the oldest request not yet served |
| `TaskThreads.FlagIsCleared` | src/auto_check/app/scheduled_tasks.py:492-513 | from any reachable state with the flag set, at most three steps of the thread that set it clear it |
| `TaskThreads.RunMovesOn` | src/auto_check/app/scheduled_tasks.py:412-513 | every stage of a run has a next step, and a raise at any stage still leads to the release |
| `TaskThreads.RunSetsNextRun` | src/auto_check/app/scheduled_tasks.py:464-481 | in every reachable state, the end of a run of an enabled task sets a later next run |
| `TaskThreads.RowChangesBy` | src/auto_check/app/scheduled_tasks.py:269-481 | whatever the threads do, a row changes only by a write of its own or by the run of that very task |
| `TaskThreads.WritesTakeEffect` | src/auto_check/app/scheduled_tasks.py:232-384 | an edit, restore, removal or request takes effect at once, at any moment of any run, and disturbs no thread |
| `TaskOverlaps.RunningBecomesQueuedIff` | src/auto_check/app/scheduled_tasks.py:498-513 | a step leads to a running task that also waits in the manual queue exactly when it claims a due task that waits there |
| `TaskOverlaps.ClaimedWhileQueued` | src/auto_check/app/scheduled_tasks.py:498-513 | in any run, a running task waits in the queue only after such a claim |
| `TaskWitnesses.RunningMayBeQueued` | src/auto_check/app/scheduled_tasks.py:498-513 | whatever the table, every due task can come to run while it waits: an execution from the start of a manager |
| `TaskOverlaps.OverlapNeedsDisorder` | src/auto_check/app/scheduled_tasks.py:525-552 | two threads are in a handler together only if one of them is inside start, and only after a start that began while another was under way or a stop that gave up on a live scheduler thread |
| `TaskWitnesses.StopThatGaveUp` | src/auto_check/app/scheduled_tasks.py:525-552 | whatever handler runs, a stop that gives up followed by a start puts the preparation's handler beside it |
| `TaskWitnesses.StopMayLeadToOverlap` | src/auto_check/app/scheduled_tasks.py:525-552 | that overlap is reached from the start of a manager, whatever else is in its table |
| `TaskWitnesses.ConcurrentStartsOverlap` | src/auto_check/app/scheduled_tasks.py:525-537 | two starts at once, with no scheduler thread alive, run the preparation twice at once |
| `Schedules.InheritedStaysInMonth` | src/auto_check/app/storage_report_navigation.py:736-762 | an inherited or default date lies in its month; the day is kept except that of 29 February |
| `Schedules.EnsuredLaw` | src/auto_check/app/storage_report_navigation.py:726-763 | from rows in their months ensure_schedule alters no row, adds at most the one asked for, and fails only for year 1 |
| `Schedules.EnsuredIs` | src/auto_check/app/storage_report_navigation.py:726-763 | from any table: when the call fails, and what the one row it adds holds, inherited from the year before or pbc_central's default |
| `Schedules.ParsesIff` | src/auto_check/app/storage_report_navigation.py:1446-1451 | the months a call accepts are those with a date in them |
| `Schedules.SetOwnerIs` | src/auto_check/app/storage_report_navigation.py:695-724 | an owner's write takes owner, editor and time; date and source stay those stored, or loaded before if none is |
| `Schedules.ScheduleStore.UpsertSchedule` | src/auto_check/app/storage_report_navigation.py:615-652 | a date outside the month is refused; else the row takes date and source and keeps its owner, or with only_if_missing nothing if there is one |
| `Schedules.ScheduleStore.UpdateScheduleOwner` | src/auto_check/app/storage_report_navigation.py:695-724 | the owner changes and the date does not; a missing row is refused |
| `Schedules.ScheduleStore.EnsureSchedule` | src/auto_check/app/storage_report_navigation.py:726-763 | the sequence of reads and the insert amounts to the specification |
| `Schedules.ScheduleStore.PrepareSchedules` | src/auto_check/app/report_navigation_schedule_preparation.py:39-77 | checked plus unreadable configurations equals ready plus issues; the months are today's and the next, written only when due |
| `Schedules.EveryProcessCounted` | src/auto_check/app/report_navigation_schedule_preparation.py:49-76 | each process of a month is ready or has its one issue |
| `Schedules.CheckedAllLaw` | src/auto_check/app/report_navigation_schedule_preparation.py:49-76 | the preparation alters no row, and adds none to a month it may not write yet |
| `Schedules.ReadyHasRow` | src/auto_check/app/report_navigation_schedule_preparation.py:52-57 | a process without an issue has its row in its month |
| `Schedules.IssueMeans` | src/auto_check/app/report_navigation_schedule_preparation.py:52-76 | each reason says exactly which of current row, history and permission to write is missing |
| `Schedules.InvalidMeans` | src/auto_check/app/report_navigation_schedule_preparation.py:39-49 | whether it writes or not, the preparation calls dates invalid exactly when they are |
| `ScheduleRuns.AlwaysInMonth` | src/auto_check/app/storage_report_navigation.py:615-763 | under any interleaving of read-then-write clients and manual edits every row stays in its month, and so does every result |
| `ScheduleRuns.OnlyWritersChange` | src/auto_check/app/storage_report_navigation.py:638-652 | a stored date changes only by a manual edit, a stored owner only by an owner's write |
| `ScheduleRuns.RowAppearsIff` | src/auto_check/app/storage_report_navigation.py:638-652 | no row ever goes, and one comes exactly by an accepted edit of its date or by a client's insert, which brings the row it inherited |
| `ScheduleRuns.DateIsLastWriters` | src/auto_check/app/storage_report_navigation.py:643-652 | the date is that of the last date writer |
| `ScheduleRuns.OwnerIsLastWriters` | src/auto_check/app/storage_report_navigation.py:707-724 | the owner is that of the last owner writer |
| `ScheduleRuns.InsertIsReturned` | src/auto_check/app/storage_report_navigation.py:740-750 | a client that inserted returns the row stored then, its own or one written meanwhile |
| `ScheduleRuns.AloneIsEnsured` | src/auto_check/app/storage_report_navigation.py:726-763 | undisturbed, a client's steps are ensure_schedule |
| `Accounts.NormalizeUsername` | src/auto_check/app/security.py:388-397 | an accepted name has 1 to 64 letters, digits, underscores, dots and dashes |
| `Accounts.Index` | src/auto_check/app/security.py:473-483 | the first account with an id, if any |
| `AuthManagement.AuthManager.SetAdminPassword` | src/auto_check/app/security.py:62-83 | setup replaces the table with the initial administrator, only while it is required (server.py:4508-4513) |
| `AuthManagement.AuthManager.LoginUser` | src/auto_check/app/security.py:84-104 | a session is returned exactly when the normalised name is, ignoring case, that of an enabled account, the first of that name, with that password; it is stored, and nothing else changes |
| `AuthManagement.AuthManager.ValidateSession` | src/auto_check/app/security.py:109-129 | an idle session past its lifetime is dropped, any other is refreshed |
| `AuthManagement.AuthManager.CreateUser` | src/auto_check/app/security.py:170-206 | the checks of create_user in order, and the appended account |
| `AuthManagement.AuthManager.UpdateUser` | src/auto_check/app/security.py:208-253 | the checks of update_user in order, the edited account, and the sessions dropped when it is disabled |
| `AuthManagement.AuthManager.ResetPassword` | src/auto_check/app/security.py:255-271 | a reset drops the account's sessions but the preserved one |
| `AuthManagement.AuthManager.DeleteUser` | src/auto_check/app/security.py:273-290 | a deletion removes the account and its sessions |
| `AuthManagement.AuthManager.DropSessions` | src/auto_check/app/security.py:292-295 | exactly the account's sessions go, the preserved one stays |
| `AccountRuns.AlwaysHolds` | src/auto_check/app/security.py:65-290 | over any sequence of operations after setup: names unique ignoring case, the initial administrator present, enabled and administrator, every session of an existing enabled account |
| `AccountRuns.OnlyInitialChangesAdmins` | src/auto_check/app/security.py:170-290 | an identified actor other than the initial administrator adds, removes and alters no administrator account |
| `AccountRuns.UnknownActorEditsNothing` | src/auto_check/app/security.py:222-224 | an edit by an actor the table does not know is refused, the empty id included |
| `AccountRuns.SessionsKeepTheirRole` | src/auto_check/app/security.py:84-129 | a session keeps account, name and role for its life |
| `AccountRuns.EditLeavesSessionRoles` | src/auto_check/app/security.py:208-253 | after an edit a live session's role equals the account's exactly when the edit did not change it |
| `AccountLaws.LoginIff` | src/auto_check/app/security.py:84-104 | a session is returned exactly when the name, stripped and ignoring case, is that of an enabled account with that password; it carries the account's id, name and role |
| `AccountLaws.ResetDecidesLogin` | src/auto_check/app/security.py:255-271 | over runs: after an accepted reset, until the next one or the account's deletion, the new password opens a session while the account is enabled and no other password does |
| `AccountLaws.PasswordStays` | src/auto_check/app/security.py:62-290 | over runs after setup, an account keeps its password until an accepted reset or its deletion |
| `AccountLaws.ValidateIff` | src/auto_check/app/security.py:109-129 | a session is valid exactly when it exists and was active within its lifetime |
| `AccountLaws.CreateAcceptedIff` | src/auto_check/app/security.py:170-206 | which creations are accepted, and the account they append |
| `AccountLaws.UpdateAcceptedIff` | src/auto_check/app/security.py:208-253 | which edits are accepted, and the account and sessions they leave |
| `AccountLaws.ResetAcceptedIff` | src/auto_check/app/security.py:255-271 | which resets are accepted, and the password and sessions they leave |
| `AccountLaws.DeleteAcceptedIff` | src/auto_check/app/security.py:273-290 | which deletions are accepted, and the accounts and sessions they leave |
| `AccountLaws.CreateErrorIs` | src/auto_check/app/security.py:170-206 | which error a creation raises when several apply, an unknown actor's included |
| `AccountLaws.UpdateErrorIs` | src/auto_check/app/security.py:208-253 | which error an edit raises when several apply |
| `AccountLaws.ResetErrorIs` | src/auto_check/app/security.py:255-271 | which error a reset raises when several apply |
| `AccountLaws.DeleteErrorIs` | src/auto_check/app/security.py:273-290 | which error a deletion raises when several apply |
| `AccountLaws.NeverTheLastAdmin` | src/auto_check/app/security.py:238-290 | after setup the two checks that an enabled administrator remains never fail: the edits and deletions allowed leave one anyway |
| `AccountLaws.RoleTexts` | src/auto_check/app/security.py:405-425 | which texts stand for which role, retired names included |
| `Capabilities.Lists` | src/auto_check/app/capabilities.py:47-118 | required and admin-only codes are registered, disjoint, untouched by migration, and default on and off for ordinary users |
| `Capabilities.LoadedAt` | src/auto_check/app/storage_role_capabilities.py:85-98 | what a load gives at each role and code, over arbitrary stored data |
| `Capabilities.MergeIsIdempotent` | src/auto_check/app/capabilities.py:155-184 | a merged matrix has exactly the known roles and codes, and merging again changes nothing |
| `Capabilities.LoadedCanBeSaved` | src/auto_check/app/storage_role_capabilities.py:85-141 | whatever is stored, the loaded matrix passes the three save checks and saves as itself |
| `Capabilities.LoadReturnsSaved` | src/auto_check/app/storage_role_capabilities.py:101-141 | a load after a save with the same roles returns what the save returned |
| `Capabilities.SavedIff` | src/auto_check/app/storage_role_capabilities.py:113-117 | a save is accepted exactly when it grants no admin-only code, denies no required one, and leaves the admin column as loaded |
| `Capabilities.AdminAlwaysFull` | src/auto_check/app/storage_role_capabilities.py:85-141 | from an empty store, after any sequence of saves, the admin column is all true |
| `Capabilities.AccessLaw` | src/auto_check/app/capabilities.py:257-275 | then has_capability gives administrators exactly the registered codes, everyone the required ones, and no one else the admin-only ones |
| `Capabilities.AccessAsSaved` | src/auto_check/app/capabilities.py:257-275 | after an accepted save has_capability gives each role what the saved matrix says, or its default |
| `Capabilities.RefusalIs` | src/auto_check/app/storage_role_capabilities.py:110-116 | which of the three errors a refused save raises |
| `Capabilities.WriteThenLoad` | src/auto_check/app/storage_role_capabilities.py:85-141 | after any sequence of writes an accepted save is what is loaded next; a refused one, and one of remarks, change nothing that is loaded, and remarks leave a stored matrix |
| `CapabilityStore.MergeMatrix` | src/auto_check/app/capabilities.py:155-184 | the nested loops build the merged matrix |
| `CapabilityStore.MigratedValue` | src/auto_check/app/capabilities.py:174-184 | the migration loops give each code its own value, else its retired code's, else the default |
| `CapabilityStore.CleanAdminOnly` | src/auto_check/app/capabilities.py:187-203 | the clean-up loop clears admin-only codes of other roles |
| `CapabilityStore.CleanRequired` | src/auto_check/app/capabilities.py:206-222 | the clean-up loop sets required codes of every role |
| `CapabilityStore.CheckAdminColumn` | src/auto_check/app/capabilities.py:296-309 | the check loop accepts exactly an unchanged column |
| `CapabilityStore.CheckRequired` | src/auto_check/app/capabilities.py:312-324 | the check loop accepts exactly when no required code is denied |
| `CapabilityStore.CheckAdminOnly` | src/auto_check/app/capabilities.py:327-339 | the check loop accepts exactly when no admin-only code is granted |
| `CapabilityStore.RoleCapabilitySettings.LoadRoleCapabilityMatrix` | src/auto_check/app/storage_role_capabilities.py:85-98 | a load is clean-up and merge of the stored row |
| `CapabilityStore.RoleCapabilitySettings.SaveRoleCapabilityMatrix` | src/auto_check/app/storage_role_capabilities.py:101-141 | a save stores and returns the merged matrix, or refuses and stores nothing |
| `CapabilityStore.RoleCapabilitySettings.SaveRoleRemarks` | src/auto_check/app/storage_role_capabilities.py:158-202 | saving remarks changes no stored matrix, and stores the loaded one when there is none |
| `ContractJoin.GroupHasGreatest` | src/auto_check/app/repositories.py:1015-1025 | the grouped query gives each contract the greatest start among its rows of the date |
| `ContractJoin.JoinedOnce` | src/auto_check/app/repositories.py:1012-1029 | the left join neither drops nor doubles an asset row, and gives it its own contract's greatest start |
| `ContractJoin.FoundIs` | src/auto_check/app/repositories.py:970-974 | the lookup finds a contract's start when no other contract reads as the same texts |
| `ContractJoin.RowAgrees` | src/auto_check/app/repositories.py:1043-1050 | join and lookup agree on a row with keys, when it is clean or no investment row lacks a key |
| `ContractJoin.AlwaysAgreesIff` | src/auto_check/app/repositories.py:1043-1050 | over every content of the investment table they agree on a row exactly when its keys are present and are not the texts a missing key is read as |
| `ContractJoin.PathsAgree` | src/auto_check/app/repositories.py:977-1063 | on rows with keys the two paths build the same asset rows in the same number and order |
| `ContractJoin.JoinPathIs` | src/auto_check/app/repositories.py:977-1055 | the join makes one asset row of each of the date's rows, in order, each column from the stored row, with its contract's greatest start |
| `ContractJoin.LookupPathIs` | src/auto_check/app/repositories.py:1043-1062 | so does the lookup; its starts are those of the rows' own contracts when the row is clean or no key is missing |
| `AssetCaches.ListsAreRows` | src/auto_check/app/repositories.py:1044-1062 | a (project, asset) list holds exactly its rows in order |
| `AssetCaches.RegroupingKeepsRows` | src/auto_check/app/repositories.py:530-537 | regrouping by project keeps every row as often as it came |
| `AssetCaches.AssetRepository.ContractStartsByDate` | src/auto_check/app/repositories.py:945-975 | the dict of starts, cached per date, always equals its recomputation |
| `AssetCaches.AssetRepository.PactAssetsByDate` | src/auto_check/app/repositories.py:977-1063 | the grouped rows, cached per date, always equal their recomputation |
| `AssetCaches.AssetRepository.ListPactAssets` | src/auto_check/app/repositories.py:527-528 | the rows of one project and asset, in order, each column of each row from its stored row, empty text for NULL |
| `AssetCaches.AssetRepository.ListProjectPactAssets` | src/auto_check/app/repositories.py:530-537 | the rows of one project, as often as they came, cached or not |

## Left out

- Collection.MonthRows.CollectOnce: run records, completion rates, other months' carry-over and the refresh of card providers at the end of a run are not modelled; evaluator queries are reduced to the status they yield. The saves of one process are not interrupted: a store failure between them is not modelled.
- Collection.MonthRows.SetManualState: the date comparison that finds a month closed is a parameter, and the user and time noted on an override are not stored. The source does not take the collection lock here, so a manual change can fall between the reads and the writes of a collection, whose cards and process rows can then be stale; the model runs one operation at a time.
- StepEvaluation.EvaluateReadsOnlyDependencies: evaluators that query tables answer with a given status per step; only those that read other steps' statuses are modelled in full.
- Snapshots.ProcessTimeLaw: assumes, as every caller in the source does, that a completed save carries a time.
- PeriodKeys.KeyIffSamePeriod: years of month keys are printed with four digits, as on platforms that pad them.
- SchedulerLease.MutualExclusion: holds when every run ends within its lease, which the source does not enforce.
- SchedulerLease.SchedulerState.TryAcquireSchedulerLock: one shared monotone clock is assumed; clock skew between processes is not modelled.
- ProviderFencing.AlwaysTruthful: snapshots of the same card written by other parts of the service, and the per-module facade that only forwards to the registry, are not modelled.
- ProviderStore.CollectPeriods: card names, units and display fields of a statistics result are not modelled, only its three counts.
- YamlRoundTrip.ReaderInvertsPrinter: strings that hold an apostrophe and also a quotation mark without a backslash before it, and quotation marks inside keys or bare texts, are read by the model but not printed; `int()` is modelled on ASCII digits, signs and underscores.
- SqlWriter.LiteralRoundTrip: Decimal values and other types that are rendered through `str` are left out.
- UploadName.UploadRoundTrip: names with a carriage return or newline, which no header line can hold, are left out.
- FlowChain.World.RunFlowChain: a sleep is assumed to last at least the time asked, as the poll interval configured is between 1 and 300 seconds (config.py:576); display names, log messages, progress percentages and the submission URL's text are left out.
- TaskSettings.ParseDailyTime: digits outside ASCII are left out.
- TaskSettings.NextDailyRunIsFirst: times past the end of the calendar, where the source raises, are left out.
- TaskScheduler.ScheduledTaskManager.UpdateTask: unknown configuration keys, values of wrong types and the created and updated times are left out.
- TaskScheduler.ScheduledTaskManager.Tick: taken alone, without other threads; `TaskThreads` covers the interleavings, without the waiting between ticks.
- TaskThreads.OneHandlerAtATime: the last lines of `start`, which clear the stop flag and start the thread, are one step, and so are the end of a join and the forgetting of the thread.
- Schedules.ScheduleStore.PrepareSchedules: reading a month's configuration, and any other exception of the store, are parameters; the notifications sent afterwards are left out.
- ScheduleRuns.AlwaysInMonth: a report month is a year and a month; texts such as `2024-1`, which the source accepts as another key, are left out.
- AccountRuns.AlwaysHolds: each operation is one step, so a disable that falls between a login's password check and its new session is not covered; setup after setup is excluded because the server guards it.
- AuthManagement.AuthManager.LoginUser: a password is compared with the stored one in place of its hash; last-login times, interface preferences and the table's ordering by creation time are left out.
- Capabilities.LoadedAt: the stored JSON is taken as decoded; labels, kinds of capability and the merging of remarks are left out.
- ContractJoin.PathsAgree: texts compare exactly, without a database collation's case or trailing-space rules, and query results come in table order.
- AssetCaches.AssetRepository.ListProjectPactAssets: the other per-date caches of the repository have the same shape and are left out.
- HTTP handling, streaming, static files and module hosting are plumbing around the modelled operations.
- The reconciliation engine, the validation rules and the spreadsheet and archive readers are not part of this model.
- Cryptography (password hashing, transport and storage encryption) is not part of this model; tokens are fresh values.
- Dictionary and preference tables, history rows, batched inserts and display sections would only add easy members.
