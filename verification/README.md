# Auxilium Manus: verified core

A Dafny model of the state and the transformations that Auxilium Manus keeps in its repository
classes and helpers, with proofs of what their comments promise. `dafny verify dfyconfig.toml`
checks all of it.

| file | what it models |
|---|---|
| `ReportWriters.dfy` | interleaved `replace_rows` writers over the unique index, with retry and purge |
| `ReportRecords.dfy` | the newest-collection queries and what a purge may delete |
| `ReportPurges.dfy` | purge sessions whose SELECT and DELETE are separate, beside commits |
| `ReportRepository.dfy` | the repository's own loops: the retrying replacement and the batched purge |
| `CompareAndSet.dfy`, `RunLifecycle.dfy`, `ChangeRequests.dfy` | guarded status updates of runs, step rows and change requests |
| `ColumnTypes.dfy`, `SchemaSync.dfy`, `SchemaMigration.dfy` | the schema synchroniser and the migration |
| `FilterTree.dfy`, `InventorySelection.dfy`, `InventoryExactness.dfy` | saved conditions, the canvas filter, the devices each selects, and exactly when they agree |
| `LikeSearch.dfy` | the LIKE search of the glossary |
| `LeakScanner.dfy` | the balanced-parenthesis scanner and the block iterator |
| `Base64Url.dfy`, `Tokens.dfy` | unpadded base64url, the AM2 and AMS2 envelopes |
| `BackgroundTier.dfy` | the published set, its fingerprint and the restarting worker |
| `JobSlots.dfy` | the cooperative counter around child processes |
| `EventLog.dfy` | the capped event log, paging and tail |
| `Common.dfy`, `Text.dfy` | shared value types; the string operations the code uses |

Protocols are state machines whose steps are single SQL statements or the code between two
awaits; a theorem about runs quantifies over every sequence of steps. Code that changes state is
a class or a loop proved against the function the theorems are about.

## Assumptions

- A SQL statement is atomic; a transaction's DELETE is invisible to others until it commits, and
  insert plus commit is one step. A writer's locks are not modelled, so more interleavings are
  covered than PostgreSQL allows.
- `now()` is the begin time of a transaction, in `created_at` and `updated_at`.
- Collection ids are fresh, row ids unique. In `ReportWriters` row ids grow from commit to commit; in
  `ReportPurges` and for readers of the event log they need not.
- `CollectionsGoTogether` and `ReportPurges` also assume that the rows of one collection share
  `created_at`; `LatestIsOneCollection`, `DeletionKeepsLatestIff` and `ReportPurges` that a collection
  id belongs to one dataset and device.
- Which DDL statements the database accepts is an arbitrary function; nobody else changes the
  schema meanwhile (backend/core/database.py:66-71 holds a lock), and type names are canonical.
- PBKDF2, AES-GCM, Fernet and UTF-8 are functions that invert each other; salt and nonce are
  parameters.
- The clock, `str.lower`, the conditions' matching devices and the session time zone are parameters.

## Where the code does less than its comments say

- A purge that cuts into a key while a writer of that key is between its DELETE and its insert can
  let two collections land. `OneCollectionIffTidy` says exactly when that happens in a run, and
  `RetentionIff` what rules it out: purges that keep at least twice the longest transaction.
  `purge_older_than_days` keeps at least a day
  (backend/services/report_data/report_data_service.py:122-128), so writers must commit within half
  a day.
- A commit whose transaction began no later than a selected collection of its device was made can
  bring that collection back to the top before the purge deletes it (`EarlierCommitExposesBatch`).
  Purges that keep at least the longest transaction rule it out, and no shorter retention does
  (`PurgeRetentionIff`).
- `finalise_open_step_results` is two UPDATEs. A pending row that a worker starts in between stays
  running in the cancelled run (`RowStartedBetweenUpdatesStaysOpen`); `RowEscapesIff` says exactly
  which rows escape.
- `partial` is not among the terminal step statuses, so a late worker can reopen such a row of a
  cancelled run (`PartialRowIsReopened`, `FrozenIffNoUpdateApplies`).
- One caller of `transition_run` does name a terminal status, to annotate a cancelled run
  (backend/services/execution/run_service.py:816-826). The theorems allow it: it is
  told True although the run had ended, and writes the same status again (`OneWriterEndsTheRun`).
- The dynamic worker reads rows and fingerprint in two statements; a change in between stays hidden
  (`PublishBetweenReadsIsHidden`), and `PollIsSoundIff` says which check would tell. So does an edit
  whose transaction began earlier but committed later (`LateCommitIsHidden`, `ChangeHidesIff`,
  `NothingHidesIff`).
- TIMESTAMP to TIMESTAMP WITH TIME ZONE counts as free of data loss; in a zone with a daylight saving
  gap it is not (`SafeIsLosslessIff`, `SpringForwardLosesTime`).
- The truncation marker is single only if no two calls of a run overlap (`SingleMarkerIff`).
- A reader that pages by cursor misses a row that is committed after a row with a higher id was read
  (`ReadAll`, `LateRowIsMissed`).
- The converted filter is said to give the same operations as the saved inventory
  (backend/tests/unit/test_ai_inventory_filter.py:1-8). It selects the same devices for clean trees
  (`FixedFilterSelectsLikeInventory`); among trees combined by AND and OR that ask for nothing twice,
  `SelectAlikeIff` says exactly for which. `NotOverAnd`, `NotInNot`,
  `EmptyGroupSelectsNothing`, `EmptyNotGroupSelectsEverything`, `OddGroup` and `OddRoot` give a tree
  for each clause.

## Model

| member | source | states |
|---|---|---|
| `ReportWriters.OneWholeCollectionPerKey` | backend/repositories/report_data_records_repository.py:52-131 | when purges keep at least twice the longest transaction, in every reachable state of any number of interleaved writers and purges each (run, dataset, device) holds rows of at most one collection, and, unless a purge has cut into it, exactly what one call stores: numbered 0..n-1, an empty marker only alone |
| `ReportWriters.RetentionIff` | backend/services/report_data/report_data_service.py:122-128 | that retention is exactly what is needed: no key ever holds two collections in any run whose transactions last at most so long, if and only if the purges keep at least twice that long |
| `ReportWriters.ShortRetentionMixesCollections` | backend/repositories/report_data_records_repository.py:210-249 | for every shorter retention, a run with two rival writers and a purge between them that leaves two collections at one key |
| `ReportWriters.RacePurgeIsSelected` | backend/repositories/report_data_records_repository.py:231-241 | the row which that purge deletes is one its query selects |
| `ReportWriters.OneCollectionIffTidy` | backend/repositories/report_data_records_repository.py:48-50 | with purges wherever they fall, no key holds two collections anywhere in a run if and only if every insert met the unique index or found its key clear; then uncut keys are whole as well |
| `ReportWriters.OneCollectionAfterInsertIff` | backend/repositories/report_data_records_repository.py:123-124 | one insert keeps one collection at its key if and only if the index rejects it or no row that it did not delete is left there |
| `ReportWriters.TidyStepKeepsKeys` | backend/repositories/report_data_records_repository.py:66-131 | every other step keeps every key: deletes, checks, failures, and purges beside writers in flight |
| `ReportWriters.StepKeepsSound` | backend/repositories/report_data_records_repository.py:66-131 | in every run, ids stay unique and a writer in flight has deleted only rows of its own key that are not another node's |
| `ReportWriters.StepKeepsCover` | backend/repositories/report_data_records_repository.py:100-106 | under that retention every statement of every writer and every purge leaves each writer in flight either bound to collide or alone at its key |
| `ReportWriters.CoveredInsertIsTidy` | backend/repositories/report_data_records_repository.py:100-124 | such a writer's insert is rejected by the unique index or finds no row left at its key: every collection contains position 0, so two uncommitted writers collide |
| `ReportWriters.CommitKeepsCover` | backend/repositories/report_data_records_repository.py:105-106 | after a commit, any other writer in flight on the same key is bound to collide, and stays so under purges |
| `ReportWriters.RecordsAreWhole` | backend/repositories/report_data_records_repository.py:75-98 | an attempt stores each given row at its own position with its data, or, when nothing was given, one empty marker at 0; one collection, which always includes position 0 |
| `ReportWriters.DeletionIs` | backend/repositories/report_data_records_repository.py:107-119 | the DELETE takes exactly the rows of the same run, dataset and device that have no node, the writer's node, or any node when the writer has none |
| `ReportWriters.RefusesIs` | backend/repositories/report_data_records_repository.py:133-148 | the check refuses exactly when a row of the same key with another node is visible; rows and writers without a node never conflict |
| `ReportWriters.OwnedRowsAreSafe` | backend/repositories/report_data_records_repository.py:99-131 | over whole runs, a row that disappeared was removed by a purge or by a committing writer of the same key that is not another node |
| `ReportWriters.RemovalIsAuthorised` | backend/repositories/report_data_records_repository.py:107-119 | the same for a single step |
| `ReportWriters.ForeignRowStopsWriter` | backend/repositories/report_data_records_repository.py:120-154 | while another node's row is stored, the check ends in the conflict error, and the insert is rejected without a change if and only if it is tidy |
| `ReportWriters.ForeignRowMeansNoSuccess` | backend/repositories/report_data_records_repository.py:44-46 | over whole runs, a writer that was not yet past its check when another node's row was stored never succeeds while that row stays, whatever is purged; in tidy runs no writer does |
| `ReportWriters.ErrorsHaveACause` | backend/repositories/report_data_records_repository.py:120-131 | and only then: a conflict comes with another node's row, a rejection with a committed row the attempt did not delete |
| `ReportWriters.SuccessIsExact` | backend/repositories/report_data_records_repository.py:123-131 | in every run, a successful writer adds exactly what its call stores, alone at its key if and only if the insert was tidy, and leaves every other key as it was; an unsuccessful insert changes nothing |
| `ReportWriters.RetryIsBounded` | backend/repositories/report_data_records_repository.py:52-64 | no writer issues more than three statements per attempt and two attempts, whatever the others do |
| `ReportWriters.RejectedOnceTriesAgain` | backend/repositories/report_data_records_repository.py:52-64 | a first rejection starts the second attempt, a second one is reported |
| `ReportWriters.WriterIsNeverStuck` | backend/repositories/report_data_records_repository.py:52-131 | an unfinished writer always has a next statement |
| `ReportRepository.ReportDataRecordRepository.ReplaceOnce` | backend/repositories/report_data_records_repository.py:66-131 | one attempt against whatever the other sessions have committed by each of its statements: conflict exactly if another node's row is there at the check, rejection exactly if an undeleted row at a position of its own is there at the insert, and the table each leaves |
| `ReportRepository.ReportDataRecordRepository.ReplaceRows` | backend/repositories/report_data_records_repository.py:26-64 | the retry loop: a second and last attempt only after a rejection; success stores what was given, takes away only rows of its key that it saw and may replace, and is alone there if and only if nothing overlapped; a conflict or a rejection leaves the others' table and comes with its cause |
| `ReportRepository.NewestReplacementIsAnswered` | backend/repositories/report_data_records_repository.py:156-163 | a stored collection that is its device's newest is what latest answers for the device: all of it with markers, and nothing without them if nothing was given |
| `ReportRecords.DeletionKeepsLatest` | backend/repositories/report_data_records_repository.py:156-208 | deleting any rows outside the newest collections leaves the latest answer of every dataset unchanged, with and without empty markers |
| `ReportRecords.DeletionKeepsLatestIff` | backend/repositories/report_data_records_repository.py:213-215 | deleting stored rows keeps every latest answer if and only if none of them belongs to a newest collection |
| `ReportPurges.DeleteKeepsLatest` | backend/repositories/report_data_records_repository.py:230-246 | with SELECT and DELETE of any number of purges as separate steps beside commits in any order of stamps, no DELETE changes a latest answer, however old its batch, if purges keep at least the longest transaction |
| `ReportPurges.PurgeRetentionIff` | backend/services/report_data/report_data_service.py:122-128 | that retention is exactly what is needed: no DELETE changes a latest answer in any run whose transactions last at most so long, if and only if the purges keep at least that long |
| `ReportPurges.DeleteKeepsAnswersIff` | backend/repositories/report_data_records_repository.py:213-215 | one DELETE keeps every latest answer if and only if no stored row of its batch belongs to a newest collection by then |
| `ReportPurges.CommitExposesNone` | backend/repositories/report_data_records_repository.py:218-227 | a commit brings no collection to the top that was made before its transaction began |
| `ReportPurges.EarlierCommitExposesBatch` | backend/repositories/report_data_records_repository.py:230-244 | for every shorter retention, a run in which a commit makes a selected collection the newest and its DELETE then loses the answer |
| `ReportRecords.DeletionKeepsNewest` | backend/repositories/report_data_records_repository.py:218-227 | it keeps the set of newest collections of all datasets and devices |
| `ReportRecords.RankWithinDataset` | backend/repositories/report_data_records_repository.py:164-178 | ranking one dataset per device is ranking the table per dataset and device |
| `ReportRecords.LatestIs` | backend/repositories/report_data_records_repository.py:180-208 | a row is answered for a dataset if and only if it is stored there, belongs to the collection of the row of its device and dataset with the greatest (created_at, id), and is no marker unless markers are asked for |
| `ReportRecords.LatestIsOneCollection` | backend/repositories/report_data_records_repository.py:180-208 | of one dataset and device, latest answers exactly one collection, that of the row with the greatest (created_at, id) |
| `ReportRecords.EmptyCollectionSupersedes` | backend/repositories/report_data_records_repository.py:156-163 | a device whose newest collection is empty contributes no rows and does not fall back |
| `ReportRecords.PurgeableSoFar` | backend/repositories/report_data_records_repository.py:231-241 | part way through a purge a batch selects from exactly the rows purgeable at the start and not yet gone |
| `ReportRecords.PurgeKeepsLatest` | backend/repositories/report_data_records_repository.py:230-246 | after every batch readers get the answers they got before the purge |
| `ReportRecords.PurgeFinished` | backend/repositories/report_data_records_repository.py:242-243 | when nothing is selected any more, what remains is exactly the rows at or after the cutoff plus the newest collections |
| `ReportRecords.CollectionsGoTogether` | backend/repositories/report_data_records_repository.py:213-214 | if the rows of a collection share created_at, a finished purge keeps or drops each collection whole |
| `ReportRecords.NewestCollectionStaysWhole` | backend/repositories/report_data_records_repository.py:214-215 | every dataset and device that had rows keeps its newest collection, whole |
| `ReportRecords.LowestIds` | backend/repositories/report_data_records_repository.py:231-241 | a batch is the lowest ids, as many as the limit allows |
| `ReportRepository.ReportDataRecordRepository.PurgeOlderThan` | backend/repositories/report_data_records_repository.py:210-249 | terminates for every batch size, keeps exactly the rows at or after the cutoff and those of their device's newest collection whatever the (positive) batch size, returns the number of rows removed, and changes no latest answer |
| `CompareAndSet.RespectsIffTerminalKept` | backend/repositories/run_repository.py:178-182 | exactly the guards that name no terminal status other than their own target can never change a terminal status |
| `CompareAndSet.TerminalIsAbsorbing` | backend/repositories/run_repository.py:173-175 | under every interleaving of such guarded updates terminal statuses are absorbing |
| `CompareAndSet.OneTerminalMove` | backend/repositories/run_repository.py:186-195 | at most one caller is told that it made the terminal move; a later one that is told so wrote the same status again and its own guard names it |
| `CompareAndSet.SecondWinnerNeedsAWayBack` | backend/repositories/change_request_repository.py:139-143 | a second winner needs another winner in between that moved the row back into its expected statuses |
| `RunLifecycle.RunHistory` | backend/repositories/run_repository.py:163-211 | a run's status is a compare-and-set history: only transition_run moves it, recording the engine id does not |
| `RunLifecycle.TerminalRunStaysTerminal` | backend/repositories/run_repository.py:163-195 | success, failed and cancelled never change in any interleaving of disciplined writers |
| `RunLifecycle.GuardKeepsTerminalIff` | backend/repositories/run_repository.py:178-182 | a transition can never move a terminal run if and only if its from_statuses name no terminal status but the target |
| `RunLifecycle.OneWriterEndsTheRun` | backend/repositories/run_repository.py:194-195 | at most one writer is told that it ended the run, among all disciplined writers; a later one that is told so repeated the status that its from_statuses name |
| `RunLifecycle.OneWorkerClaimsTheRun` | backend/hatchet/workflows/workflow_run/__init__.py:82-92 | at most one delivery claims a pending run |
| `RunLifecycle.EndedRunsStayClean` | backend/repositories/run_repository.py:183-185 | in every interleaving a terminal run has no current node and no approval state |
| `RunLifecycle.FrozenIffNoUpdateApplies` | backend/repositories/run_repository.py:349-364 | of the rows of a cancelled run, exactly the success, failed and skipped ones can no longer be updated |
| `RunLifecycle.PartialRowIsReopened` | backend/repositories/run_repository.py:22 | a partial row of a cancelled run can be set back to running |
| `RunLifecycle.FailedRowStaysFailed` | backend/repositories/run_repository.py:259-266 | rows of a cancelled run that the first UPDATE finds running stay failed with the cut message, column for column, in every continuation |
| `RunLifecycle.SkippedRowStaysSkipped` | backend/repositories/run_repository.py:267-271 | rows of a cancelled run that the second UPDATE finds pending stay skipped, column for column, in every continuation |
| `RunLifecycle.RowEscapesIff` | backend/repositories/run_repository.py:254-272 | a row that was open at the first UPDATE can still be changed after the second if and only if a worker set it to running or partial in between and nothing changed it since |
| `RunLifecycle.RowStartedBetweenUpdatesStaysOpen` | backend/repositories/run_repository.py:259-271 | a pending row that a worker starts between the two UPDATEs stays running in the cancelled run |
| `RunLifecycle.FrozenRowStays` | backend/repositories/run_repository.py:349-368 | a terminal row of a cancelled run stays as it is in every continuation |
| `RunLifecycle.OtherRowsUntouched` | backend/repositories/run_repository.py:254-272 | closing a run's open rows leaves rows of other runs and of other statuses alone |
| `RunLifecycle.RunRepository.Transition` | backend/repositories/run_repository.py:163-195 | true exactly if the guard matched; then the row has the target status, each given field, both approval columns cleared if the target is terminal, and every other column as before; no other row changes |
| `RunLifecycle.RunRepository.StoreHatchetRunId` | backend/repositories/run_repository.py:197-211 | writes one column and never the status |
| `RunLifecycle.RunRepository.UpdateRunStatus` | backend/repositories/run_repository.py:213-252 | an ended run is returned as the other writer left it; any other gets the status and every value given, a value that is missing changes nothing, and the approval state is cleared only on request |
| `RunLifecycle.RunRepository.FinaliseOpenStepResults` | backend/repositories/run_repository.py:254-272 | the two updates close what each finds, with anything done by other sessions between them |
| `RunLifecycle.RunRepository.UpdateStepResult` | backend/repositories/run_repository.py:325-378 | a terminal row of a cancelled run is returned unchanged; any other gets the status and every value given |
| `RunLifecycle.RunRepository.CreateStepResult` | backend/repositories/run_repository.py:299-323 | refused exactly when the run already has a row for the node; otherwise a new pending row |
| `ChangeRequests.RowHistory` | backend/repositories/change_request_repository.py:131-157 | each request moves as one compare-and-set row, whatever happens to the others |
| `ChangeRequests.FinishedStaysFinished` | backend/repositories/change_request_repository.py:131-157 | a terminal request never changes again, fields included |
| `ChangeRequests.OneWinnerUnlessReverted` | backend/repositories/change_request_repository.py:139-157 | of two successful calls the second needs a successful call in between that moved the request back into its expected set |
| `ChangeRequests.ChangeRequestRepository.TransitionTo` | backend/repositories/change_request_repository.py:131-157 | returns the row exactly when the guard matched, with the target status, the given fields and the others as before; otherwise nothing changes |
| `ChangeRequests.ChangeRequestRepository.Create` | backend/repositories/change_request_repository.py:31-70 | a new request starts as staged |
| `SchemaSync.SyncConverges` | backend/migrations/auto_schema.py:639-672 | if every statement is accepted, no table, non-key column or index is missing afterwards |
| `SchemaSync.SyncedColumns` | backend/migrations/auto_schema.py:585-604 | whatever is accepted, afterwards a table exists if it did or was created, an old one has gained exactly the accepted missing columns that are no keys, a new one has all of the model's, each as the model wants it |
| `SchemaSync.SyncedIndexes` | backend/migrations/auto_schema.py:606-621 | the same for indexes and their uniqueness |
| `SchemaSync.SyncedHoldsTheModel` | backend/migrations/auto_schema.py:303-308 | if everything is accepted, every model table but the two bookkeeping ones is there with every column that is no key and every index, a new one exactly as in the model, and all other tables are untouched |
| `SchemaSync.AnalysisIs` | backend/migrations/auto_schema.py:303-370 | what is listed as missing: tables, columns that are no keys, indexes |
| `SchemaSync.ColumnDiffsAre` | backend/migrations/auto_schema.py:329-351 | the differences listed are exactly the columns of both sides, keys excepted, that differ in type or nullability, safe exactly if no NOT NULL is added and the type changes safely |
| `SchemaSync.MigratedColumnIs` | backend/migrations/auto_schema.py:542-578 | what a migration makes of each column that was there, whatever is accepted |
| `SchemaSync.SecondRunIsIdle` | backend/migrations/auto_schema.py:639-672 | a second run creates nothing and changes nothing |
| `SchemaSync.SyncRemovesNothing` | backend/migrations/auto_schema.py:585-621 | whatever is accepted or refused, every table, column and index already present stays unchanged |
| `SchemaSync.SyncKeepsDiffs` | backend/migrations/auto_schema.py:329-351 | run neither adds nor removes a column difference |
| `SchemaSync.MigrationLeavesExactlyTheUnsafe` | backend/core/schema_manager.py:54-101 | when all statements succeed a migration leaves exactly the initially unsafe differences, and none when forced |
| `SchemaSync.UnsafeColumnsAreLeftAlone` | backend/migrations/auto_schema.py:550-554 | without force an unsafe column is never touched, even when statements fail |
| `SchemaSync.SafeChangeKeepsValues` | backend/migrations/auto_schema.py:104-112 | every stored value, NULL included, is admissible in the column after a safe change |
| `SchemaMigration.AutoSchemaMigration.Analyze` | backend/migrations/auto_schema.py:293-391 | table by table, the missing tables, columns and indexes and the column differences |
| `SchemaMigration.AutoSchemaMigration.CreateTables` | backend/migrations/auto_schema.py:410-460 | creates the accepted tables with their columns and indexes |
| `SchemaMigration.AutoSchemaMigration.CreateMissingTables` | backend/migrations/auto_schema.py:585-590 | creates exactly the accepted missing tables |
| `SchemaMigration.AutoSchemaMigration.AddColumns` | backend/migrations/auto_schema.py:484-519 | adds the accepted columns and skips keys |
| `SchemaMigration.AutoSchemaMigration.AddMissingColumns` | backend/migrations/auto_schema.py:592-604 | adds exactly the accepted missing non-key columns |
| `SchemaMigration.AutoSchemaMigration.CreateIndexes` | backend/migrations/auto_schema.py:521-540 | creates the accepted indexes |
| `SchemaMigration.AutoSchemaMigration.CreateMissingIndexes` | backend/migrations/auto_schema.py:606-621 | creates exactly the accepted missing indexes |
| `SchemaMigration.AutoSchemaMigration.Run` | backend/migrations/auto_schema.py:623-672 | returns normally if and only if every unique index of an existing model table exists, whatever statements failed, else names the missing ones; the counts are the new tables, columns and indexes |
| `SchemaMigration.AutoSchemaMigration.AlterColumn` | backend/migrations/auto_schema.py:556-576 | type first, then nullability; a refused statement ends the column |
| `SchemaMigration.AutoSchemaMigration.ApplyColumnDiffs` | backend/migrations/auto_schema.py:542-578 | sorts each difference into changed, refused or skipped |
| `SchemaMigration.OrderDoesNotMatter` | backend/migrations/auto_schema.py:550 | in whatever order the differences of one analysis are applied, each column ends as its own difference leaves it |
| `SchemaMigration.AutoSchemaMigration.PerformMigration` | backend/core/schema_manager.py:54-101 | a structural failure stops before any column is changed; success if and only if every unique index exists and no statement of a harmless (or, forced, any) column change is refused |
| `SchemaMigration.AcceptedMigrationSucceeds` | backend/core/schema_manager.py:85-90 | when every statement is accepted the migration succeeds |
| `ColumnTypes.NamesDecideSafety` | backend/migrations/auto_schema.py:67-84 | deciding on the type names, regular expression included, is deciding on the types |
| `ColumnTypes.SafeIsPartialOrder` | backend/migrations/auto_schema.py:67-84 | safe changes form a partial order |
| `ColumnTypes.SafeCastFits` | backend/migrations/auto_schema.py:67-84 | every value of the old type is a value of the new one |
| `ColumnTypes.SafeIffEveryValueFits` | backend/migrations/auto_schema.py:67-84 | on sized types a change is safe if and only if every old value is a value of the new type |
| `ColumnTypes.SafeUnsized` | backend/migrations/auto_schema.py:71-79 | unsized VARCHAR may only become TEXT, nothing becomes it, and a TIMESTAMP may only gain its time zone |
| `ColumnTypes.NamedChanges` | backend/migrations/auto_schema.py:67-84 | the rule on the names of the listed types |
| `ColumnTypes.SafeIsLosslessIff` | backend/migrations/auto_schema.py:78-79 | a safe change merges no two values, except TIMESTAMP to TIMESTAMP WITH TIME ZONE, which does exactly when the session zone is not injective |
| `ColumnTypes.SpringForwardLosesTime` | backend/migrations/auto_schema.py:78-79 | a zone with a daylight saving gap merges two local times |
| `LikeSearch.LikeMeansContains` | backend/repositories/ai_glossary_repository.py:18-19 | for every search text and stored text the escaped pattern matches if and only if the stored text contains the search text |
| `LikeSearch.ChainedReplacesEscapeEach` | backend/repositories/ai_glossary_repository.py:18-19 | the three chained replacements escape character by character |
| `LikeSearch.EscapedTextIsLiteral` | backend/repositories/ai_glossary_repository.py:18-19 | escaped text matches itself and nothing else |
| `LikeSearch.SearchSelectsContaining` | backend/repositories/ai_glossary_repository.py:100-105 | the search keeps exactly the terms that contain the folded query |
| `Text.StripIs` | backend/repositories/ai_glossary_repository.py:101-102 | strip takes away exactly the white space at both ends |
| `LeakScanner.ExtractBalancedParen` | backend/scripts/check_http_500_leaks.py:44-77 | returns the span up to the first position where a reference lexer sees a closing parenthesis bring the code depth to zero, or nothing when there is none |
| `LeakScanner.ShortestBalancedSpan` | backend/scripts/check_http_500_leaks.py:44-77 | from an opening parenthesis that span is the shortest one with depth zero |
| `LeakScanner.StringsAre` | backend/scripts/check_http_500_leaks.py:54-65 | from an opening quote everything belongs to the string up to a quote of the same kind that an even number of backslashes precedes, and no parenthesis in it counts |
| `LeakScanner.CommentsAre` | backend/scripts/check_http_500_leaks.py:66-69 | from a hash sign everything belongs to the comment up to the line end, and no parenthesis in it counts |
| `LeakScanner.SkipString` | backend/scripts/check_http_500_leaks.py:54-65 | a string literal is skipped with its escapes, an unterminated one to the end |
| `LeakScanner.SkipComment` | backend/scripts/check_http_500_leaks.py:66-69 | a comment is skipped up to its line end |
| `LeakScanner.IterHttpExceptionBlocks` | backend/scripts/check_http_500_leaks.py:80-103 | reports complete calls in order and without overlap, with line and text, and misses only calls that start inside a reported one |
| `LeakScanner.CallFrom` | backend/scripts/check_http_500_leaks.py:90-98 | finds the complete call that starts at a name, if there is one |
| `LeakScanner.CallIs` | backend/scripts/check_http_500_leaks.py:84-96 | a complete call is the name, white space, an opening parenthesis and a position that closes it, and it ends at the first such position |
| `LeakScanner.CountNewlines` | backend/scripts/check_http_500_leaks.py:100 | the number of line ends before a position |
| `LeakScanner.LinesAre` | backend/scripts/check_http_500_leaks.py:100 | lines count from 1, and every line end starts the next |
| `FilterTree.TreeMeaning` | backend/scripts/ai_inventory_filter.py:144-166 | for every truth assignment and every reading of combinators and negation the converted tree means the same, if and only if no lone NOT group was unwrapped or the reading treats a negated root like a root around it |
| `FilterTree.BooleanMeaningPreserved` | backend/scripts/ai_inventory_filter.py:113-166 | so the Boolean meaning is preserved for every tree with an AND or OR root, whatever an empty AND or OR means |
| `FilterTree.SubtractiveMeaningPreserved` | backend/scripts/ai_inventory_filter.py:113-166 | and so is the subtractive reading, for every tree |
| `FilterTree.TreeLeavesKept` | backend/scripts/ai_inventory_filter.py:113-127 | every condition is kept, unchanged and in order |
| `FilterTree.ConvertItems` | backend/scripts/ai_inventory_filter.py:113-127 | the loop computes the recursive conversion |
| `FilterTree.ConvertGroup` | backend/scripts/ai_inventory_filter.py:130-141 | the combinator, AND if there is none, becomes the logic, and a NOT the negation |
| `FilterTree.ConditionTreeToFilterTree` | backend/scripts/ai_inventory_filter.py:144-166 | a lone NOT group becomes a negated root, any other tree a plain one, with the combinator, AND if there is none, and the items of that group or tree |
| `FilterTree.SavedConditionsToDeviceFilter` | backend/scripts/ai_inventory_filter.py:169-182 | a version-2 root tree is converted, anything else gives the empty tree |
| `FilterTree.RoundTripIff` | frontend/src/components/features/inventory/utils/tree-format-converters.ts:59-106 | saving a filter and converting it back is the identity if and only if its id is root and it is not a plain root around one negated group |
| `InventorySelection.FixedFilterSelects` | backend/workflow_steps/get_nautobot_devices/executor.py:39-77 | every non-empty fixed filter selects exactly the devices of its reading, an empty one all devices |
| `InventorySelection.ProperMeaning` | backend/workflow_steps/get_nautobot_devices/executor.py:39-77 | where no group is combined by NOT, that reading is the subtractive one |
| `InventorySelection.SavedTreeSelects` | backend/utils/inventory_converter.py:22-170 | every non-empty saved tree selects exactly the devices of its reading, an empty one all devices |
| `InventorySelection.FixedFilterSelectsLikeInventory` | backend/scripts/ai_inventory_filter.py:144-166 | for every clean tree the converted filter and the saved inventory select the same devices, whatever the conditions match |
| `InventoryExactness.SelectAlikeIff` | backend/tests/unit/test_ai_inventory_filter.py:1-8 | among trees combined by AND and OR that ask for nothing twice, the converted filter and the saved inventory select the same devices for all answers of the conditions if and only if the tree is alike, a condition on its shape |
| `InventoryExactness.SelectAlikeIffClean` | backend/tests/unit/test_ai_inventory_filter.py:1-8 | where moreover the root and every group have a plain member, those are exactly the clean trees |
| `InventoryExactness.AlikeSelectsAlike` | backend/scripts/ai_inventory_filter.py:144-166 | every tree that is alike, repeated conditions included, selects the same devices both ways |
| `InventoryExactness.HoldsOnlyIfLive` | backend/services/sources/nautobot/evaluator.py:76-105 | an item holds for some answers only if its shape makes it live |
| `InventoryExactness.UnlikeTells` | backend/utils/inventory_converter.py:76-79 | every item that is not alike has an assignment to its own conditions under which its two readings differ |
| `InventoryExactness.UnlikeMemberTells` | backend/utils/inventory_converter.py:134-144 | a difference inside a group shows outside of it, unless the group overlooks that member |
| `InventorySelection.OperandsCombine` | backend/services/sources/nautobot/evaluator.py:76-105 | intersection, union and subtraction of device sets compute the reading of an operation, NOT operations included |
| `InventorySelection.ExecutesAsSets` | backend/services/sources/nautobot/evaluator.py:76-105 | on two conditions and one to exclude: intersection, union, and for NOT the union |
| `InventorySelection.NextOperation` | backend/services/sources/nautobot/source_service.py:64-71 | after a selection a plain operation narrows it and a NOT operation takes away from it |
| `InventorySelection.PreviewNots` | backend/services/sources/nautobot/source_service.py:58-71 | later NOT operations remove their devices from what was selected |
| `InventoryExactness.EmptyNotGroupSelectsEverything` | backend/scripts/ai_inventory_filter.py:157-165 | a lone empty NOT group selects nothing as a saved inventory and every device as a fixed filter |
| `InventoryExactness.EmptyGroupSelectsNothing` | backend/utils/inventory_converter.py:94-104 | a condition and an empty group joined by AND select by the condition as a saved inventory and nothing as a fixed filter |
| `InventoryExactness.OddGroup` | backend/utils/inventory_converter.py:101-103 | a group of one condition with another combinator than AND or OR counts as the condition in a saved inventory, and excludes it or selects nothing in a fixed filter |
| `InventoryExactness.OddRoot` | backend/utils/inventory_converter.py:88-89 | a root of one condition with another combinator selects by the condition as a saved inventory and nothing as a fixed filter |
| `InventoryExactness.NotOverAnd` | backend/utils/inventory_converter.py:76-79 | a condition with NOT over an AND beside it: the saved inventory excludes the union, the fixed filter the intersection |
| `InventoryExactness.NotInNot` | backend/utils/inventory_converter.py:138-142 | a condition with a NOT inside a NOT beside it: the saved inventory overlooks the inner one |
| `Base64Url.RoundTrip` | backend/core/passphrase_cipher.py:104-113 | decoding the unpadded text of any byte string gives it back |
| `Base64Url.EncodedIsPlain` | backend/core/passphrase_cipher.py:104-105 | unpadded text is alphabet characters only, and the restored padding is the padding stripped |
| `Base64Url.DecodesIffWholeBytes` | backend/core/passphrase_cipher.py:108-113 | a text over the alphabet decodes if and only if its length is not one more than a multiple of four |
| `Base64Url.TestVectors` | backend/core/passphrase_cipher.py:104-105 | the vectors of section 10 of RFC 4648 |
| `Base64Url.AlphabetIs` | backend/core/passphrase_cipher.py:104-105 | the URL-safe alphabet of RFC 4648, in order |
| `Tokens.TokenFields` | backend/core/passphrase_cipher.py:77-89 | a produced token splits into exactly its six fields; only an iteration count out of bounds is refused |
| `Tokens.DecryptUndoesEncrypt` | backend/core/passphrase_cipher.py:136-195 | with an ideal cipher, a passphrase of twelve or more characters and accepted algorithms, encryption succeeds, and decryption returns the plaintext if and only if the count of the token is within 600 000 and 5 000 000, whatever count is configured since |
| `Tokens.EncryptIsOkIff` | backend/core/passphrase_cipher.py:129-151 | encryption succeeds if and only if the passphrase has at least twelve characters and the algorithm is absent, blank or the supported one in any case; otherwise which error |
| `Tokens.EncryptedTextIs` | backend/core/passphrase_cipher.py:153-160 | the six fields of the token text |
| `Tokens.DecryptRefuses` | backend/core/passphrase_cipher.py:163-181 | what decryption refuses, and in which order: short passphrases, malformed tokens, counts out of bounds, other algorithms |
| `Tokens.DecryptOpens` | backend/core/passphrase_cipher.py:184-195 | every other token is opened with the key of its own salt and count; a segment that does not decode and a failed decryption are told apart |
| `Tokens.AlgorithmsNeverMismatch` | backend/core/passphrase_cipher.py:178-181 | with one supported algorithm the mismatch error cannot occur |
| `Tokens.CredentialOutlivesConfiguration` | backend/core/crypto.py:80-99 | a stored credential has its three fields and is readable by every service with the same secret if and only if its stored count is within 600 000 and 5 000 000 |
| `Tokens.CredentialRefused` | backend/core/crypto.py:84-99 | a value without the prefix, the three fields, or a count within bounds is refused without asking the cipher |
| `Text.ParseUndoesDecimal` | backend/core/passphrase_cipher.py:84 | int undoes str |
| `Text.SplitUndoesJoin` | backend/core/passphrase_cipher.py:158-160 | a joined list of separable fields splits into the same fields, with or without a limit on the cuts |
| `BackgroundTier.EqualFingerprintMeansEqualRows` | backend/repositories/background_tier_repository.py:26-62 | over every history, an equal count and newest update time mean identical rows, unless some publish in between changed the table and was stamped no later than what the fingerprint saw |
| `BackgroundTier.IncreasingTimesHideNothing` | backend/repositories/background_tier_repository.py:26-62 | so with strictly increasing update times an equal fingerprint never hides a change |
| `BackgroundTier.NothingHidesIff` | backend/repositories/background_tier_repository.py:26-32 | an equal fingerprint means equal rows in every continuation whose publishes are stamped after a bound, if and only if the bound is not before the newest time of the fingerprint |
| `BackgroundTier.ChangeHidesIff` | backend/repositories/background_tier_repository.py:26-62 | a change that changes the table leaves the fingerprint as it was if and only if it edits a limit and is stamped with the newest time, or earlier while another row carries the newest time |
| `BackgroundTier.PollIsSoundIff` | backend/hatchet/dynamic_worker.py:70-107 | at a poll with an equal fingerprint, when nothing that changed the table since the rows were read is stamped no later than they are, the registered rows are the published ones if and only if the stored fingerprint is the one of the registered rows |
| `BackgroundTier.PublishBetweenReadsIsHidden` | backend/hatchet/dynamic_worker.py:73-77 | a publish between the two reads is hidden |
| `BackgroundTier.LateCommitIsHidden` | backend/repositories/background_tier_repository.py:41-46 | an edit stamped earlier than another row's update but committed after the fingerprint is hidden |
| `BackgroundTier.BackgroundTierRepository.PublishWorkflow` | backend/repositories/background_tier_repository.py:34-58 | a new row, or the limit edited and stamped, or nothing when it is the same; no other row changes |
| `BackgroundTier.BackgroundTierRepository.UnpublishWorkflow` | backend/repositories/background_tier_repository.py:60-62 | removes exactly that row |
| `BackgroundTier.BackgroundTierRepository.ReadFingerprint` | backend/repositories/background_tier_repository.py:26-32 | count and newest update time, none for an empty table |
| `BackgroundTier.SelfRestartOnChange` | backend/hatchet/dynamic_worker.py:89-107 | restarts at the first poll that differs and at no earlier one |
| `JobSlots.CounterIsExact` | backend/core/regex_isolated.py:47-58 | in every schedule, with cancellations and exceptions, the counter is the number of tasks holding a slot, at most the limit, and each slot is taken and given back at most once |
| `JobSlots.BusyOnlyWhenFull` | backend/core/textfsm_isolated.py:64-67 | a task is told busy only past its deadline while exactly the limit of tasks hold a slot, and that changes nothing |
| `JobSlots.PollDecides` | backend/core/regex_isolated.py:50-54 | a free slot is taken at once, otherwise the task sleeps on until its deadline has passed |
| `JobSlots.AllEndedMeansZero` | backend/core/textfsm_isolated.py:68-72 | when every task has ended the counter is zero and every slot taken was given back |
| `JobSlots.Slots.TryAcquire` | backend/core/regex_isolated.py:50-54 | one turn of the waiting loop is one step of the state machine |
| `JobSlots.Slots.Release` | backend/core/regex_isolated.py:57-58 | gives the slot back, as the state machine does |
| `EventLog.OverlapBoundsTheLog` | backend/repositories/run_event_repository.py:30-60 | with count and insert as separate steps and at most m calls of a run in between, the run holds at most cap + m rows, the first cap of them events, and at most m markers |
| `EventLog.CapKeepsFirstEvents` | backend/repositories/run_event_repository.py:30-60 | if no two calls of a run overlap, after n calls it holds min(n, cap + 1) rows: the first cap events, cut, and one marker in place of the next, whatever other runs do |
| `EventLog.SingleMarkerIff` | backend/repositories/run_event_repository.py:33-34 | the marker is single in every run of the log if and only if no two calls of a run overlap |
| `EventLog.BoundIsReached` | backend/repositories/run_event_repository.py:35-46 | for every cap and m, m calls that count before any inserts store cap + m rows, of which the last m are markers |
| `EventLog.MarkerIs` | backend/repositories/run_event_repository.py:43-46 | the marker is of kind truncated, a warning, of the same step and no device |
| `EventLog.RunEventRepository.AddEvent` | backend/repositories/run_event_repository.py:18-60 | appends the cut event, the marker, or nothing |
| `EventLog.RunEventRepository.ListEvents` | backend/repositories/run_event_repository.py:62-71 | the page is the next rows of the run, up to the limit, from the first one whose id is above the cursor |
| `EventLog.PageIsNext` | backend/repositories/run_event_repository.py:62-71 | the page at the cursor of the last row read is the next rows of the run |
| `EventLog.ReadAll` | backend/repositories/run_event_repository.py:62-71 | following the cursor while rows appear yields rows once and in id order, and misses a row of the run if and only if it became visible at or behind the cursor |
| `EventLog.AppendedIsNotLate` | backend/repositories/run_event_repository.py:62-71 | rows that only ever appear at the end are never missed |
| `EventLog.LateRowIsMissed` | backend/repositories/run_event_repository.py:62-71 | a row whose id was assigned first and committed second is missed |
| `EventLog.RunEventRepository.ListLatestEvents` | backend/repositories/run_event_repository.py:73-85 | the newest rows of the run (or of one step), up to the limit, oldest first |
| `EventLog.Cut` | backend/repositories/run_event_repository.py:57 | a long message keeps its first 1000 characters and nothing else changes |

## Left out

- ReportRecords.LatestIsOneCollection: states which rows are answered, not their order (device name, then id), which the set determines.
- InventoryExactness.SelectAlikeIff: the equivalence is for trees without repeated conditions and without other combinators than AND and OR; with those a group may go unnoticed. Index narrowing in the evaluator is an optimisation and operation names are taken in upper case.
- ReportRepository.ReportDataRecordRepository.PurgeOlderThan: one session; what other sessions do between its statements is in `ReportPurges`.
- SchemaMigration.AutoSchemaMigration.Analyze: reports sets, not sorted lists, and leaves out what is extra in the database.
- SchemaMigration.AutoSchemaMigration.CreateTables: foreign keys, their order and deferred constraints are part of whether a statement is accepted; unnamed indexes are not modelled.
- Tokens.DecryptUndoesEncrypt: algorithm names are folded in ASCII only, and digits other than 0-9 are not digits.
- FilterTree.SavedConditionsToDeviceFilter: a key that is present with a null value is treated as missing.
- Deleting or purging runs (which clears `run_id` on report rows and removes step rows) is not a step of the run and writer machines.
- PostgreSQL's re-check of an UPDATE that waited for a lock; each UPDATE sees one state.
- Rendering of column definitions and types, the regular expressions of the leak check, Pydantic models, routers and HTTP error mapping.
- Device groups of a run, run lists, glossary terms and names, and the other plain queries.
- Subprocess control, time limits and memory limits of the regex and TextFSM workers.
- Strength of the ciphers.
