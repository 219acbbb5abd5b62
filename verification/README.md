# DuckLake tables, verified in Dafny

A model of how datafusion-ducklake keeps, rewrites, reads and forks the history of a
DuckLake table, and proofs of what those operations keep. To verify every `.dfy` file, use
`dafny verify dfyconfig.toml`.

## What is modelled

**One table's history** (`Lake`, and the modules over it). The catalog keeps a table's
history in four encodings: data files with a per-row origin snapshot where a file spans
several; delete files with a snapshot per position; inlined rows; inlined deletions of
file rows. `Lake.Scan` is the one definition of what a read at a snapshot returns,
including the listing's left join, which reads a file once per delete file live at the
snapshot. `Merge`, `MergePlan`, `Rewrite`, `FlushRows`, `FlushDeletes`, `Deletes`,
`DeleteAll` and `Fork` are steps on that state, `MergeBins` ties the plan of a merge pass to
its commits; `History`, `Managed`, `ManagedDeletes` and `Unstaged` are whole runs of steps. A commit opens the next snapshot id and makes its changes at it;
the changes of `commit_compaction` and `commit_inlined_flush` to one table are one step.

**Around it**: the catalog read memo as a protocol of concurrent queries (`CatalogMemo`,
`StaleAbsence`) and its fill over a provider without consistent reads, with any commits
between its statements (`QuietSteps`, `Fill`, `MergedPages`); the merge's concurrent
read-ahead (`ReadAhead`); the field-id adapter (`FieldIdAdapter`, `ExprAdapter`); DuckDB's
integer casts (`DuckdbCast`), which texts they accept (`CastForms`), exactly when their
values are the numbers spelled (`CastValues`, `CastExact`) and the casts of the texts of
numbers (`CastTexts`); the inlined filter (`InlinedFilter`, `RenderFilter`,
`DecimalText`) and where it loses nothing (`FilterExact`); change detection
(`ChangeDetection`), against what runs of commits do (`ChangeHistory`, `Chains`); the lazy delete filter
and its memo (`LazyDelete`, `DeleteMemo`), against the catalog (`FilteredScan`); the column walk of a fork
(`ColumnForest`). `Bags`, `Totals` and `Words` hold sums over sequences and maps, and
64-bit arithmetic.

`Lake.Wf` is the invariant every step keeps: ids are distinct, lifetimes lie at or below
the head, embedded origins lie in the range the catalog row implies, a data file's delete
files do not overlap, and a live file with a delete file has a live one. The memo's proofs
rest on two facts it documents: snapshot ids only grow, and every commit that changes what
a scan reads moves the head.

## Where a property does not hold

- Flushing inlined deletions: a live data file with an earlier, ended delete file gets a
  planned delete file that overlaps it, so the listing's join repeats its rows; and a
  retired data file whose latest delete file ended before it forgets deletions.
  `FlushDeletes.FlushKeepsExactly` gives the exact condition, `LiveFileOverlaps` and
  `RetiredFileForgets` inputs, and `Managed.ManagedRunsKeepHistory` shows that a table
  only these commits touched, by writers that stage row mutations, never reaches either.
  One that such a writer and one that does not both delete from can
  (`Unstaged.CumulativeReachesOverlap`).
- Merging: a source whose catalog row understates its embedded origins reads differently
  after the merge (`Merge.MergePreservesExactly`, `UnderstatedPartialMax`).
- `delete_all` miscounts, and can leave rows, where a position is deleted in both
  encodings (`DeleteAll.DeleteAllCounts` and `DeleteAllEmpties` give the exact conditions,
  `DoublyDeletedMiscounts` an input). A table only these commits touched, by writers
  that stage row mutations, never has one (`ManagedDeletes.ManagedDeleteAll`).
- A fill inside a consistent read can take an absence answer noted at a newer head, after
  a flush, and the memo keeps the fill without the rows flushed
  (`StaleAbsence.StaleAnswerIsKept`). `CatalogMemo.StillFillShows` gives the exact
  condition of one fill; `FreshIsTrue` that the answer's head tells.
- Listing pages with a merge between them and no inlined rows to guard them repeats rows
  (`MergedPages.MergeBetweenPagesRepeats`). `Fill.FillExactly` gives the exact condition.
- A budget of the largest 64-bit value passes the saturating test of both memos with a
  total that overflows (`CatalogMemo.StoreCounts` and `LargestBudgetForgets`,
  `DeletePositionMemo.Insert` and `DeleteMemo.LargestBudgetOverflows`).
- A struct path through a child the file predates reads NULL where the whole column would
  read into the child's default (`FieldIdAdapter.PathReadsExactly`). The code's comment
  says a struct default is NULL in every catalog read; the parser used for the whole column
  decodes others.
- The sized table of a delete set stops holding its positions past 7 · 2^59, where the
  64-bit product has saturated (`DeleteMemo.TableHoldsExactly`).
- Texts that spell no number and are cast: a sign followed only by spaces, and an exponent
  mark followed only by spaces. `CastForms.CastsExactly` gives every text that is cast;
  these are `SignAloneIsZero` and `BlankExponentIsZero`.
- Numbers with long fractions can be cast to another value, as in DuckDB: where the 16-bit
  count of the kept digits or its distance from the exponent wraps, where a power of ten
  does, and where a digit left out counts. `CastExact.PlainExactly` and `ExponentExactly`
  give the exact conditions for numbers that fit, `UnfitExactly` for others; `CountWraps`,
  `DistanceWraps`, `WrappedExactly` and `LeftOutDigitMisses` give inputs of each, and
  `PastTheTypeIsCast` a number past the type that is cast all the same.
- `LIKE` without an escape whose pattern holds a backslash: evaluation takes the backslash
  as an escape, the translation as text, so a row can be lost.
  `InlinedFilter.EscapedExactly` and `LikeExactly` give the exact condition,
  `BareBackslashDrops` an input. The evaluator is not part of the repository: the model
  takes Arrow's `like`, where a backslash escapes.
- Among snapshot ids shared with other catalogs, a snapshot expired by its number inside
  the window is missed (`ChangeDetection.NamedExpiryIsUnseen`); `ExpiredInShared` tells
  exactly which expired ones are found.

## Model

| member | source | states |
|---|---|---|
| Lake.JoinedOnce | src/metadata_provider.rs:98-124 | Delete files of a data file that do not overlap leave at most one joined at any snapshot |
| Lake.JoinReadsOnce | src/metadata_provider.rs:98-124 | Under that, the left join shows each live file once, less the positions either encoding deletes by the snapshot |
| Lake.ScanIsShown | src/table.rs:5685-5689 | What a scan returns equals the independent per-file, per-position definition plus the visible inlined rows |
| Merge.BinRange | src/compaction.rs:1306-1345 | The loop finds the least begin and the greatest claimed origin of a bin, both attained, and whether any source embeds origins |
| Merge.CopySource | src/compaction.rs:390-451 | Copying a source stamps every row with its own origin, fails exactly on a missing or NULL one, and raises the observed maximum to the largest copied |
| Merge.CopyBin | src/compaction.rs:390-451 | The same over all sources of a bin, the observed maximum carried from one to the next |
| Merge.MergeBin | src/compaction.rs:1306-1375 | The output holds exactly the sources' stamped rows, begins at the least begin, is partial unless the bin has one origin and no source embeds any, and its `partial_max` is the largest origin it holds; a NULL origin fails it, no rows write no file |
| Merge.MergeKeepsWf | src/metadata_writer_sqlite.rs:7072-7293 | The commit keeps the invariant of the catalog: ids, lifetimes, origins within their range, delete files apart |
| Merge.MergePreservesTimeTravel | src/metadata_writer_sqlite.rs:7072-7293 | For every snapshot, past or future, removing the sources and adding the output changes nothing a scan returns, partial sources included, and keeps the catalog well formed |
| Merge.MergePreservesExactly | src/compaction.rs:1449-1456 | The sources and the output read the same at every snapshot if and only if no embedded origin lies above what its catalog row claims, nor below the file's begin unless that is the begin of the whole bin |
| Merge.UnderstatedPartialMax | src/compaction.rs:214-249 | A catalog and a bin of two files, one understating its origins: a scan at snapshot 1 returns the row before the merge commit and not after |
| MergePlan.PackBins | src/compaction.rs:1109-1168 | The two nested loops pack exactly the runs of two or more files, for every candidate list and target |
| MergePlan.BinsExactly | src/compaction.rs:1143-1168 | A bin is packed for every run of two files or more and for no other |
| MergePlan.NextRun | src/compaction.rs:1149-1164 | The inner loop finds the next of the runs, none of it skipped |
| MergePlan.RunsTile | src/compaction.rs:1109-1168 | The runs lie end to end over the candidates without gap or overlap; each is of one group and would be below the target without its last file |
| MergePlan.BinIsRun | src/compaction.rs:1143-1168 | Every packed bin is a contiguous run of at least two candidates |
| MergePlan.BinsBelowTwiceTarget | src/compaction.rs:1109-1168 | Candidates below the target give runs below twice the target |
| MergePlan.PlannedAreCandidates | src/compaction.rs:1109-1142 | What a pass packs are files of the table with no deletion in either encoding, a known begin and schema version and a size from the least up to below the target, in the order of the sort key |
| MergePlan.PlannedExactly | src/compaction.rs:1109-1142 | What is sorted are, of the table's files, exactly those with no deletion in either encoding, a known begin and schema version and a size from the least up to below the target; a pass takes the first of them up to the largest number |
| MergePlan.OrderIsLexicographic | src/compaction.rs:1131-1141 | The order is that of versions, then partitions, then the lexicographic order of begin, whether the row-id start is missing, the start, and the id |
| MergePlan.OnePlan | src/compaction.rs:1109-1142 | Files of different ids have one plan: any two sortings of one listing agree, and so do the bins |
| MergePlan.SortGroups | src/compaction.rs:1131-1141 | Filtered, sorted and truncated, the candidates of one schema version and partition lie next to each other, for every listing and every order of partition keys |
| MergePlan.OneLeftOutPerGroup | src/compaction.rs:1109-1168 | Two runs of one file differ in schema version or partition, so a pass over any listing leaves out at most one candidate per group |
| MergePlan.PackedBins | src/compaction.rs:1109-1168 | Every bin of a pass holds two or more mergeable files of the table, all of one schema version and partition, below twice the target together and below the target without the last |
| MergePlan.AdjacentRowIdStart | src/compaction.rs:658-668 | A start is returned if and only if the bin's row-id ranges tile one interval without gap, overlap or 64-bit overflow; it is where that interval starts, and every id of the interval lies in exactly one file's range |
| MergePlan.TilesExactly | src/compaction.rs:658-668 | Row-id ranges tile an interval if and only if all are known, the first starts it, each next one starts where the one before ends, and the last ends within 64 bits |
| MergeBins.ListedAtHead | src/compaction.rs:1106-1108 | The files a pass lists are those live at the head |
| MergeBins.BinsAreReady | src/compaction.rs:1109-1168 | Every bin packed from the listing of a well-formed catalog is two or more of its live files, each once, that a merge commit may take: nothing deleted of them in either encoding |
| MergeBins.PassKeepsTimeTravel | src/compaction.rs:1109-1168 | So merging any bin of any pass over any catalog changes what no snapshot reads |
| Rewrite.RewritePreservesTimeTravel | src/compaction.rs:1661-1895 | Moving a file's live rows to a new file at the commit and ending the old one changes nothing any snapshot reads |
| FlushRows.SplitByPartition | src/partition.rs:585-684 | One group for each partition that occurs, holding exactly its rows in their order; together the groups are the rows |
| FlushRows.CutFiles | src/inlined_flush.rs:860-979 | Succeeds if and only if the writer's files are non-empty and hold the group's row count together; then the cut files concatenate to the group |
| FlushRows.WriteInlinedTable | src/inlined_flush.rs:776-979 | The files of a flush are the rows of each partition in the flush order, cut where the writer says, each inlined row once, no file empty or of two partitions; it fails if and only if the writer's counts of some partition do not add up to it |
| FlushRows.FlushedRow | src/inlined_flush.rs:880-979 | Position by position: row i of a flushed file is read at a snapshot exactly when inlined row i was |
| FlushRows.AddFlushedScan | src/inlined_flush.rs:880-979 | Adding one flushed file with its delete file adds to every snapshot exactly the rows its slice was read as |
| FlushRows.FlushRowsPreservesTimeTravel | src/metadata_writer_sqlite.rs:7294-7421 | For every snapshot, registering the files with their delete files and removing the rows changes nothing a scan returns |
| FlushDeletes.GroupInlined | src/inlined_flush.rs:1102-1130 | The loop keeps the earliest date of each inlined position and finds the last date |
| FlushDeletes.MergeExisting | src/inlined_flush.rs:1131-1160 | Merging the replaced delete file's entries keeps the earlier date of each position |
| FlushDeletes.PlanFile | src/inlined_flush.rs:1102-1194 | A delete file is planned unless the data file is retired and its latest delete file either follows one that ends after the plan begins or ends before some position's first deletion; it holds every position at its earliest date, and its bounds are the least and the largest of those |
| FlushDeletes.FlushKeepsExactly | src/inlined_flush.rs:1102-1194 | Where no deletion predates the file: the flush keeps the rows shown at every snapshot the file is live if and only if every other delete file ended by the planned begin, and the one replaced lasted as long as a retired file |
| FlushDeletes.FlushDeletesPreservesTimeTravel | src/metadata_writer_sqlite.rs:7294-7421 | Under that condition nothing any snapshot of the table reads changes, and delete files stay apart |
| FlushDeletes.LiveFileOverlaps | src/inlined_flush.rs:1102-1194 | A live file with an ended and a later delete file whose flush overlaps the first |
| FlushDeletes.RetiredFileForgets | src/inlined_flush.rs:1214-1245 | A retired file whose flush forgets deletions made after its delete file ended |
| Deletes.FileDeletions.Record | src/delete_exec.rs:573-678 | A file's positions go to exactly one of the four lists by the inline limit and the existing delete file; the first rewrite fixes the commit snapshot, the later of the one after the base and the one to come, and nothing moves it afterwards |
| Deletes.RouteExactly | src/delete_exec.rs:573-678 | Each route by numbers: nowhere for no position, inlined from one up to the limit, with the file exactly when they and its delete file's are its record count, otherwise to a first or a replacing delete file |
| Deletes.FileDeletions.constructor | src/delete_exec.rs:515-530 | Starts with no deletion and no commit snapshot |
| Deletes.RecordedDeletions | src/metadata_writer_sqlite.rs:2749-2921 | By any of the five routes, every earlier snapshot is unchanged and exactly the named rows leave from the commit on |
| Deletes.InlineMarks | src/metadata_writer_sqlite.rs:2749-2815 | Inlined deletions mark exactly the named positions from the commit on |
| Deletes.NewMarks | src/metadata_writer_sqlite.rs:2560-2626 | So does a new delete file |
| Deletes.RewriteMarks | src/metadata_writer_sqlite.rs:2864-2921 | So does a delete file that replaces another and keeps the date of each of its positions |
| Deletes.CumulativeMarks | src/delete_exec.rs:412-431 | So does a cumulative delete file, which carries the positions of the one before undated and ends it, of a writer that does not stage row mutations |
| Deletes.CumulativeWf | src/metadata_writer_sqlite.rs:2560-2626 | Ending the delete file before at the commit where the cumulative one begins keeps the catalog well formed |
| Deletes.DropScan | src/metadata_writer_sqlite.rs:2821-2855 | Ending a file whose every row is deleted or named removes exactly those named |
| DeleteAll.RouteFits | src/delete_exec.rs:573-678 | For every set of live positions the chosen route is one the file can take; a file is dropped only when nothing of it is left |
| DeleteAll.DropsExactly | src/delete_exec.rs:573-678 | Past the limit a file goes if and only if its delete file and the named live positions together cover every row |
| DeleteAll.UnstagedFits | src/delete_exec.rs:412-431 | For every set of live positions the route of a writer that does not stage row mutations is one the file can take, and its commit exists |
| DeleteAll.DeletePositions | src/delete_exec.rs:573-678 | Recording and committing live positions reaches a catalog of the chosen route |
| DeleteAll.StatementDeletes | src/delete_exec.rs:360-432 | A statement over any number of files removes exactly the rows it names from its commit on, and nothing earlier |
| DeleteAll.PlanIsExact | src/delete_exec.rs:800-860 | A file's plan counts and names its live rows if and only if no position is deleted in both encodings, or none is left |
| DeleteAll.CountIsExact | src/delete_exec.rs:800-860 | The count is never above the live rows, and equals them under the same condition |
| DeleteAll.DoublyDeletedMiscounts | src/delete_exec.rs:800-860 | A well-formed catalog with a file of which one position is deleted in both encodings: the statement counts nothing and leaves its live row |
| DeleteAll.PlanAll | src/delete_exec.rs:774-877 | The loop plans every live file's deletion and totals the rows |
| DeleteAll.DeleteAllCounts | src/delete_exec.rs:774-877 | The whole statement reports the number of rows visible before it if and only if no file with a row left has a position deleted in both encodings, and never more |
| DeleteAll.DeleteAllLeaves | src/delete_exec.rs:774-877 | After the commit every earlier snapshot reads as before, and from it on exactly the rows of files whose counts show none left are visible |
| DeleteAll.DeleteAllEmpties | src/delete_exec.rs:774-877 | Nothing is visible from the commit on if and only if the counts leave rows of every live file that has any |
| History.MaintenanceIsInvisible | src/compaction.rs:25-35 | Merge, rewrite and both flushes change no snapshot, past, present or future |
| History.InsertFileKeeps | src/compaction.rs:30-40 | An appended file adds its rows from the commit on and to no earlier snapshot |
| History.InsertInlinedKeeps | src/compaction.rs:30-40 | Inlined rows add exactly themselves to every snapshot from the commit on and to none before |
| History.EndSomeKeeps | src/delete_exec.rs:573-678 | Ended inlined rows leave every snapshot from the commit on, each once for each row ended, and none before |
| History.StepKeepsPast | src/compaction.rs:25-35 | Every step keeps the invariant and leaves every committed snapshot as it was |
| History.CommittedSnapshotsNeverChange | src/inlined_flush.rs:24-29 | Over every run of inserts, deletions, merges, rewrites and flushes, a committed snapshot reads at every later point what it read at first |
| Managed.ManagedRunsKeepHistory | src/inlined_flush.rs:1102-1194 | From a table only these commits touched, by writers that stage row mutations, the empty one included, no run reaches the flush's failing cases, so committed snapshots never change with no condition on any planned delete file |
| Managed.ManagedCovers | src/inlined_flush.rs:1102-1194 | In such a table every planned delete file meets the condition under which a flush keeps history |
| Managed.ManagedStep | src/metadata_writer_sqlite.rs:2864-2921 | Every step keeps one delete file per data file, ending only with it |
| Managed.EmptyTableIsManaged | src/inlined_flush.rs:1102-1194 | The empty table starts such a run |
| Unstaged.CumulativeReachesOverlap | src/delete_exec.rs:412-431 | Three statements, the second inlined by a writer that stages row mutations and the last through a cumulative delete file of one that does not, lead from a table of one file to a catalog whose flush overlaps the ended delete file |
| ManagedDeletes.CleanStep | src/delete_exec.rs:573-678 | Every step of a table only these commits touched, by writers that stage row mutations, keeps the two encodings of deletions apart and inside their files |
| ManagedDeletes.ManagedDeleteAll | src/delete_exec.rs:774-877 | At every point of every run of such a table, with no further condition: a DELETE without WHERE reports the number of visible rows, and none is visible from its commit on |
| ManagedDeletes.EmptyTableIsClean | src/delete_exec.rs:573-678 | The empty table starts such a run |
| Fork.ForkMasksExactly | src/fork.rs:316-468 | For each row, the referenced or written delete file masks it if and only if the source did not show it at the forked snapshot |
| Fork.ForkFiles | src/fork.rs:316-468 | The loop over the files registers each live one with the delete file decided for it |
| Fork.ForkReadsSource | src/fork.rs:316-520 | From the fork's commit on, a read of the fork returns exactly what the source returned at the forked snapshot |
| Fork.ForkShares | src/fork.rs:316-468 | At the head, with nothing deleted inlined, a fork takes over the delete file with its dates, or has none; and a file with nothing to mask gets none |
| Fork.ForkReadsNothingBefore | src/fork.rs:316-468 | At every snapshot before its commit a fork reads nothing |
| ColumnForest.ExistingDescendants | src/fork.rs:858-894 | On every table of single-parent columns, cycles apart from the root included, the stack walk ends; below a top-level column it answers exactly the columns that lead up to it, in that order, if their names are the wanted ones, and nothing otherwise |
| ColumnForest.ChildrenAre | src/fork.rs:858-894 | The children of a column are the columns whose parent it is, each place once, in column order |
| ColumnForest.ChildrenOrdered | src/fork.rs:858-894 | In a table of single parents a column is a child if and only if it has that parent, and children come in the order of their places |
| ColumnForest.PreorderWalks | src/fork.rs:858-894 | The walk lists exactly the columns whose parents lead up to the root, each with the way down to it, ordered by those ways |
| ColumnForest.WalkOrder | src/fork.rs:858-894 | So each column comes once, after its parent, and after its earlier siblings and everything under them |
| ColumnForest.SubtreeIsUnique | src/fork.rs:858-894 | A column has one subtree, so the pre-order is the walk's only answer |
| ColumnForest.RootHasSubtree | src/fork.rs:858-894 | Every top-level column has a finite subtree, whatever cycles the table holds elsewhere |
| CatalogMemo.CatalogReadMemo.constructor | src/catalog_read_memo.rs:264-275 | Starts bound to no head and holding nothing |
| CatalogMemo.CatalogReadMemo.Bind | src/catalog_read_memo.rs:278-299 | A newer head drops every kept fill and refusal and takes their bytes back to zero; an older or equal one changes nothing; marks and absence answers stay |
| CatalogMemo.CatalogReadMemo.Consult | src/catalog_read_memo.rs:437-453 | A fill kept at the query's head is served whenever its table is not marked too large; the catalog is read exactly for a marked table or one refused for room; a fill is asked for exactly otherwise |
| CatalogMemo.CatalogReadMemo.Store | src/catalog_read_memo.rs:462-480 | Field by field: kept and charged within the budget, refused for room past it, another query's kept entry given instead of its own, and nothing changed after the head moved |
| CatalogMemo.CatalogReadMemo.MarkTooLarge | src/catalog_read_memo.rs:453-461 | From then on the table is answered from the catalog at every snapshot and head, and every other table's answer is what it was |
| CatalogMemo.TooLargeIsFinal | src/catalog_read_memo.rs:437-461 | A table marked too large stays so in every run: every later query of it, at every snapshot and head, is answered from the catalog |
| CatalogMemo.CatalogReadMemo.KnownAbsent | src/catalog_read_memo.rs:576-590 | An absence answer is given if and only if one is kept for the table that reaches the snapshot |
| CatalogMemo.CatalogReadMemo.NoteAbsence | src/catalog_read_memo.rs:591-601 | The farther of the kept and the new answer is kept for the table, every other table's is what it was, across heads |
| CatalogMemo.RunKeepsMemo | src/catalog_read_memo.rs:278-299 | Over every run, while the head stays what a fill was kept under it stays kept, with the same content |
| CatalogMemo.KeptIsServed | src/catalog_read_memo.rs:437-453 | After any run a fill kept at a head is what every consult at that head answers, until a newer bind or a too-large mark |
| CatalogMemo.StoredIsServed | src/catalog_read_memo.rs:437-480 | So a fill stored within the budget is served to every later query of its head, and one stored past it sends them to the catalog |
| CatalogMemo.StoreCounts | src/catalog_read_memo.rs:462-480 | A store that passes the saturating test charges its fill in full and stays in budget if and only if the budget is below the largest 64-bit value or the new total fits it |
| CatalogMemo.LargestBudgetForgets | src/catalog_read_memo.rs:462-480 | A full memo of the largest budget keeps one more fill and then counts nothing |
| CatalogMemo.StillFillShows | src/catalog_read_memo.rs:494-652 | A fill whose statements all saw one head shows the catalog at that head if and only if it left no visible inlined row unread for a kept absence answer |
| CatalogMemo.FreshIsTrue | src/catalog_read_memo.rs:576-601 | An absence answer a statement relies on is true of the state it reads, outside a consistent read always, inside one if the answer was noted at a head no newer than its own |
| CatalogMemo.UnmovedFillShows | src/catalog_read_memo.rs:494-515 | A fill whose last head read is the bind's saw no other head in any statement, and so its actual reads show exactly what a scan of the catalog there returns |
| CatalogMemo.StepKeeps | src/catalog_read_memo.rs:425-515 | Every step of binds, statements, fills, absence notes, stores, picks and commits keeps the memo's invariant and every picked answer, but for a stale absence answer in a consistent read or an overflowing total |
| CatalogMemo.EveryRunIsConsistent | src/catalog_read_memo.rs:64-79 | In every interleaving whose moves are sound: kept fills return what a scan of the catalog at the memo's head returns, bytes equal the sum charged and stay in budget, a kept answer (and an own one whose last head read is the query's) shows the query's head, and one query has one unchanging answer per table and snapshot |
| CatalogMemo.UnpinnedIsSound | src/catalog_read_memo.rs:64-79 | Over a provider without consistent reads and a budget below the largest value every move of every run is sound, so the previous row holds with no condition |
| CatalogMemo.OtherHeadsStayOut | src/catalog_read_memo.rs:437-480 | A provider bound at another head, which is older, is served no kept fill and stores none |
| StaleAbsence.StaleAnswerIsKept | src/catalog_read_memo.rs:576-601 | A run in which a fill in a consistent read at head 1 takes an absence answer noted at head 2, after a flush, and the memo keeps it though it leaves out a row |
| QuietSteps.StepIsQuiet | src/catalog_read_memo.rs:494-515 | Every step of a table's history but a merge keeps a committed snapshot's files, rows and deletions as a reader between statements relies on |
| QuietSteps.StepShifts | src/catalog_read_memo.rs:494-515 | Every step, merges included, keeps of a committed snapshot's files, rows and deletions what a reader between statements relies on: what leaves is in a later file |
| QuietSteps.AdvanceShifts | src/catalog_read_memo.rs:494-515 | So does any number of commits |
| Fill.EntryDeadIsDead | src/catalog_read_memo.rs:518-530 | Inlined deletions read first and delete files later give exactly the positions deleted at the snapshot, whatever was flushed between |
| Fill.ListingShows | src/catalog_read_memo.rs:657-702 | A complete listing shows the file rows of its last page's time, and a second time those of listed files merged away before it |
| Fill.GuardedRepeatsNothing | src/catalog_read_memo.rs:632-702 | Under a guard a complete listing repeats nothing, whatever was committed: the output of a merge since would have been listed and refused |
| Fill.ReadsExactly | src/catalog_read_memo.rs:518-562 | Deletions, rows and listing read at different times show the snapshot as it was at the start if and only if no listed file with a visible row was merged away before the last page |
| Fill.FillExactly | src/catalog_read_memo.rs:518-702 | With any commits between any two statements, merges included, and absence answers that are true: a fill shows every visible row exactly once, with and without row ids, if and only if no such merge lies between its pages; inlined rows to guard, or a listing shorter than a page, rule that out |
| Fill.StillFillExactly | src/catalog_read_memo.rs:518-702 | A fill of a table that stands still shows it exactly if and only if it left no visible row unread for an absence answer |
| Fill.ListingFrom | src/catalog_read_memo.rs:657-702 | Paging over changing states, merges included, gives a complete listing, or reports a newer file that was seen, or stops at files whose size passes the budget |
| Fill.FillInlined | src/catalog_read_memo.rs:567-652 | Both reads hold the rows visible when they were made, the lower next file id guards both, a kept absence answer skips them, and the fill stops exactly when their size passes the budget |
| Fill.ScanNotingAbsence | src/metadata_provider_postgres.rs:690-776 | The next file id read before the rows, the rows, and an absence answer exactly when no row is visible and none begins at or below the lesser of the snapshot and the head read first, which it then names |
| Fill.FillOnce | src/catalog_read_memo.rs:531-548 | One try holds the rows of some moments and the complete listing against their guard, or has seen a file newer than the guard, or the reads exceed the budget |
| Fill.FillListing | src/catalog_read_memo.rs:657-702 | The loop over the pages ends, for every provider, with what paging from there gives, and holds a complete listing within the budget |
| Fill.FillFrom | src/catalog_read_memo.rs:518-562 | With any commits between any two statements or pages the fill holds the reads it made at some moments of the run, or gives up: for commits only after all its tries, one after another, each saw a newer file, for the budget only if reads of the snapshot exceed it |
| Fill.NewerMeansMoved | src/table.rs:192-194 | A file past the guard is seen only if the catalog moved and there were inlined rows to guard |
| Fill.AbsenceStays | src/catalog_read_memo.rs:97-100 | No step, a merge included, begins an inlined row at or below a committed snapshot |
| Fill.AbsenceHolds | src/metadata_provider_postgres.rs:690-776 | An absence answer stays true at every later point of every run, merges included |
| Fill.AdvanceKeepsAbsence | src/metadata_provider_postgres.rs:690-776 | An absence answer through a committed snapshot outlives any commits |
| MergedPages.MergeBetweenPagesRepeats | src/catalog_read_memo.rs:657-702 | A provider of pages of one file, two files, and their merge between the pages: paging lists the first file and the output, and the fill returns a row the snapshot holds once, twice |
| Fill.PagesAreTheListing | src/catalog_read_memo.rs:748-758 | Paging through a kept listing gives every file once and in order for every page size |
| ReadAhead.ProducedLeft | src/compaction.rs:917-949 | A producer, granted or refused a reservation, keeps the items it has left in order |
| ReadAhead.StepKeeps | src/compaction.rs:831-949 | Every action of the consumer or a producer keeps emitted plus pending items equal to the partitions in order |
| ReadAhead.OpensExactly | src/compaction.rs:831-853 | A partition is opened ahead exactly while one is read, a batch has given the size to reserve, memory has not run out, the window has room and one is left that opens |
| ReadAhead.HandsBackExactly | src/compaction.rs:917-949 | A producer hands its reader back exactly on seeing the flag or being refused, which alone sets the flag, and ends exactly at the end or after a failure |
| ReadAhead.StepReserves | src/compaction.rs:857-949 | Every action keeps the size to reserve equal to that of the largest batch any reader has given, in place or ahead |
| ReadAhead.ChargedBound | src/compaction.rs:831-949 | At most (read-ahead + 1) times (channel capacity + 1) batches are charged |
| ReadAhead.StepWorks | src/compaction.rs:857-949 | Every action strictly decreases a bound on the actions left |
| ReadAhead.NeverStuck | src/compaction.rs:857-911 | Before the end some action is always enabled |
| ReadAhead.EmitsPartitionsInOrder | src/compaction.rs:707-949 | Every schedule, refused reservations, handed-back readers and partitions that cannot be opened included, ends; it emits the partitions' concatenation in order, or stops at its first failure, or at the first partition that cannot be opened with only items of those before it, within the window and memory bounds, and reserves the size of the largest batch read so far |
| FieldIdAdapter.BuildMatches | src/types.rs:1712-1850 | The read type built for a file has the shape of the catalog type at every depth |
| FieldIdAdapter.WholeIsResolved | src/field_id_adapter.rs:638-770 | Building and applying the default fill over the read value gives, at every depth, the file child of the same id or the default under its parent's validity |
| FieldIdAdapter.SameTypeReadsBare | src/field_id_adapter.rs:187-229 | A file column of the catalog's own type can be read bare |
| FieldIdAdapter.PathReadsExactly | src/field_id_adapter.rs:234-386 | For every file value a path read equals the whole read and then the path, if and only if no absent child on the way has a default the path reads into |
| FieldIdAdapter.UnsettledMisses | src/field_id_adapter.rs:334-355 | Otherwise a value of the file exists on which the path reads NULL and the whole read does not |
| FieldIdAdapter.StructAccess | src/field_id_adapter.rs:234-325 | The walk over catalog and read type answers by where the path ends: at a stored child, at a child the file lacks, or off the type |
| FieldIdAdapter.ReadableExactly | src/field_id_adapter.rs:469-493 | A leaf is found if and only if a path through structs alone leads to one or to a list; it is such a leaf, and a list only where there is no leaf |
| FieldIdAdapter.AccessExactly | src/field_id_adapter.rs:234-386 | For every path: followed child by child through the ids it gives the file's path to its end, NULL at a child the file lacks without a default, the default under a leaf of the file's struct, or a refusal |
| FieldIdAdapter.RefusedExactly | src/field_id_adapter.rs:234-386 | A path is refused if and only if it ends at a child the file lacks that has a default and the file's struct there has no leaf or list; it is left alone if and only if it goes off the catalog's type |
| ExprAdapter.ChainEval | src/field_id_adapter.rs:507-526 | A recognised chain of struct accesses evaluates to the path it names |
| ExprAdapter.ColumnEval | src/field_id_adapter.rs:187-231 | A rewritten column evaluates to the catalog's view of it, file column or default |
| ExprAdapter.RewriteIsSubstitution | src/field_id_adapter.rs:569-617 | Over every row of the file the rewritten expression gives what the original gives over the catalog's view of the row, whatever names the file's columns share with the catalog's |
| ExprAdapter.NestIsChain | src/field_id_adapter.rs:507-526 | Field accesses nested to any depth over a column are one path, its keys from the innermost on |
| ExprAdapter.ChainIsNest | src/field_id_adapter.rs:507-526 | And only they are |
| ExprAdapter.AccessedExactly | src/field_id_adapter.rs:569-617 | A struct access is taken by its path if and only if it is such a nest over a stored column whose path stays on the type, and unreadable if and only if that path ends unread |
| ExprAdapter.RefusedExactlyFor | src/field_id_adapter.rs:569-617 | An expression is refused if and only if one of its outermost struct accesses is |
| DuckdbCast.HandleDigit | src/duckdb_cast.rs:92-106 | A digit is taken if and only if the value stays in the store type |
| DuckdbCast.HandleDecimal | src/duckdb_cast.rs:117-129 | A digit behind the point is kept while the digits kept so far fit the store type, and counted in the 16-bit counter |
| DuckdbCast.PowerOfTen | src/duckdb_cast.rs:135-142 | 10^n as the store type holds it, wrapped where it leaves the type |
| DuckdbCast.Finalize | src/duckdb_cast.rs:207-230 | For every state, wrapped counters included, the value the rounding of the kept fraction gives, or none |
| DuckdbCast.FinalRounds | src/duckdb_cast.rs:207-230 | Where the counter has not wrapped, that is the value rounded by its fraction if and only if it fits the result type |
| DuckdbCast.MoveLeft | src/duckdb_cast.rs:144-205 | A negative exponent rounds by the last digit moved out |
| DuckdbCast.ScaleResult | src/duckdb_cast.rs:144-205 | The checked multiplications succeed if and only if the scaled value fits the store type |
| DuckdbCast.ScaleDecimal | src/duckdb_cast.rs:144-205 | So do those of the fraction |
| DuckdbCast.HandleExponent | src/duckdb_cast.rs:144-205 | For every state and exponent, the whole part and the kept fraction with the point moved, the power wrapped as the code wraps it |
| DuckdbCast.RoundIsNearest | src/duckdb_cast.rs:207-230 | The digit-wise rounding is to the nearest integer, halves up |
| DuckdbCast.ReadWhole | src/duckdb_cast.rs:233-328 | Reads the digits of the whole part, failing exactly on a misplaced separator or a value past the store type |
| DuckdbCast.ReadFraction | src/duckdb_cast.rs:233-328 | Reads the digits behind the point, however many, failing exactly on a misplaced separator or in a plain integer cast |
| DuckdbCast.CastLoop | src/duckdb_cast.rs:233-328 | On every text, the value its layout and digits spell, or none |
| DuckdbCast.HandleRadixDigit | src/duckdb_cast.rs:108-116 | A radix digit is taken if and only if the value stays in the store type |
| DuckdbCast.RadixLoop | src/duckdb_cast.rs:332-355 | The loop reads the number of the independent recursive definition, `_` between digits, exactly where it fits the type |
| CastTexts.RadixDigitExactly | src/duckdb_cast.rs:332-355 | A character is the digit `d` of a radix if and only if it is the `d`th of 0-9 a-f or 0-9 A-F |
| CastTexts.DigitExactly | src/duckdb_cast.rs:233-331 | The same of decimal digits |
| CastTexts.SpaceExactly | src/duckdb_cast.rs:59-61 | A space is one of the six characters |
| CastTexts.RadixTextCasts | src/duckdb_cast.rs:332-386 | For every number, its text behind `0x` or `0b` is cast back to it exactly when it fits |
| CastTexts.WrittenText | src/duckdb_cast.rs:233-386 | The text of a number is its sign, its decimal digits, and a point before a fraction of fixed width |
| CastTexts.WrittenCasts | src/duckdb_cast.rs:233-386 | For every number of up to 18 fraction digits that text is cast to it, rounded half away from zero, exactly when that fits |
| CastTexts.ScaledUp | src/duckdb_cast.rs:144-206 | With an exponent it is cast to its multiple by the power of ten, exactly when that fits and the exponent fits 16 bits |
| CastTexts.ScaledDown | src/duckdb_cast.rs:144-206 | With a negative one, to the nearest whole of its quotient, halves away from zero |
| DuckdbCast.TryCast | src/duckdb_cast.rs:358-386 | On every text, the cast of what is left after leading spaces |
| DuckdbCast.VarcharToUbigint | src/duckdb_cast.rs:391-407 | The plain cast and its fallback together are the one with fraction and exponent |
| DuckdbCast.VarcharToTinyint | src/duckdb_cast.rs:414-430 | The same for TINYINT, accumulated in BIGINT |
| CastValues.KeptFirst | src/duckdb_cast.rs:117-129 | However many digits of a fraction are left out, the first is kept and decides the rounding |
| CastValues.KeptAll | src/duckdb_cast.rs:117-129 | Every digit is kept of a fraction that fits the store type as one number |
| CastValues.PlainIsExpected | src/duckdb_cast.rs:207-230 | A number without an exponent of whose fraction fewer than 65536 digits are kept is cast to its value rounded half away from zero, exactly when it fits |
| CastValues.NegativeExponent | src/duckdb_cast.rs:144-205 | With a negative exponent every number, of any length, is cast to its rounded value, exactly when it fits |
| CastValues.ShortIsExpected | src/duckdb_cast.rs:144-205 | Up to 18 fraction digits meet that for every exponent |
| CastExact.KeptShape | src/duckdb_cast.rs:117-129 | What is kept of any fraction: every digit, or those before the first that does not fit behind them, or these with a later digit in place of the one that does not fit |
| CastExact.KeptReads | src/duckdb_cast.rs:117-129 | At every exponent the kept digits round as the spelled ones do if and only if what is left out adds nothing there, or, with the point among the kept digits, a replaced last digit rounds alike |
| CastExact.PlainExactly | src/duckdb_cast.rs:207-230 | Without an exponent, for fractions of any length: a number that fits is cast to its rounded value if and only if fewer than 65536 digits are kept or they do not round up at the place the wrapped count gives them; one that does not fit is never cast |
| CastExact.ExponentExactly | src/duckdb_cast.rs:144-205 | With an exponent from 0 to 32767, for fractions of any length: a number that fits is cast to its rounded value if and only if its fraction is read right, the wrapped distance, the wrapped power and the digits left out all told; where it is, one that does not fit is refused |
| CastExact.UnfitExactly | src/duckdb_cast.rs:117-205 | With such an exponent a number that does not fit is refused if and only if what is made of it with the kept digits, one taken away where the negative wrapped power splits them, does not fit either |
| CastExact.WrappedExactly | src/duckdb_cast.rs:135-205 | Where the power wraps and every digit is kept, the cast gives the rounded value if and only if the fraction's digits are below the wrapped power |
| CastExact.CountWraps | src/duckdb_cast.rs:117-129 | With any positive multiple of 65536 zeros behind the point and a five after them, the number is cast to 1 instead of 0 |
| CastExact.DistanceWraps | src/duckdb_cast.rs:171-205 | With 32768 to 65535 zeros and a five behind the point and exponent 0, a number that rounds to 0 is not cast to it |
| CastExact.LeftOutDigitMisses | src/duckdb_cast.rs:117-129 | 0.20000000000000000009e19 is cast one too low, its last digit left out |
| CastExact.PastTheTypeIsCast | src/duckdb_cast.rs:117-129 | 0.18446744073709551616e20, past UBIGINT, is cast to 18446744073709551610 |
| CastForms.FormCasts | src/duckdb_cast.rs:233-386 | Every text of the accepted forms, with any spaces before it, is cast to the value of its form |
| CastForms.CastIsForm | src/duckdb_cast.rs:233-386 | Every text that is cast is of one of the forms |
| CastForms.CastsExactly | src/duckdb_cast.rs:233-386 | For every text and value: the cast gives the value if and only if the text is spaces, then a number with optional exponent, a radix number, or a sign before spaces, spelling that value |
| CastForms.NumbersCast | src/duckdb_cast.rs:233-386 | Every number with spaces, sign, separators, fraction and exponent, fractions of any length: one that fits, with its whole part in the store type, is cast to its value rounded half away from zero if and only if its fraction is read right; where it is, one that does not fit is refused. Both casts with fractions |
| CastForms.UnfitNumbers | src/duckdb_cast.rs:233-386 | Every number that does not fit is refused if and only if it does not slip in so, which takes an exponent that is not negative |
| CastForms.ShortIsRead | src/duckdb_cast.rs:233-386 | Up to 18 fraction digits every number is read right, whatever its exponent |
| CastForms.SignAloneIsZero | src/duckdb_cast.rs:279-288 | Any sign with one or more spaces and nothing else after it is cast to zero, a minus only to a signed store type |
| CastForms.BlankExponentIsZero | src/duckdb_cast.rs:285-308 | Any number whose exponent mark has only spaces behind it is cast as with exponent zero |
| CastForms.PointedExponent | src/duckdb_cast.rs:285-308 | A point behind the digits of an exponent changes no cast |
| InlinedFilter.PrefixMatches | src/inlined_filter.rs:348-370 | A parsed pattern matches exactly the texts that start with its literal text, for every escape |
| InlinedFilter.ParsePrefixPattern | src/inlined_filter.rs:348-370 | The loop finds that literal text, or none where there is none |
| InlinedFilter.MatchExactly | src/inlined_filter.rs:348-370 | A pattern matches exactly the texts that can be cut into one text per piece: the character, any one character, or any text |
| InlinedFilter.PrefixExactly | src/inlined_filter.rs:348-370 | A pattern has the literal text `t` if and only if its pieces are the characters of `t` and a final `%` |
| InlinedFilter.EscapedExactly | src/inlined_filter.rs:348-370 | As `LIKE` is evaluated, a backslash escaping where none is named, a parsed pattern is a prefix test if and only if it names an escape or holds no backslash; otherwise a text it matches fails the test |
| InlinedFilter.LikeExactly | src/inlined_filter.rs:252-262 | So for translations: outside that condition a row exists on which `LIKE` is TRUE and its translation FALSE |
| InlinedFilter.BareBackslashDrops | src/inlined_filter.rs:252-262 | `LIKE 'a\%'` without an escape is TRUE of `a%`, and its translation drops it |
| InlinedFilter.TranslationWeakens | src/inlined_filter.rs:206-277 | A row on which an expression is TRUE is one on which its translation is TRUE, where no `LIKE` in it holds a backslash without an escape |
| InlinedFilter.AllTranslationsWeaken | src/inlined_filter.rs:206-216 | So for every filter of a list, those without a translation left out |
| InlinedFilter.RenamingWeakens | src/inlined_filter.rs:88-129 | Dropping terms that cannot be renamed keeps every row the filter keeps |
| RenderFilter.ComparisonIsExact | src/inlined_filter.rs:466-498 | The rendered comparison of a stored value equals that of the value, for every dialect, operator and encoding |
| RenderFilter.LeafIsExact | src/inlined_filter.rs:399-543 | A rendered leaf is TRUE, FALSE or UNKNOWN on the stored row as the leaf is on the row |
| RenderFilter.RenderingWeakens | src/inlined_filter.rs:399-543 | A row on which a filter is TRUE is selected by the rendered SQL with its binds |
| RenderFilter.PlacesInOrder | src/inlined_filter.rs:399-543 | Left to right, the placeholders number the filter's own binds consecutively |
| RenderFilter.RenderNode | src/inlined_filter.rs:399-543 | A failed render leaves the bind list unchanged, a successful one appends exactly its binds |
| RenderFilter.RenderAnd | src/inlined_filter.rs:407-426 | A conjunction keeps the children that render and binds exactly their values |
| RenderFilter.RenderOr | src/inlined_filter.rs:427-452 | A disjunction renders whole or leaves the bind list as it was |
| RenderFilter.PushDown | src/inlined_filter.rs:206-396 | Translated, renamed and rendered, filters all TRUE on a row select its stored form, where no `LIKE` holds a backslash without an escape; nothing is pushed only where one of the three gives nothing |
| FilterExact.TranslatedExactly | src/inlined_filter.rs:218-277 | What is translated, by the shape of the expression: leaves over a column and a constant, an `AND` of one translated side, an `OR` of two |
| FilterExact.LeafKeepsTruth | src/inlined_filter.rs:218-277 | A translated leaf is TRUE, FALSE or UNKNOWN on every row as the leaf is |
| FilterExact.AndKeepsTerms | src/inlined_filter.rs:206-277 | A translated `AND` is TRUE exactly where each translated side is, so no term is lost |
| FilterExact.WholeKeepsTruth | src/inlined_filter.rs:206-277 | An expression all of whose leaves are translated keeps its truth value on every row |
| FilterExact.RenamingKeepsTruth | src/inlined_filter.rs:88-120 | So does a filter with every column renamed |
| FilterExact.RenderedExactly | src/inlined_filter.rs:399-584 | A leaf is rendered if and only if its column is stored in a suitable type and its constant binds |
| FilterExact.RenderingKeepsTruth | src/inlined_filter.rs:372-543 | A filter all of whose leaves render has SQL of the same truth value on the stored row |
| FilterExact.PushedExactly | src/inlined_filter.rs:206-543 | Filters pushed down whole select exactly the rows on which they are all TRUE |
| DecimalText.PaddedTextCompares | src/inlined_filter.rs:636-662 | For all 64-bit values, canonical or padded, the padded texts compare byte by byte as the numbers do, for all six operators |
| DecimalText.CanonicalEquals | src/inlined_filter.rs:610-634 | Canonical texts are equal exactly when the values are |
| DecimalText.UnpaddedMisorders | src/inlined_filter.rs:636-650 | Without padding text order is not numeric order |
| ChangeDetection.TableDataChanges.Record | src/change_detection.rs:190-264 | Exactly the flags of the kinds the snapshot's row records for the table are added; it becomes the last row change if it names one, or has no row at all, and the last change if it names any; the kinds that count are named one by one |
| ChangeDetection.SaysExactly | src/change_detection.rs:190-264 | By the kinds themselves: rows changed for a missing ledger row or any kind but a flush, a compaction, an alteration or another object's; moved for a flush or a compaction otherwise |
| ChangeDetection.TableDataChanges.RecordGap | src/change_detection.rs:269-280 | A gap is flagged, and raises both last snapshots to its bound or leaves them above it |
| ChangeDetection.ReadLedger | src/change_detection.rs:329-391 | Over the window in order: the moved snapshots, a flag for exactly the kinds recorded, and the last snapshots that changed rows or anything |
| ChangeDetection.LatestReported | src/change_detection.rs:329-391 | The last moved snapshot the feed reports on its own, or the last of all where it reports none |
| ChangeDetection.AskFeed | src/change_detection.rs:329-391 | Adds exactly the flags of what the feed reports between the moved snapshots, or that the table is gone; a complete answer is the last one reported alone |
| ChangeDetection.ExpiredInWindow | src/change_detection.rs:485-550 | A bound is given if and only if an id of the window is missing; it lies in the window and no missing id lies above it |
| ChangeDetection.ExpiredInShared | src/change_detection.rs:485-528 | Among ids shared with other catalogs a bound is given if and only if the window's start or the table's creation is lost; it is at or above exactly the expired ids that nothing survives before from there |
| ChangeDetection.ByAgeIsTold | src/change_detection.rs:130-145 | Of a catalog that expired by age, an expired snapshot of the window is told of if and only if the window starts after a snapshot, or nothing of it is left, or the table's creation is lost |
| ChangeDetection.NamedExpiryIsUnseen | src/change_detection.rs:130-145 | Among shared ids, a snapshot that changed the table and was expired by its number inside the window: nothing is detected |
| ChangeDetection.Analyse | src/change_detection.rs:329-391 | `rows_changed` is the same for the early-exit and the complete analysis; a complete one's last row change is the last Changed snapshot, the gap's bound, or past both the last moved one the feed reports (the last moved one when it reports none alone or the table is gone), and is at or after every row change not lost unseen; flags and last change are those of ledger, gap and feed |
| ChangeDetection.RecordedIsDetected | src/change_detection.rs:329-391 | A snapshot of the window recorded with such a kind is detected |
| ChangeDetection.QuietIsUndetected | src/change_detection.rs:329-391 | And a window without gaps that names the table with nothing but alterations and other objects' changes is not |
| ChangeDetection.ChangesAreDetected | src/change_detection.rs:329-391 | A snapshot of the window that changed rows, surviving or told of by the ids, makes every analysis answer that rows changed |
| ChangeDetection.DetectsByFeed | src/change_detection.rs:329-391 | Asking the feed from the first to the last unsettled move finds a row or a lost table exactly when those moves hide one |
| ChangeHistory.UnreportedStep | src/metadata_writer.rs:688-753 | A step of a table's history, recorded with the kinds the writer records, that is reported as no row change leaves every snapshot as it was |
| ChangeHistory.ChangesAreReported | src/metadata_writer.rs:688-753 | A commit of any steps after which the table reads otherwise than before is reported as a row change |
| Chains.ChangesShow | src/change_detection.rs:329-391 | Of any states and commits: if each commit keeps what was read before and reports what it changes, every snapshot of every run that reads otherwise than the one before is reported |
| ChangeHistory.HistoryIsTruthful | src/change_detection.rs:329-391 | The ledger of every history of commits, whatever was expired since, tells of every snapshot that reads otherwise than the one before |
| ChangeHistory.UndetectedReadsTheSame | src/change_detection.rs:329-391 | Over every history, expiry and feed, a window in which nothing is detected reads the same rows at both its ends |
| LazyDelete.ReadDeletePositions | src/lazy_delete_filter.rs:590-606 | The positions of the entries made by the read snapshot, undated ones included |
| LazyDelete.PositionsAreRecorded | src/lazy_delete_filter.rs:597-605 | These are exactly the positions the delete file deletes at that snapshot |
| LazyDelete.BatchFilter.constructor | src/lazy_delete_filter.rs:330-358 | Starts with nothing loaded, over a memo that holds only what delete files hold |
| LazyDelete.BatchFilter.DeleteFilePositions | src/lazy_delete_filter.rs:507-532 | A delete file's positions at the read snapshot, the same from the memo as from the file, and the memo stays faithful |
| LazyDelete.BatchFilter.Deleted | src/lazy_delete_filter.rs:478-532 | A file's deleted positions are the union of both encodings, from the memo or the file; once loaded they are kept and answered with nothing read again |
| LazyDelete.BatchFilter.Apply | src/lazy_delete_filter.rs:445-475 | A batch loses exactly its deleted rows, in order, whatever other tasks load before each row and whichever of their reads fail |
| LazyDelete.BatchingDoesNotMatter | src/lazy_delete_filter.rs:330-358 | However rows are cut into batches, the filtered batches together are the filtered rows |
| LazyDelete.PrefetchAfter | src/lazy_delete_filter.rs:423-443 | The files started are exactly those not started before among the window's number after the current file, each once and in reading order |
| FilteredScan.FilteredIsDead | src/lazy_delete_filter.rs:445-532 | A row passes the filter if and only if the catalog, in either encoding, has not deleted it by the snapshot |
| FilteredScan.FilteredRows | src/lazy_delete_filter.rs:445-532 | So of the rows of a file the filter keeps, in order, exactly those not deleted |
| DeleteMemo.TableHoldsExactly | src/delete_memo.rs:78-100 | The table is a power of two and holds n positions if and only if n is at most 7 · 2^59 |
| DeleteMemo.BucketsHold | src/delete_memo.rs:78-100 | Below saturation the buckets hold the positions at a 7/8 load, above it the table is the largest |
| DeleteMemo.SmallestTable | src/delete_memo.rs:78-100 | The table is the smallest power of two, from 4 on, that holds the positions at a 7/8 load |
| DeleteMemo.ReckonedExactly | src/delete_memo.rs:72-100 | The size reckoned for n positions is that of the table sized for them if and only if the 64-bit product does not saturate |
| DeleteMemo.DeletePositionMemo.constructor | src/delete_memo.rs:137-145 | Starts empty, for any 64-bit budget |
| DeleteMemo.DeletePositionMemo.Get | src/delete_memo.rs:148-162 | Positions are served if and only if path and read snapshot are those they were kept for |
| DeleteMemo.DeletePositionMemo.Insert | src/delete_memo.rs:185-214 | The entry is kept exactly when it passes the saturating test, bytes stay the 64-bit sum of the entries, and from within the budget it is left if and only if the budget is the largest value and the new total passes it |
| DeleteMemo.LargestBudgetOverflows | src/delete_memo.rs:185-214 | A memo of the largest budget whose entries fill it takes any file more: the entries are past every 64-bit budget and the kept total starts again below the new entry's size |
| DeleteMemo.FullMemoExists | src/delete_memo.rs:137-145 | One entry can fill it |
| DeleteMemo.DeletePositionMemo.Fits | src/delete_memo.rs:169-183 | Whether the reckoned size fits beside the other files' entries; within the budget the subtraction does not underflow |
| DeleteMemo.FitsMeansInserts | src/delete_memo.rs:169-214 | A set no larger than the table reckoned for, saturated reckonings included, is kept by the insert after a positive answer |
| Words.TestedSumFits | src/catalog_read_memo.rs:470-476 | A saturating test against a budget lets a sum through that does not fit 64 bits if and only if the budget is the largest value and the sum is past it |

## Left out

- The SQL backends, transactions and connections: a consistent read or a commit is one atomic step.
- Arrow, Parquet and DataFusion internals: type coercion, statistics, sort execution. A flush order is any permutation.
- Floating point: `varchar_to_double`, `parse_memory_limit`, float filters, the rewrite threshold ratio.
- Encryption, Hive directories, tags, comments, `checkpoint` orchestration, name mappings.
- FieldIdAdapter.PathReadsExactly: a nested result is presented by the read type's names; Arrow's own matching of struct children in a cast, defaults that do not decode and list elements without an id are not modelled.
- ExprAdapter.RewriteIsSubstitution: row-lineage probes are not modelled.
- ReadAhead.EmitsPartitionsInOrder: a reader yields nothing after it fails.
- CatalogMemo.EveryRunIsConsistent: for runs without a stale absence answer in a consistent read and without an overflowing total, both of which break it; the kept columns are not modelled.
- Fill.FillFrom: a provider that reads no next file id, or no row ids, is not modelled.
- InlinedFilter.TranslationWeakens: not for a `LIKE` that holds a backslash and names no escape, where it is false (`InlinedFilter.LikeExactly`).
- InlinedFilter.AllTranslationsWeaken: the same.
- RenderFilter.PushDown: the same.
- RenderFilter.ComparisonIsExact: physical type names are reduced to whether they suit the column and hold a number; identifiers and SQL text are a tree.
- DeleteMemo.FitsMeansInserts: for sets whose own byte count, which the code does not saturate, fits 64 bits.
- Fork.ForkReadsSource: the head check and the listing are one step; `row_id_start`, the row id floor, and schema and tag copies are not modelled.
- MergePlan.SortGroups: the order of partition keys is any order; Rust's order of texts is not modelled.
- Managed.ManagedRunsKeepHistory: for writers that stage row mutations, which the single-catalog PostgreSQL writer does not; a cumulative delete file beside inlined deletions reaches the flush's failing case (`Unstaged.CumulativeReachesOverlap`).
- ManagedDeletes.ManagedDeleteAll: for the same writers.
- DeleteAll.DeleteAllEmpties: `commit_truncate`, the metadata-only form of writers that do not stage row mutations, is not modelled.
- ChangeDetection.TableDataChanges.Record: takes a snapshot's tokens; the text they are parsed from is not modelled.
- ChangeHistory.UnreportedStep: `DROP TABLE` and schema changes are not among the steps.
