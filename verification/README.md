# A verified model of RMDB

RMDB is a relational engine: B+ tree indexes, heap files, a buffer pool, two-phase locking, a
write-ahead log with recovery, a join planner and iterator executors. The Dafny files here model
its core and prove what that core is for. `dafny verify dfyconfig.toml` checks all of it.

What is proved, part by part:

- **Index** (`Ix*.dfy`, `IndexScan`). `IxTree` is the B+ tree as an object whose pages are edited
  step by step. Its invariant says: all leaves at one depth, pages within their bounds, parent
  pointers right, prev and next links listing each level from left to right across parents,
  separators enclosing subtrees, first and last leaf where the file header says. Every public
  operation keeps it and changes the contents by exactly one entry, including cousin merges and
  borrowing, which reach over parent boundaries, and adds or drops a page exactly when the leaf and its
  neighbours leave no other way. `IxHeight` bounds occupancy and height. Keys are natural numbers; `IxKeys` shows that
  comparing composite keys column by column is comparing numbers, and that cutting a key to its
  leading columns is a division. `IxScan` and `IndexScan` carry this to range scans: an index scan
  gives what a filtered full scan gives. `IxPrefix` searches the tree by leading columns.
- **Transactions** (`Locks`, `LockOutcomes`, `Serial`, `TwoPhase`, `CrashRun`, `Winners`, `Overtaking`).
  The lock table is an object; `LockOutcomes` says exactly when a lock is granted. Its steps make up runs, in which transactions lock, read, write, roll back change by
  change, release and end. Over all runs: held modes are compatible, the conflict graph is acyclic,
  every run has the effect of a serial one. Over all runs in which a row is not changed again before
  the end of its last writer is logged: after a crash at any time the log on disk describes exactly
  the tables that the committed transactions alone make, and recovery rebuilds these exactly under
  the condition below.
- **Log and recovery** (`LogCodec`, `LogWriter`, `Recovery`, `Survivors`, `Restarts`, `Replay`,
  `FileRooms`). Records round-trip through bytes, a log is walked by stored lengths, LSN chains lead
  back to BEGIN. `Recovery` is analyze, redo and undo on any log; `Survivors` says when their outcome
  is the rows of the committed transactions, for logs cut anywhere, also inside a rollback;
  `Restarts` recovers a second time. `Replay` compares the free space that redo builds up with the
  one of the run that wrote the log, and `FileRooms` takes that run from the lock protocol.
- **Planner** (`Plans`, `Placing`, `Queries`, `Planner`, `ColumnNames`, `QueryExamples`, `PlanRun`,
  `QueryRun`, `Comparing`). Executors look columns up by name alone, in the columns of their child. `Plans` gives
  plans this meaning, `Placing` says where the columns of a condition are looked up, `Planner` builds
  the tree, `Queries` and `ColumnNames` say when it means the query, and `PlanRun` runs it with
  `BlockJoin`. `Comparing` fixes the operators by what they do to answers.
- **Heap files** (`Bitmap`, `Layout`, `FreeSpace`, `Following`, `HeapFile`, `IxBuild`). Slots, page
  layout, scans, building an index over the rows of a file, and the free list: `FreeSpace` is the
  state of a file that placed inserts and deletes depend on, `Following` says when one such state
  offers the same pages as another.
- **Rollback** (`AbortTxn`, `Rollback`, `TxnRun`, `Agreement`). Undoing a write set of any length over a
  heap file and its indexes; `TxnRun` makes the writes and takes them back. `Agreement` says what it means that an index agrees with a table.
- **Buffer pool** (`BufferPool`). The pool refines a flat store of pages, and pins count holders over all
  calls.
- **Executors** (`ExternalSort`, `BlockJoin`, `UpdateRows`). Sorting, joining and updating.

`Common` holds record identifiers, comparison operators and what else several modules share.

Where the code does not do what one would expect, the exact condition is proved; the members in
brackets show inputs on which it goes wrong. The build defines `NDEBUG` (`CMakeLists.txt`, line 10), so
a failed assertion does not stop the program; where the code asserts, the model says both whether the
assertion holds and what happens without it.

- `Planner.MakeOneRel`: a comparison of two columns of one table goes to the scan of the first table,
  and a join looks a column up in the first table of its child that has one of that name. The plan
  means the query if and only if every name is found and the conditions as looked up, which
  `Queries.AsRead` computes from query and schema, are equivalent to those written
  (`QueryExamples.NameTaken`, `QueryExamples.StrayReadsFirst`, `QueryExamples.StrayNotFound`).
  A condition by itself is harmed by any column looked up elsewhere (`ColumnNames.TestedAsWritten`); a
  query need not be (`QueryExamples.NameShared`), and `ColumnNames.EquiJoinMeans` decides this for
  joins by equalities.
- `IndexScan.Bounds`: an equality in front and another condition that writes to the key buffer write
  past its end, on an index of one column. This is so if and only if there are two leading
  equalities, or one and a range behind it that does not cross (`IndexScan.EqualityFirst`,
  `IndexScan.EqualityThenRange`).
- `IxPrefix.LowerPrefix` and `IxPrefix.UpperPrefix`: descending by the whole key and searching the leaf
  by leading columns is right if and only if the next leaf on that side does not share the leading
  columns (`IxPrefix.LeadingColumnMissed`).
- `ExternalSort.LimitKept`: a limit is kept if and only if it is at most 2000 or at least the
  size of the result (`ExternalSort.LimitMissed`).
- `BlockJoin.NestedLoopJoin.Run`: an inner child that never clears its end mark, such as another
  join, is read once only. Every matching pair comes out if and only if the inner child restarts or
  all matches are among the first 4000 outer tuples (`BlockJoin.LaterBlockLost`).
- `UpdateRows.UpdateExecutor.Next`: a refused lock leaves the indexes as they were if and only if
  it is the lock of the first row or there are no indexes (`UpdateRows.SecondLockRefused`).
- `HeapFile.RmFileHandle.InsertRecordAt` and `FreeSpace.SearchEnds`: a placed insert ends if and
  only if the page offered first is not before the wanted one (`FreeSpace.SearchNever`), and it
  keeps the free list if and only if the slot was used, the page heads the list, or it keeps a free
  slot (`FreeSpace.HeadLost`).
- `HeapFile.RmFileHandle.InsertRecord`: an insert finds a slot if and only if the page offered is not
  full; once the free list is wrong, a full page may be offered (`FreeSpace.FullOffered`).
- `AbortTxn.TransactionManager.Abort`: rollback ends, with everything as it was, if and only if it
  passes through no table in which two rows share a key (`AbortTxn.ShiftCannotGoBack`) and every
  row it puts back is offered a page not before its own (`AbortTxn.FifthPageSpins`).
  `Rollback.RollbackEnds` says the latter in terms of the way there, for a transaction alone on its
  file.
- `Recovery.RecoveryManager.Recover`: recovery ends if and only if every row it stores is offered a
  page not before its own (`Replay.BadLogNeverReplays`). By `FileRooms.RunReplays` this is so for redo
  of a run without rollbacks if and only if every update was made while its file offered such a page,
  so a log of inserts and deletes always replays.
- `Survivors.CommittedSurvive`: recovery leaves exactly the committed rows if and only if no finished
  abort of an insert or delete is the last thing logged about its row, because replaying such a
  compensation repeats the change (`Recovery.CompensationRestores`, `Restarts.InsertStays`).
- `Restarts.RecoverTwice`: recovering twice gives what recovering once gives, but the second time a
  row that is not there may have to be removed (`Restarts.DeleteMissedAgain`), which an assertion
  denies; `Restarts.NothingMissing` says which logs cannot come to that.
- `Winners.CrashSafe`: `commit` releases its locks before it logs COMMIT, and `abort` before ABORT. When
  another transaction changes the row in between and the crash comes before the first record is on
  disk, recovery gives the row its value from before both (`Overtaking.OvertakenRow`), so committed
  work is lost (`Overtaking.WorkLost`).
- `TwoPhase.TwoPhased`: a transaction that has released is refused every further lock, but the refusal
  marks it aborted, and table and exclusive locks do not look at that mark
  (`LockOutcomes.AbortedLocksAgain`), so it depends on the caller to stop at the first refusal.
- `LogWriter.LogManager.AddToBuffer`: a record that does not fit in the log buffer makes the caller
  wait for a latch that it holds itself.
- `IxLayout.OrderAtLeastThree`: the order is at least 3, as the code asserts, if and only if the key
  has at most 1010 bytes; longer keys are accepted and give order 2 or 1.

## Model

| member | source | states |
|---|---|---|
| `IxTree.IxIndexHandle.constructor` | src/index/ix_manager.h:87-124 | an index file of order 3 or more starts as a well-formed tree with one empty leaf and no contents |
| `IxTree.IxIndexHandle.InsertEntry` | src/index/ix_index_handle.cpp:474-538 | on every well-formed tree: a taken key gives the not-unique result and changes nothing; any other key leaves a well-formed tree whose contents are the old map plus the entry, and the returned leaf holds it; a page is added if and only if the leaf of the key and both its neighbours were full |
| `IxTree.IxIndexHandle.DeleteEntry` | src/index/ix_index_handle.cpp:547-567 | on every well-formed tree: the result is well formed and its contents are the old map without the key, through borrowing, cousin merges and root collapse; a page goes if and only if the key was there and its leaf and the neighbour it turns to held no more than half; a missing key is no error; the result is false in every case, as in the code |
| `IxTree.IxIndexHandle.IsExist` | src/index/ix_index_handle.cpp:277-289 | true exactly when the contents have the key |
| `IxTree.IxIndexHandle.GetValue` | src/index/ix_index_handle.cpp:298-317 | found exactly when the contents have the key, and then the one rid filed under it |
| `IxTree.IxIndexHandle.FindLeaf` | src/index/ix_index_handle.cpp:254-275 | the descent ends at the leaf whose separators enclose the key |
| `IxTree.IxIndexHandle.FindSlot` | src/index/ix_index_handle.cpp:165-182 | the slot splits the leaf into smaller and not smaller keys, and the key is in the whole index exactly when it is at that slot |
| `IxTree.IxIndexHandle.InsertIntoLeaf` | src/index/ix_index_handle.h:136-145 | the contents gain the entry, no other page changes, and the leaf may hold one entry too many |
| `IxTree.IxIndexHandle.MakeRoom` | src/index/ix_index_handle.cpp:492-534 | an overfull leaf lends to its left neighbour if that has room, else to its right one if that has room, else it is split into a new page; no other leaf changes, the tree is well formed again, no entry is lost, and the leaf that now holds the new entry is returned |
| `IxTree.IxIndexHandle.Lend` | src/index/ix_index_handle.cpp:492-523 | borrowing between two neighbouring leaves restores the invariant, adds no page, touches no other leaf, and tells in which of the two the entry is |
| `IxTree.IxIndexHandle.Split` | src/index/ix_index_handle.cpp:338-402 | an overfull page at any level is cut in two and the cascade up to a new root ends in a well-formed tree with the same entries |
| `IxTree.IxIndexHandle.CutPage` | src/index/ix_index_handle.cpp:338-402 | the rids of the overfull page are dealt out evenly, the right page getting at most one more; the links of the level and the last-leaf pointer follow, and moved children get the new parent |
| `IxTree.IxIndexHandle.InsertIntoParent` | src/index/ix_index_handle.cpp:422-466 | hanging the right half behind the left one restores the whole invariant, whether the parent has room, is split in turn or does not exist |
| `IxTree.IxIndexHandle.AddToParent` | src/index/ix_index_handle.cpp:450-464 | the parent holds at most one key too many and is the only page whose occupancy may be off |
| `IxTree.IxIndexHandle.PlaceNewRoot` | src/index/ix_index_handle.cpp:430-449 | a new root above both halves gives a well-formed tree with the same entries |
| `IxTree.IxIndexHandle.CoalesceOrRedistribute` | src/index/ix_index_handle.cpp:580-628 | a page that is one key short turns to its left neighbour, or to the right one if it has none: it borrows, with no page lost, if and only if that one can spare, and otherwise the right page of the two goes; a root without keys goes; the result is well formed with the same entries; true exactly when the page itself is gone; a non-root page always has a neighbour |
| `IxTree.IxIndexHandle.Coalesce` | src/index/ix_index_handle.cpp:772-837 | merging a page into its left neighbour, a sibling or a cousin, ends in a well-formed tree without that page and with the same entries |
| `IxTree.IxIndexHandle.JoinInto` | src/index/ix_index_handle.cpp:782-834 | the left page takes over everything of the right one with the separator between them; links, child parents and last leaf follow |
| `IxTree.IxIndexHandle.UpdateRightParent` | src/index/ix_index_handle.cpp:842-875 | taking the right page out of its parent, repairing the separator in front of it and going on upwards restores the invariant |
| `IxTree.IxIndexHandle.RemoveChild` | src/index/ix_index_handle.cpp:842-864 | the parent loses exactly one key, and no separator is left stale |
| `IxTree.IxIndexHandle.AdjustRoot` | src/index/ix_index_handle.cpp:637-653 | a root without keys gives way to its only child, and the tree is well formed again |
| `IxTree.IxIndexHandle.Redistribute` | src/index/ix_index_handle.cpp:674-752 | two neighbours, of one parent or not, are evened out up to one key: well formed, same entries, same rows of pages |
| `IxTree.IxIndexHandle.RedistributeLeaves` | src/index/ix_index_handle.cpp:684-713 | the entries of the two leaves keep their order, are dealt out evenly, and no other leaf changes |
| `IxTree.IxIndexHandle.BalanceLeaves` | src/index/ix_index_handle.cpp:684-710 | sizes differ by one at most afterwards, and the two leaves hold a cut of the same entry sequence |
| `IxTree.IxIndexHandle.RedistributeInner` | src/index/ix_index_handle.cpp:714-752 | keys rotate through the separator of the nearest common ancestor until the two pages differ by one at most; the result is well formed |
| `IxTree.IxIndexHandle.MoveFirstLeft` | src/index/ix_index_handle.cpp:715-731 | one rotation to the left keeps shape, order and entries |
| `IxTree.IxIndexHandle.MoveLastRight` | src/index/ix_index_handle.cpp:732-750 | one rotation to the right keeps shape, order and entries |
| `IxTree.IxIndexHandle.MaintainParent` | src/index/ix_index_handle.cpp:1023-1053 | the one stale separator of the tree is repaired, however far up it is, and nothing else changes; the climb never reaches the root without finding it |
| `IxTree.IxIndexHandle.MinLeaf` | src/index/ix_index_handle.h:265-279 | the leaf reached by first children is the leftmost leaf below the page |
| `IxTree.IxIndexHandle.AdoptChildren` | src/index/ix_index_handle.cpp:1088-1097 | every listed child gets the new parent and nothing else changes |
| `IxTree.IxIndexHandle.RemoveFromLeaf` | src/index/ix_index_handle.cpp:209-223 | the contents lose the key, the leaf one entry if the key was there |
| `IxTree.Neighbours` | src/index/ix_index_handle.cpp:595-627 | below the root every page has a left or right neighbour of its own kind, and the links name it, so the missing-neighbour case does not arise |
| `IxTree.Wide` | src/index/ix_index_handle.cpp:595-627 | every level below a root with a key has at least two pages |
| `IxTree.CanEvenOut` | src/index/ix_index_handle.cpp:597-619 | two neighbours that do not fit in one page can be evened out within the bounds, so the size assertion of `redistribute` holds |
| `IxTree.CanJoin` | src/index/ix_index_handle.cpp:603-625 | two neighbours that fit in one page fill it exactly to the bound the merge assertion asks for |
| `IxTree.LeafLinks` | src/index/ix_index_handle.cpp:338-402 | the prev and next links of a leaf are its neighbours in the leaf row, across parents, and end exactly at its ends |
| `IxTree.MergeStep` | src/index/ix_index_handle.cpp:772-875 | a merge step on trees: shape, entries, occupancy, and which separator is left to repair |
| `IxSplit.SplitShape` | src/index/ix_index_handle.cpp:338-402 | splitting a page keeps equal depth, parent pointers and the links of every level |
| `IxSplit.SplitLeafOrder` | src/index/ix_index_handle.cpp:338-402 | splitting a leaf keeps the separators of all leaves right and the row of entries as it was |
| `IxSplit.SplitInnerOrder` | src/index/ix_index_handle.cpp:338-402 | splitting an inner page moves its middle key up and changes no separator of a leaf |
| `IxMerge.MergeShape` | src/index/ix_index_handle.cpp:772-837 | merging two neighbours keeps equal depth, parent pointers and the links of every level |
| `IxMerge.MergeOrder` | src/index/ix_index_handle.cpp:772-837 | merging keeps all separators right but the one in front of a parent that lost its first child |
| `IxShift.ShareLeaves` | src/index/ix_index_handle.cpp:684-711 | moving entries between neighbouring leaves disturbs one separator only |
| `IxShift.MoveLeftStep` | src/index/ix_index_handle.cpp:715-731 | rotating a child to the left neighbour keeps shape, order and entries |
| `IxShift.MoveRightStep` | src/index/ix_index_handle.cpp:732-750 | rotating a child to the right neighbour keeps shape, order and entries |
| `IxEdit.RepairSep` | src/index/ix_index_handle.cpp:1023-1053 | writing the smallest key of a subtree in front of it mends a stale separator and only that |
| `IxRoot.GrowShape` | src/index/ix_index_handle.cpp:430-449 | a new root above the old one keeps the shape |
| `IxRoot.ShrinkShape` | src/index/ix_index_handle.cpp:637-653 | dropping a root with one child keeps the shape |
| `IxFill.SplitFill` | src/index/ix_index_handle.cpp:338-402 | both halves of an overfull page hold enough and not too much |
| `IxFill.MergeFill` | src/index/ix_index_handle.cpp:786-811 | the merged page does not exceed its bound |
| `IxFind.LowerBound` | src/index/ix_index_handle.cpp:23-45 | binary search: the first position whose key, cut to the leading columns, is not below the target |
| `IxFind.UpperBound` | src/index/ix_index_handle.cpp:57-79 | binary search: the first position whose key, cut to the leading columns, is above the target |
| `IxFind.DescendStep` | src/index/ix_index_handle.cpp:122-129 | the child chosen by the search again encloses the key |
| `IxFind.OnlyHere` | src/index/ix_index_handle.cpp:254-317 | a key is in the index exactly when it is in the one leaf the descent leads to |
| `IxFind.FindChild` | src/index/ix_index_handle.h:176-186 | the first position of the child among its parent's children |
| `IxKeys.IxCompare` | src/index/ix_index_handle.h:20-50 | the sign of the loop's result says which key has the smaller value in the first leading column in which they differ, integers and floats by value, strings byte by byte, and zero that there is none |
| `IxKeys.CodeOrder` | src/index/ix_index_handle.h:20-50 | a key comes before another in the leading columns exactly when its number is smaller, for every prefix of the columns |
| `IxKeys.PrefixCode` | src/index/ix_index_handle.h:39-50 | cutting a key to its leading columns divides its number, so a search by prefix is a search by quotient |
| `IxLayout.IndexFits` | src/index/ix_manager.h:67-90 | header, key area and rid area of an index page for one entry more than the order fit in a page, and for two entries more they do not |
| `IxLayout.NodeFits` | src/index/ix_manager.h:67-90 | every page an operation can see, an overfull one included, stays inside both areas |
| `IxLayout.OrderAtLeastThree` | src/index/ix_manager.h:75-86 | the assertion on the order holds exactly for keys of at most 1010 bytes, although 2000 are accepted; the build defines NDEBUG, so longer keys give a tree of order 2, or 1 from 1350 bytes on |
| `IxHeight.HalfFull` | src/index/ix_index_handle.h:77-86 | in every well-formed tree a page below the root holds at least half the order of entries or children, no page more than the order, and an inner root at least two children |
| `IxHeight.Height` | src/index/ix_index_handle.h:77-86 | a tree of h levels holds at most order^h entries and, if h is above 1, at least 2 * m^(h-1) for m half the order rounded up, so at least 2^h: its height is logarithmic in the number of entries |
| `IxHeight.PagesOn` | src/index/ix_index_handle.h:77-86 | the number of pages of each level, from above and below |
| `IxScan.PlaceUnique` | src/index/ix_scan.h:42-46 | two cursors are equal exactly when they have the same position in the sorted row of entries |
| `IxScan.LowerBoundIn` | src/index/ix_index_handle.cpp:913-926 | the place of the first entry not below the key, in the leaf row as a whole |
| `IxScan.UpperBoundIn` | src/index/ix_index_handle.cpp:934-947 | the place of the first entry above the key, in the leaf row as a whole |
| `IxScan.LeafBegin` | src/index/ix_index_handle.cpp:969-972 | the place of position 0 |
| `IxScan.LeafEnd` | src/index/ix_index_handle.cpp:955-961 | the place behind the last entry |
| `IxScan.Scan.constructor` | src/index/ix_scan.h:30-38 | the scan has exactly the entries between its two places before it |
| `IxScan.Scan.IsEnd` | src/index/ix_scan.h:42-46 | true exactly when nothing is left |
| `IxScan.Scan.Next` | src/index/ix_scan.cpp:17-35 | drops exactly the first entry of what is left, across leaf boundaries |
| `IxScan.Scan.CurrentRid` | src/index/ix_index_handle.cpp:887-903 | the rid of the first entry left, and the invalid rid behind the last entry |
| `IxPrefix.LowerPrefix` | src/index/ix_index_handle.cpp:913-926 | with a key cut to its leading columns: a place in the leaf row, the right one if and only if the leaf before does not end with the same leading columns; always right when the other columns of the key are lowest |
| `IxPrefix.UpperPrefix` | src/index/ix_index_handle.cpp:934-947 | the same for the first entry above: right if and only if the leaf behind does not begin with the same leading columns; always right when the other columns of the key are highest |
| `IxPrefix.LowestRight` | src/index/ix_index_handle.cpp:913-926 | a descent by a key whose other columns are lowest never comes out behind a leaf with the same leading columns |
| `IxPrefix.HighestRight` | src/index/ix_index_handle.cpp:934-947 | nor one by a key whose other columns are highest in front of such a leaf |
| `IxPrefix.LeadingColumnMissed` | src/index/ix_index_handle.cpp:913-926 | a failing input: a tree of two leaves whose entries all have the same leading column, searched for it; the place found skips the first leaf |
| `IndexScan.EnclosedEnough` | src/execution/executor_index_scan.h:89-182 | filtering the enclosed part gives the same rows as filtering the whole index |
| `IndexScan.FullScan` | src/execution/executor_index_scan.h:89-205 | filtering the entries of an index that agrees with its table is filtering the table |
| `IndexScan.FilteredRises` | src/execution/executor_index_scan.h:184-205 | the rows come out in strictly rising order of the column |
| `IndexScan.IndexScanExecutor.NextTuple` | src/execution/executor_index_scan.h:184-205 | what is left to give loses exactly its first row |
| `IndexScan.Limits` | src/execution/executor_index_scan.h:115-137 | the limits found by the loop hold of a key exactly when all lower and all upper conditions do, and they are the tightest ones given |
| `IndexScan.HandedColumn` | src/optimizer/planner.cpp:41-68 | of the conditions of a scan the planner hands on exactly those on the column of the index, in their order, whatever their operators |
| `IndexScan.CrossedLimits` | src/execution/executor_index_scan.h:125-137 | the limits cross exactly when some lower and some upper condition exclude each other |
| `IndexScan.Bounds` | src/execution/executor_index_scan.h:99-163 | the key buffer is not overrun if and only if the conditions do not begin with an equality, or begin with one equality and hold no bound besides it or only bounds that cross; then the two places enclose every entry whose key passes, and no entry outside the equality or the bounds unless the bounds cross, when the whole index is read |
| `IndexScan.IndexScanExecutor.BeginTuple` | src/execution/executor_index_scan.h:89-182 | when the conditions fit the key buffer, what is left to give is the filtered index as a whole, and the executor stands at its first row |
| `IndexScan.IndexScanExecutor.Run` | src/execution/executor_index_scan.h:89-205 | for any non-empty conditions on the column: the scan stays within its key buffer exactly when they fit it, and then it ends and gives exactly the rows a filtered full scan gives, each once, in key order |
| `IndexScan.EqualityFirst` | src/execution/executor_index_scan.h:99-124 | failing and good inputs: `= 1` with `> 0` or with `= 2` behind it do not fit, the first of them turned round and `= 1` with `<> 2` do |
| `IndexScan.EqualityThenRange` | src/execution/executor_index_scan.h:99-163 | a failing run: `= 1` and `> 0` on any agreeing index overrun the key buffer |
| `Locks.LockManager.LockOnTable` | src/transaction/concurrency/lock_manager.cpp:99-225 | the five table locks: granted, refused or already held, with the new queue, state and lock set as the specification function says |
| `Locks.LockManager.LockSharedOnRecord` | src/transaction/concurrency/lock_manager.cpp:27-57 | table intention first, then the record's queue, with the outcome the specification function gives |
| `Locks.LockManager.LockExclusiveOnRecord` | src/transaction/concurrency/lock_manager.cpp:66-91 | the same for exclusive record locks |
| `Locks.LockManager.Unlock` | src/transaction/concurrency/lock_manager.cpp:233-253 | takes away exactly the requests of the transaction for one thing |
| `Locks.LockManager.ReleaseLocks` | src/transaction/transaction_manager.cpp:277-282 | afterwards no queue holds a request of the transaction, its lock set is empty, it is shrinking if it was growing and held anything, and nobody else's requests changed |
| `Locks.RefusesBothWays` | src/transaction/concurrency/lock_manager.cpp:99-225 | which of two modes refuses the other does not depend on which came first |
| `Locks.OnTableKeeps` | src/transaction/concurrency/lock_manager.cpp:99-225 | table locks keep modes of different holders compatible, lock sets complete and record locks below their intentions |
| `Locks.SharedKeeps` | src/transaction/concurrency/lock_manager.cpp:27-57 | shared record locks keep the same invariant |
| `Locks.ExclusiveKeeps` | src/transaction/concurrency/lock_manager.cpp:66-91 | exclusive record locks keep the same invariant |
| `Locks.UnlockKeeps` | src/transaction/concurrency/lock_manager.cpp:233-253 | unlocking keeps it too |
| `LockOutcomes.RefusesConflicts` | src/transaction/concurrency/lock_manager.cpp:99-225 | of two modes one refuses the other exactly when one may write everything, or one may read everything while the other writes |
| `LockOutcomes.OnTableGranted` | src/transaction/concurrency/lock_manager.cpp:99-225 | a table lock is granted exactly when the transaction has not begun to release and nobody else's lock conflicts; then it is held; otherwise no request changes, and in no case a request of anybody else |
| `LockOutcomes.ExclusiveGranted` | src/transaction/concurrency/lock_manager.cpp:66-91 | an exclusive record lock is granted exactly when the transaction has not begun to release, nobody else's table lock conflicts with IX and nobody else has a lock on the record; then X on the record and IX on the table are held |
| `LockOutcomes.SharedGranted` | src/transaction/concurrency/lock_manager.cpp:27-57 | a shared record lock is granted exactly when the transaction is neither aborted nor releasing and nobody else has X on the table or the record; then S or X on the record and IS on the table are held |
| `LockOutcomes.NoLockAfterUnlock` | src/transaction/concurrency/lock_manager.cpp:233-253 | a transaction that gives back a lock while growing is answered LOCK_ON_SHRINKING at its next request, whatever it asks for |
| `LockOutcomes.AbortedLocksAgain` | src/transaction/concurrency/lock_manager.cpp:66-91 | a failing input for the request after that: an aborted transaction is granted table and exclusive locks again, shared record locks not |
| `Serial.EdgeOrder` | src/transaction/concurrency/lock_manager.cpp:27-253 | of two conflicting accesses, the first transaction has begun to release before the second access, and the second has not |
| `Serial.NoCycle` | src/transaction/concurrency/lock_manager.cpp:27-253 | along every path of the conflict graph first releases come later and later, so the graph has no cycle |
| `Serial.Alone` | src/transaction/transaction_manager.cpp:49-75 | in that rearrangement the accesses of a transaction stand together: it is serial |
| `Serial.SameProgram` | src/transaction/transaction_manager.cpp:49-75 | and each transaction does there what it did, in the order it did it |
| `Serial.Reachable` | src/transaction/concurrency/lock_manager.cpp:27-253 | in every reachable lock table, modes of different transactions on one table or record are compatible, record locks sit below IS or IX until release, and lock sets cover all requests |
| `Serial.Serializable` | src/transaction/transaction_manager.cpp:49-138 | every run, with rollback steps among its accesses, has the same tables and the same reads as its rearrangement by first release |
| `Serial.ViewsTell` | src/transaction/transaction_manager.cpp:49-138 | what scans and writes see tells tables apart: equal views of all tables or of all rows mean equal contents |
| `TwoPhase.GrantedMayAct` | src/transaction/concurrency/lock_manager.cpp:27-253 | a granted lock is enough for the access it is asked for: S on a table for a scan, X on a record or on a table for a write |
| `TwoPhase.PhaseAlong` | src/transaction/concurrency/lock_manager.cpp:27-253 | in every run a transaction that has not released is new or growing, and growing once it holds a lock |
| `TwoPhase.TwoPhased` | src/transaction/concurrency/lock_manager.cpp:233-253 | in every run, once a transaction that has accessed anything gives back a lock, every request it could make at any later time is answered LOCK_ON_SHRINKING |
| `LogCodec.RoundTrip` | src/recovery/log_manager.h:71-87 | any record of any kind, followed by any bytes, reads back as itself |
| `LogCodec.ReadAt` | src/recovery/log_recovery.cpp:47-60 | in any concatenation of records, walking by the stored lengths finds each record and decodes it |
| `LogCodec.RecordAt` | src/recovery/log_manager.h:204-242 | each record occupies exactly the bytes from its offset to the next |
| `LogCodec.HeaderLayout` | src/recovery/log_manager.h:71-87 | the header fields stand at bytes 0, 4, 8, 12, 16 and 20, least significant byte first, and the third is the length of the record |
| `LogCodec.BodyLayout` | src/recovery/log_manager.h:204-395 | behind the header: the value, or old and new value, with their lengths in front, page and slot number, and the table name with its length in front |
| `LogCodec.SmallValid` | src/recovery/log_manager.h:71-87 | every record with 32-bit numbers and values and names below 512 megabytes is one that the round trip is about |
| `LogCodec.KindCodes` | src/recovery/log_manager.h:26-37 | the code of each kind of record, and that it reads back |
| `LogWriter.Increasing` | src/recovery/log_manager.cpp:47-77 | LSNs rise strictly along every log |
| `LogWriter.ChainIsBackwards` | src/recovery/log_manager.cpp:47-149 | following `prev_lsn` from a transaction's last record visits exactly its records that are not compensations, in reverse |
| `LogWriter.ChainEnds` | src/recovery/log_manager.cpp:123-131 | that chain ends at the transaction's BEGIN |
| `LogWriter.LogManager.Append` | src/recovery/log_manager.cpp:47-77 | returns if and only if the record fits in the 4 MB buffer; then the record has the next LSN and the transaction's previous one, and disk and buffer together are the bytes of all records written |
| `LogWriter.LogManager.AddToBuffer` | src/recovery/log_manager.cpp:27-46 | flushing a full buffer takes the latch that the caller holds, so the call returns if and only if the record fits in the 4 MB |
| `LogWriter.LogManager.AppendClr` | src/recovery/log_manager.cpp:78-122 | the same for a compensation, which stays outside the chain |
| `LogWriter.LogManager.Flush` | src/recovery/log_manager.cpp:41-46 | everything written so far is in the file |
| `LogWriter.LogManager.Commit` | src/transaction/transaction_manager.cpp:49-75 | when a commit returns, its COMMIT is the last record of the file; it returns if and only if the record fits in the buffer |
| `Recovery.RecoveryManager.Analyze` | src/recovery/log_recovery.cpp:23-63 | the tables are emptied, every record's offset is found, the table of previous LSNs holds exactly the LSNs of the log, the next LSN follows the last one, and the next transaction id the largest one |
| `Recovery.RecoveryManager.RedoRecord` | src/recovery/log_recovery.cpp:68-104 | redo of one record of any kind, compensations included: rows, free space and list, when it ends, and whether the row to remove was there |
| `Recovery.RecoveryManager.Redo` | src/recovery/log_recovery.cpp:68-104 | ends if and only if every row stored is offered a page not before its own; then the rows and free spaces are those of the whole log, the list holds exactly the open transactions, and it is known whether every row removed was there |
| `Recovery.RecoveryManager.Undo` | src/recovery/log_recovery.cpp:111-193 | ends if and only if every row put back is offered a page not before its own; then the writes of open transactions are reverted, last first, and one compensation for each is appended to the log in that order |
| `Recovery.RecoveryManager.Recover` | src/recovery/log_recovery.cpp:23-193 | for any log in which a transaction's records begin with its BEGIN and end with its COMMIT or ABORT, whatever aborted transactions did: recovery ends if and only if every row stored by redo and undo is offered a page not before its own; then rows and appended records are the specified ones, and no removal asks for a missing row exactly when the specification says so |
| `Recovery.OpenAt` | src/recovery/log_recovery.cpp:68-104 | redo's list tells transactions without an end from the others |
| `Recovery.CompensationRestores` | src/recovery/log_manager.h:55-69 | replaying a change and then its compensation restores the rows if and only if the change is an update, and asks for a missing row if and only if it is a delete |
| `Recovery.InsertRepeated` | src/recovery/log_manager.h:55-69 | a failing input: an insert and its compensation leave the row |
| `Recovery.DeleteStops` | src/recovery/log_manager.h:55-69 | a failing input: the compensation of a delete asks to remove a row that is gone; with assertions the replay stops, without them the row stays gone |
| `Recovery.RecoveryManager.StoreAt` | src/recovery/log_recovery.cpp:212-256 | a placed insert as recovery uses it: it ends if and only if some request of its loop is answered with a page not before the wanted one |
| `Recovery.RecoveryManager.UndoRecord` | src/recovery/log_recovery.cpp:144-168 | undo of one record: rows, free space, list and appended record, when it ends, and whether the row to remove was there |
| `Recovery.EmittedAre` | src/recovery/log_recovery.cpp:111-193 | undo appends exactly one compensation for each write of an open transaction, the one of the last write first |
| `Survivors.CommittedAlong` | src/recovery/log_recovery.cpp:68-104 | at every point of a log written under the lock protocol, a row held by an unfinished loser has the committed value of before its first change, and any other row the committed value is what the run saw |
| `Survivors.RedoAt` | src/recovery/log_recovery.cpp:68-104 | replay gives a row the value of the run if and only if the last record on it is not the compensation of an insert or delete |
| `Survivors.RowRecovered` | src/recovery/log_recovery.cpp:23-193 | row by row: recovery gives the committed value if and only if an open transaction changed the row or the last record on it does not mislead replay |
| `Survivors.CommittedSurvive` | src/recovery/log_recovery.cpp:23-193 | for every log of the lock protocol, with any transactions committed, aborted, aborting or open: recovery leaves exactly the committed rows if and only if no finished abort of an insert or delete is the last thing logged about its row |
| `Survivors.UpdatesSurvive` | src/recovery/log_recovery.cpp:23-193 | so recovery is right for every log whose finished aborts took back updates only, cut anywhere |
| `Survivors.PrefixLog` | src/recovery/log_recovery.cpp:23-193 | any prefix of such a log is such a log, also when it ends in the middle of a rollback |
| `Survivors.RecoverLog` | src/recovery/log_recovery.cpp:23-193 | recovery from the bytes of such a log: when it ends, what it appends, and when its rows are the committed ones |
| `Restarts.RecoveredAgain` | src/recovery/log_recovery.cpp:111-193 | recovering from a log followed by any of the compensations that an earlier undo appended gives the same rows |
| `Restarts.RecoverTwice` | src/recovery/log_recovery.cpp:23-193 | a crash during or after recovery: the second recovery, from the bytes of the old log and any prefix of what the first one appended, ends with the same rows |
| `Restarts.NothingMissing` | src/recovery/log_recovery.cpp:212-256 | in a log without compensations of inserts and deletes neither redo nor undo asks to remove a missing row |
| `Restarts.InsertStays` | src/recovery/log_manager.h:55-69 | a failing input: an insert taken back by its own transaction is there after recovery |
| `Restarts.DeleteMissedAgain` | src/recovery/log_recovery.cpp:144-168 | a failing input: after undo of a delete, the next recovery asks to remove a missing row |
| `Replay.ReplayFollows` | src/recovery/log_recovery.cpp:68-104 | along any log in which nothing is taken back, the replayed free space of every table follows the one of the run that wrote the log |
| `Replay.RedoEnds` | src/recovery/log_recovery.cpp:68-104 | redo of such a log ends if and only if every logged update was made while its file offered a page not before that of the row |
| `Replay.InsertsAndDeletesReplay` | src/recovery/log_recovery.cpp:68-104 | redo of such a log without updates always ends |
| `Replay.BadLogNeverReplays` | src/recovery/log_recovery.cpp:92-96 | a failing input: with one record to a page, two inserts, a delete of the first row, an update of the second, COMMIT; redo never ends |
| `CrashRun.RunKeeps` | src/transaction/transaction_manager.cpp:49-138 | along every run of the lock protocol, commits and step-by-step aborts included, the log stays such a log, mirrors the tables, and unwinding the write set of a running transaction leads to the values before its first changes |
| `CrashRun.OthersEnded` | src/transaction/transaction_manager.cpp:82-138 | in such a run no transaction writes a row that another one changed before that one has ended |
| `CrashRun.UninterruptedIsPrompt` | src/transaction/transaction_manager.cpp:49-138 | runs in which commit and abort are not interrupted are among those that the crash results are about |
| `CrashRun.BackIsCompensation` | src/transaction/transaction_manager.cpp:82-138 | what a rollback step logs is the compensation of the change it takes back |
| `Winners.WinnersShow` | src/transaction/transaction_manager.cpp:49-75 | at every point of a run the committed rows of the log on disk are the tables that the committed transactions alone have made |
| `Winners.CrashSafe` | src/recovery/log_recovery.cpp:23-193 | after any run with commits and aborts, with any prefix of its log on disk: the committed rows are the tables that the transactions with a COMMIT in the prefix alone make, and recovery gives exactly these rows if and only if no finished abort of an insert or delete is the last thing logged about its row |
| `Winners.AbortedLeaveNothing` | src/transaction/transaction_manager.cpp:82-138 | when all transactions have ended, the tables of the run are those of the committed transactions alone |
| `Winners.SameLog` | src/recovery/log_recovery.cpp:23-193 | being such a log does not depend on the LSNs in it |
| `Winners.Restart` | src/recovery/log_recovery.cpp:23-193 | the same from the bytes that the log manager has flushed in any run: recovery ends if and only if every row stored finds its page, and then gives the tables that the transactions with a COMMIT in the file alone make, under the condition of `Winners.CrashSafe` |
| `Overtaking.OvertakenRow` | src/recovery/log_recovery.cpp:111-193 | when a transaction without an end changed a row before a committed one did, recovery gives the row its value from before the first, whatever the second wrote |
| `Overtaking.WorkLost` | src/transaction/transaction_manager.cpp:69-72 | a failing run: locks go before COMMIT is logged; a second transaction updates the row, commits, and the crash comes before the first COMMIT; recovery loses the committed row |
| `FileRooms.RoomsAgree` | src/record/rm_file_handle.cpp:43-116 | along every run of the lock protocol whose inserts take the page their file offers, the free space that the log describes is the one of the run's files |
| `FileRooms.RunReplays` | src/recovery/log_recovery.cpp:68-104 | so redo of the log of such a run ends if and only if every update was made while its file offered a page not before that of the row |
| `Plans.ReadPlan` | src/common/common.h:357-400 | looking a bare column name up in the columns of a plan's output finds the column of the first table, in leaf order, that has one of that name |
| `Plans.PlanMeans` | src/common/common.h:357-400 | a plan all of whose names are found gives exactly the cross product of its tables filtered by its conditions as they are looked up |
| `Plans.PlanRuns` | src/system/sm_meta.h:43-49 | no lookup in such a plan ever fails |
| `Plans.FirstDecides` | src/execution/executor_seq_scan.h:101-107 | the first condition that does not pass decides, so an unknown column behind it does no harm |
| `Placing.SwappedHolds` | src/optimizer/planner.cpp:131-139 | swapping the sides and the operator keeps the meaning and is its own inverse |
| `Placing.ChainReads` | src/optimizer/planner.cpp:210-283 | in a chain of blocks, as the planner builds it, the tables among which a condition's columns are looked up depend on the condition and the order of blocks only |
| `Placing.ReadSwap` | src/optimizer/planner.cpp:131-139 | a swapped condition is looked up as the swap of what the condition is looked up as |
| `Queries.QueryReads` | src/optimizer/planner.cpp:176-283 | a plan arranged for a query, with every name found, fails on no database and gives exactly the cross product filtered by the conditions as they are looked up |
| `Queries.NothingGiven` | src/optimizer/planner.cpp:88-105 | a comparison of two columns of one table whose names the first table lacks makes the plan give nothing, on any database |
| `Queries.MeansReads` | src/optimizer/planner.cpp:176-283 | such a plan means the WHERE clause if and only if the conditions as looked up are equivalent to the conditions as written |
| `Queries.QueryMeans` | src/optimizer/planner.cpp:176-283 | all of this about any arranged plan: what it means, when it gives nothing, and when it means what was written |
| `Planner.PushPlaces` | src/optimizer/planner.cpp:107-144 | the code returned tells which tables were found, and a condition between two tables of the tree lands at a join with its columns on the right sides, swapped if need be |
| `Planner.PushCounts` | src/optimizer/planner.cpp:107-144 | it is added exactly once and nothing else changes |
| `Planner.PopScan` | src/optimizer/planner.cpp:146-157 | finds the scan of the table and marks it used |
| `Planner.PopConds` | src/optimizer/planner.cpp:88-105 | every condition goes to exactly one of two lists, by the test in the code, and none is lost or doubled; conditions between two tables stay, in their order |
| `Planner.MakeScans` | src/optimizer/planner.cpp:176-196 | each table gets a scan, conditions within a table all go to the first one, and exactly the conditions between two tables remain, in their order |
| `Planner.FirstJoin` | src/optimizer/planner.cpp:210-226 | the first join is over the condition's two tables and is the first block of the chain |
| `Planner.AddCond` | src/optimizer/planner.cpp:227-267 | one more condition is worked in exactly once, with its tables joined in as needed, and the chain grows by the block of its new tables |
| `Planner.JoinRest` | src/optimizer/planner.cpp:268-282 | every table is in the tree exactly once, and the tables added change no lookup |
| `Planner.MakeOneRel` | src/optimizer/planner.cpp:176-283 | the tree is over exactly the tables of the query and holds each condition exactly once; joins have left columns on the left; scans are right if and only if every comparison of two columns of one table is about the first table; with every name found the tree gives, on every database and without an error, exactly the cross product filtered by the conditions as looked up, and otherwise nothing; it means the WHERE clause if and only if every name is found and the conditions as looked up are equivalent to those written |
| `ColumnNames.TestedAsWritten` | src/common/common.h:357-400 | of a single condition: what is looked up is equivalent to what was written if and only if it is the same, or a column of one table is compared with itself |
| `ColumnNames.ReadRightMeans` | src/optimizer/planner.cpp:176-283 | a query all of whose columns are looked up where they were meant is planned right |
| `ColumnNames.OwnNamesMean` | src/optimizer/planner.cpp:176-283 | so is a query whose join columns have names of their own and whose comparisons within a table are about the first one |
| `ColumnNames.EquiJoinMeans` | src/optimizer/planner.cpp:176-283 | for joins by equalities: the plan means the query if and only if each equality looked up links columns that the equalities written link, and the other way round; whether this is so can be read off the query and the schema |
| `QueryExamples.NameTaken` | src/optimizer/planner.cpp:227-267 | a failing family: a.x = b.y AND b.id = c.z with a column id in a as well; the plan misses a row of the answer |
| `QueryExamples.NameShared` | src/optimizer/planner.cpp:227-267 | a column looked up elsewhere does not always harm: a.id = b.id AND b.id = c.id is planned right |
| `QueryExamples.StrayReadsFirst` | src/optimizer/planner.cpp:88-105 | a failing family: b.x < b.y with columns x and y in the first table a; the plan gives a row that is not in the answer |
| `QueryExamples.StrayNotFound` | src/optimizer/planner.cpp:88-105 | a failing family: b.x < b.y without such columns in a; the plan raises an error and gives none of the rows of the answer |
| `Comparing.CompareMeans` | src/common/common.h:369-385 | exactly one of less, equal and greater holds of two values, the other operators are made from these, and each operator has a negation |
| `Comparing.ScanPicks` | src/common/common.h:357-386 | a scan with one comparison gives exactly the rows whose value is equal to, other than, below, above, not above or not below the given one |
| `Comparing.NegationParts` | src/optimizer/planner.cpp:176-283 | the plans of a query with one condition more and with that condition negated together give exactly what the plan without it gives, and never the same choice of rows, on every database |
| `Comparing.IndexParts` | src/execution/executor_index_scan.h:160-182 | the rows an index scan lets through are parted in the same way by a condition and its negation |
| `PlanRun.RunScan` | src/execution/executor_seq_scan.h:101-112 | a scan gives each row that passes its conditions exactly once |
| `PlanRun.RunJoin` | src/execution/executor_nestedloop_join.h:43-189 | a join of two outputs gives only pairs that pass, each once; all of them if and only if the right child is a scan or no pair that passes has a left row beyond the first 4000 |
| `PlanRun.Execute` | src/execution/executor_nestedloop_join.h:43-189 | running a plan with block joins gives choices of rows the plan stands for, each once, and all of them when every left child of a join over a join gives at most 4000 rows |
| `PlanRun.WholeWhen` | src/execution/executor_nestedloop_join.h:43-189 | joins give everything, whatever the tables hold, when their right children are scans, and for any plan when their left children give few rows |
| `QueryRun.RunQuery` | src/optimizer/planner.cpp:176-283 | planning and running together: every row given passes the conditions as looked up; all that pass are given when the joins are whole; and with equivalent conditions the output is the answer to the query |
| `BufferPool.LruReplacer.Victim` | src/replacer/lru_replacer.cpp:22-41 | the frame at the back goes, and only an empty list has no victim |
| `BufferPool.LruReplacer.Pin` | src/replacer/lru_replacer.cpp:47-59 | the frame leaves the list; the others keep their order |
| `BufferPool.LruReplacer.Unpin` | src/replacer/lru_replacer.cpp:65-76 | a frame not in the list comes to its front |
| `BufferPool.BufferPoolManager.constructor` | src/storage/buffer_pool_manager.h:42-60 | all frames are free and every page reads as zeros |
| `BufferPool.BufferPoolManager.FindVictim` | src/storage/buffer_pool_manager.cpp:19-34 | the first free frame, or without one the frame unpinned longest ago, never a pinned one; none exactly when nothing is free or evictable |
| `BufferPool.BufferPoolManager.Install` | src/storage/buffer_pool_manager.cpp:44-57 | evicting and loading changes no page's visible bytes; a dirty page is written back; the new page has one pin, and pages that somebody holds stay where they are |
| `BufferPool.InstallVisible` | src/storage/buffer_pool_manager.cpp:44-57 | for every page, what the pool shows before and after an eviction is the same |
| `BufferPool.BufferPoolManager.FetchPage` | src/storage/buffer_pool_manager.cpp:67-113 | the frame shows the page's bytes and has exactly one pin more than the page had; every other frame keeps its page, bytes, pins and dirty mark; the frame taken for a page that was not resident is the next free one or the one unpinned longest ago, written back if dirty; it fails exactly when all frames are pinned |
| `BufferPool.BufferPoolManager.Modify` | src/storage/page.h:64-110 | a holder's write changes the visible bytes of that page only |
| `BufferPool.BufferPoolManager.UnpinPage` | src/storage/buffer_pool_manager.cpp:121-156 | one pin less, the dirty mark and the LRU list as promised, nothing else changed; an unpinned or absent page is an error without effect |
| `BufferPool.BufferPoolManager.FlushPage` | src/storage/buffer_pool_manager.cpp:163-184 | the disk holds the page's visible bytes and only the dirty mark of its frame changes; false exactly when the page is not resident |
| `BufferPool.BufferPoolManager.NewPage` | src/storage/buffer_pool_manager.cpp:192-228 | the page number is the next one of the file, its bytes are zero, it has one pin, and no other frame changes but the one taken |
| `BufferPool.BufferPoolManager.DeletePage` | src/storage/buffer_pool_manager.cpp:236-274 | fails exactly when the page is pinned; otherwise it alone leaves the pool, its bytes are on disk and its frame goes to the end of the free list |
| `BufferPool.BufferPoolManager.FlushAllPages` | src/storage/buffer_pool_manager.cpp:280-291 | exactly the resident pages of the file are written, their frames are clean, and nothing else changes |
| `BufferPool.BufferPoolManager.FreePage` | src/storage/buffer_pool_manager.cpp:293-309 | a clean unpinned page, and no other, leaves the pool without a visible change |
| `BufferPool.BufferPoolManager.FreeAllPages` | src/storage/buffer_pool_manager.cpp:311-330 | exactly the pages of the file leave the pool |
| `BufferPool.HolderKept` | src/storage/buffer_pool_manager.cpp:67-156 | after any calls, the pin count of a page is the number of times it was handed out less the number of times it was given back, and a page handed out more often than given back is resident in a frame that is neither free nor in the LRU list |
| `ExternalSort.CmpRecord` | src/execution/execution_sort.h:236-248 | true exactly when the first tuple has the smaller value, or the larger one in a descending column, in the first column in which the two differ |
| `ExternalSort.CmpRawData` | src/execution/execution_sort.h:250-311 | the same with ties let through |
| `ExternalSort.LessTrans` | src/execution/execution_sort.h:236-311 | the order is total up to ties |
| `ExternalSort.BuildRuns` | src/execution/execution_sort.h:114-150 | the input is cut into blocks of 2000 tuples, the last one possibly shorter, and each becomes one sorted run, a permutation of its block |
| `ExternalSort.SortRun` | src/execution/execution_sort.h:125-145 | a sorted permutation of the run, by the comparison of the code |
| `ExternalSort.MergeFiles` | src/execution/execution_sort.h:347-421 | merging through buffers is the plain merge of the two files |
| `ExternalSort.MergedSame` | src/execution/execution_sort.h:347-421 | the merge loses and adds nothing |
| `ExternalSort.MergedSorted` | src/execution/execution_sort.h:347-421 | the merge of sorted files is sorted |
| `ExternalSort.MergeTmpFiles` | src/execution/execution_sort.h:334-422 | merging any number of runs gives one sorted permutation of them all |
| `ExternalSort.SortExecutor.constructor` | src/execution/execution_sort.h:106-158 | the result file is a permutation of the input, for any input size, and of any two tuples in it the first has the smaller value, or the larger one in a descending column, in the first column in which they differ |
| `ExternalSort.SortExecutor.BeginTuple` | src/execution/execution_sort.h:160-185 | at the end at once exactly for an empty result, limit 0, or a pass after the end was reached, as the end mark is never cleared |
| `ExternalSort.SortExecutor.NextTuple` | src/execution/execution_sort.h:201-215 | moves on by one and stops exactly where the limited result ends |
| `ExternalSort.SortExecutor.Run` | src/execution/execution_sort.h:160-220 | hands out exactly the limited result, in order; a second pass gives nothing |
| `ExternalSort.LimitKept` | src/execution/execution_sort.h:201-215 | a positive limit is kept if and only if it is at most 2000 or at least the size of the result |
| `ExternalSort.LimitMissed` | src/execution/execution_sort.h:201-215 | a failing input: limit 2001 on 2002 tuples gives all of them |
| `BlockJoin.Fill` | src/execution/executor_nestedloop_join.h:218-283 | reads the next block, and never an empty one before the end of the child |
| `BlockJoin.NestedLoopJoin.BeginTuple` | src/execution/executor_nestedloop_join.h:66-139 | no pair to be given is behind the start; started again after its end, the join stays at its end |
| `BlockJoin.NestedLoopJoin.NextTuple` | src/execution/executor_nestedloop_join.h:141-189 | exactly the current pair is passed |
| `BlockJoin.NestedLoopJoin.Search` | src/execution/executor_nestedloop_join.h:141-189 | the search ends and skips no pair to be given, whatever the number of blocks |
| `BlockJoin.NestedLoopJoin.Run` | src/execution/executor_nestedloop_join.h:66-189 | every pair that meets the conditions comes out exactly once if and only if the inner child restarts or all such pairs are in the first 4000 outer tuples; otherwise exactly those of that block come out; a second run gives nothing |
| `BlockJoin.LaterBlockLost` | src/execution/executor_nestedloop_join.h:128-136 | a failing run: 4001 outer tuples and an inner child that does not restart; the pair of the last one is lost |
| `UpdateRows.UpdateExecutor.Next` | src/execution/executor_update.h:60-215 | with all locks granted it succeeds if and only if the rewritten table has no two rows with one key, and then every index is the key image of that table; otherwise rows and indexes are as before; a lock refused first at row `at` leaves exactly the old keys of the rows before `at` missing, so the indexes are as before if and only if the first lock is refused or there are no indexes |
| `UpdateRows.UpdateExecutor.DeleteOld` | src/execution/executor_update.h:70-90 | the old keys of the rows before the first refused lock are gone from every index |
| `UpdateRows.UpdateExecutor.InsertNew` | src/execution/executor_update.h:92-146 | the new keys are added up to the first one that is taken, row by row and index by index |
| `UpdateRows.UpdateExecutor.RollBack` | src/execution/executor_update.h:146-192 | every index is what it was before the statement |
| `UpdateRows.UpdateExecutor.TakeOutNew` | src/execution/executor_update.h:162-176 | exactly the new keys added so far are taken out |
| `UpdateRows.UpdateExecutor.PutBackOld` | src/execution/executor_update.h:178-190 | the old keys go back and none of them is found taken |
| `UpdateRows.UpdateExecutor.WriteRows` | src/execution/executor_update.h:198-212 | every selected row holds its new value and no other changed |
| `UpdateRows.Restored` | src/execution/executor_update.h:178-190 | taking keys out and filing them again gives the same index |
| `UpdateRows.PlusMinus` | src/execution/executor_update.h:150-176 | filing fresh keys and taking them out gives the same index |
| `UpdateRows.AgreesAfter` | src/execution/executor_update.h:60-215 | an index without the old and with the new keys agrees with the rewritten table |
| `UpdateRows.LostUnlessNone` | src/execution/executor_update.h:70-73 | entries taken out and not put back are lost, unless there were none |
| `UpdateRows.TakenClashes` | src/execution/executor_update.h:132-146 | a new key that is found taken belongs to two rows of the rewritten table |
| `UpdateRows.SecondLockRefused` | src/execution/executor_update.h:70-73 | a failing input: two rows, one index, the second lock refused; the entry of the first row is lost |
| `UpdateRows.UpdateExecutor.TakeOutRow` | src/execution/executor_update.h:76-87 | every index loses the key of that row |
| `AbortTxn.TransactionManager.Abort` | src/transaction/transaction_manager.cpp:82-138 | undoing a write set of any length from the back ends if and only if no table on the way back has two rows with one key and every row put back is offered a page not before its own; then the rows are those the transaction started from, every index agrees with them, the free space is the specified one, and a right free list stays right unless a row put back fills a page behind its head |
| `AbortTxn.TransactionManager.RollbackOne` | src/transaction/transaction_manager.cpp:196-275 | undoing one write ends if and only if the table before it has no two rows with one key and, for a delete or update, the file offers a page not before that of the row; then file and indexes are as before the write |
| `AbortTxn.TransactionManager.DeleteEntries` | src/transaction/transaction_manager.cpp:196-212 | every index loses the row's key and agrees with the table without the row |
| `AbortTxn.TransactionManager.InsertEntries` | src/transaction/transaction_manager.cpp:220-236 | works exactly when no index holds the key for another row |
| `AbortTxn.TransactionManager.IndexRestored` | src/transaction/transaction_manager.cpp:82-138 | each index is what it was when the transaction began |
| `AbortTxn.ShiftCannotGoBack` | src/transaction/transaction_manager.cpp:245-275 | a failing input: an UPDATE that moves keys 1 and 2 up by one is accepted and cannot be taken back |
| `AbortTxn.FifthPageSpins` | src/transaction/transaction_manager.cpp:245-275 | a failing input: an UPDATE of a row of page 5 while page 3 heads the free list; its rollback never ends |
| `Agreement.AgreesOnce` | src/transaction/transaction_manager.cpp:82-138 | an agreeing index is determined by its table |
| `Agreement.KeyFree` | src/transaction/transaction_manager.cpp:220-236 | an index has room for a row's key if and only if the table with the row has no two rows with one key |
| `Rollback.BackFollows` | src/transaction/transaction_manager.cpp:82-138 | for a transaction that was alone on its file, the free space on the way back follows the one on the way there |
| `Rollback.RollbackEnds` | src/transaction/transaction_manager.cpp:82-138 | such a transaction finds its pages on the way back if and only if each row it deleted or updated was on a page not behind the one its file offered right after; and it leaves the free list right |
| `Rollback.FullPagesGoBack` | src/transaction/transaction_manager.cpp:220-236 | a delete from a full page can always be taken back |
| `TxnRun.Make` | src/record/rm_file_handle.cpp:43-201 | an executor's insert, delete or update, made through the file, leaves in the write set what a rollback needs, and the file offers what the rollback results ask for |
| `TxnRun.Perform` | src/record/rm_file_handle.cpp:43-201 | any sequence of such steps: the write set describes rows and free space before and after |
| `TxnRun.RunAndAbort` | src/transaction/transaction_manager.cpp:82-138 | writing any rows to a file without indexes and aborting ends if and only if each row deleted or updated was on a page not behind the one the file offered right after; then the rows are what they were and the free list is right |
| `Bitmap.SetAt` | src/record/bitmap.h:24-25 | setting a bit changes that position and no other |
| `Bitmap.ResetAt` | src/record/bitmap.h:27-28 | resetting a bit changes that position and no other |
| `Bitmap.NextBit` | src/record/bitmap.h:41-51 | the first position after the given one whose bit is as asked, or the bound |
| `Bitmap.CountFull` | src/record/rm_file_handle.cpp:76-82 | a page has as many records as slots exactly when every bit is set |
| `Bitmap.HighestFirst` | src/record/bitmap.h:58-60 | the first slot of a byte is its highest bit |
| `Layout.RecordsFit` | src/record/rm_manager.h:47-52 | for every record size from 1 to 2048 a page has at least one slot, and header, bitmap and slots fit in it; one record more would go beyond what the formula sets aside |
| `HeapFile.RmFileHandle.constructor` | src/record/rm_manager.h:35-60 | a new file is empty and has an empty free list |
| `HeapFile.RmFileHandle.FetchFreePage` | src/record/rm_file_handle.cpp:225-252 | the head of the free list, or a new page that becomes it; the rows do not change and the free space is the specified one |
| `HeapFile.RmFileHandle.DeleteRecord` | src/record/rm_file_handle.cpp:122-150 | the rows lose exactly that record; counts stay right even when the list is lost, and a right list stays right, a page that was full heading it |
| `HeapFile.RmFileHandle.UpdateRecord` | src/record/rm_file_handle.cpp:183-201 | the rows change at that rid only, and the free space does not |
| `HeapFile.RmFileHandle.GetRecord` | src/record/rm_file_handle.cpp:23-35 | the record of a used slot |
| `HeapFile.RmFileHandle.InsertRecordAt` | src/record/rm_file_handle.cpp:96-116 | ends if and only if some request of its loop returns a page not before the wanted one, which is when the first one does; then the rows gain or change that record, and a right free list survives if and only if the slot was used, the page heads the list, or it keeps a free slot; otherwise no list describes the pages with room |
| `HeapFile.RmScan.constructor` | src/record/rm_scan.cpp:19-37 | stands at the first used slot, or at the end mark if there is none |
| `HeapFile.RmScan.Next` | src/record/rm_scan.cpp:42-62 | moves to the first used slot behind the current one in page and slot order, or to the end mark |
| `HeapFile.ScanAll` | src/record/rm_scan.cpp:19-86 | a scan ends and lists exactly the used slots, in page and slot order |
| `HeapFile.RmFileHandle.InsertRecord` | src/record/rm_file_handle.cpp:43-89 | fails, with an invalid rid, if and only if the page offered is full, which a right free list excludes; otherwise the rows gain the record at a new rid, the first free slot of the page offered; record counts equal set bits, a right list stays a chain without repetition over exactly the pages with room, and the free space changes as a placed insert at that rid would change it |
| `FreeSpace.SearchEnds` | src/record/rm_file_handle.cpp:98-101 | the search for a page not before the wanted one ends if and only if the first answer is such a page |
| `FreeSpace.ChainUnique` | src/record/rm_file_handle.cpp:225-252 | the links determine the free list |
| `FreeSpace.ListCut` | src/record/rm_file_handle.cpp:109-113 | going on with the link of a page that is not the head loses the head |
| `FreeSpace.PutList` | src/record/rm_file_handle.cpp:96-116 | after a placed insert the list is right if and only if the slot was used, the page heads the list, or it keeps a free slot |
| `FreeSpace.TakeList` | src/record/rm_file_handle.cpp:122-150 | after a delete the list is right, with a page that was full in front |
| `FreeSpace.SearchNever` | src/record/rm_file_handle.cpp:98-101 | a failing family: in a full file with one record to a page, once page h is emptied, a search for any later page never ends; pages 3 and 5 of five are one input |
| `FreeSpace.HeadLost` | src/record/rm_file_handle.cpp:109-113 | a failing input: pages 2 and 1 are free in this order, and filling page 1 loses page 2 |
| `FreeSpace.OfferedFull` | src/record/rm_file_handle.cpp:225-252 | whether the page offered is full is known before the offer |
| `FreeSpace.FullOffered` | src/record/rm_file_handle.cpp:225-252 | a failing input: two placed inserts into a two-page file, both allowed, after which the page offered is full |
| `Following.SameOffer` | src/record/rm_file_handle.cpp:225-252 | a free space that follows another offers the same page |
| `Following.NewFollows` | src/record/rm_file_handle.cpp:43-116 | an insert and its replay keep one following the other |
| `Following.TakeFollows` | src/record/rm_file_handle.cpp:122-175 | so do a delete and its replay |
| `Following.UsedFollows` | src/record/rm_file_handle.cpp:96-106 | so does the replay of an update, which may make a page early |
| `Following.NewGoesBack` | src/record/rm_file_handle.cpp:156-175 | deleting what was inserted last leads back to a free space that follows the one before |
| `Following.OldGoesBack` | src/record/rm_file_handle.cpp:96-116 | so does putting back what was deleted last |
| `IxBuild.PassedNext` | src/record/rm_scan.cpp:42-62 | moving on adds exactly the row the scan stood at to the rows it has passed |
| `IxBuild.InitTree` | src/index/ix_manager.h:131-146 | building an index over any heap file ends, and works if and only if no two rows have one key; then the tree is well formed and holds exactly the key image of the table |
| `IxBuild.FileRow` | src/index/ix_manager.h:134-144 | one more row: the index agrees with the rows so far if and only if no two of them have one key |

## Left out

- Latches, threads and condition variables: every public call is one atomic step. The lock manager
  is no-wait, so a refused lock is an outcome, not a suspension.
- Byte layout inside pages: keys and rids of an index page and slots of a heap page are sequences
  reassigned by the object that owns the pages; shifting loops over bytes are not modelled. Buffer
  pool traffic of the index and of heap files is not modelled either.
- Pages of the index that were freed: the code never reuses their numbers, and neither does the model.
- `leaf_lookup`: not called anywhere, and it reads key -1 of an empty leaf.
- Parser, name analysis, server, printing, metadata files and system calls.
- IxKeys.IxCompare: a FLOAT is represented by its place in the order of all floats; BIGINT and
  DATETIME raise an error in `ix_compare` and are left out.
- IxKeys.CodeOrder: the same columns as `IxKeys.IxCompare`.
- IxScan.LowerBoundIn: full keys of the index; `IxPrefix` has searches by leading columns.
- IxScan.UpperBoundIn: full keys, as above.
- IxTree.IxIndexHandle.constructor: takes an order of at least 3 as given; how `create_index` computes
  it, and that long keys give less, is in `IxLayout`.
- IndexScan.IndexScanExecutor.constructor: an index of one column, with conditions on it; on several
  columns the bounds are those of `IxPrefix`. What follows once the key buffer is overrun is not modelled.
- Serial.Serializable: an insert is one access made under the record lock; the insert executor writes
  the row first and locks it immediately afterwards, within one call.
- Winners.CrashSafe: runs start with empty tables, and no row is changed again before the end of its
  last writer is logged; without that `Overtaking.OvertakenRow` says what recovery gives.
- Winners.Restart: runs as in `Winners.CrashSafe`.
- Winners.AbortedLeaveNothing: runs as in `Winners.CrashSafe`.
- Recovery.RecoveryManager.Recover: rebuilding indexes afterwards and rows loaded from files outside
  the log are left out.
- Restarts.RecoverTwice: nothing else is logged between the two recoveries.
- Replay.ReplayFollows: logs without compensations; when redo of a log with them and undo end is said by
  `Recovery.RecoveryManager.Recover` in terms of the log, not of the run that wrote it.
- Replay.RedoEnds: the same logs as `Replay.ReplayFollows`.
- FileRooms.RunReplays: runs without rollbacks, for the same reason.
- LogWriter.LogManager.Append: LSNs stay below 2^31.
- LogCodec.RoundTrip: update records whose two values have the same size, as the code assumes.
- BufferPool.BufferPoolManager.UnpinPage: the last holder of a changed page says that it is dirty, as
  every caller in the repository does.
- BufferPool.BufferPoolManager.FetchPage: the page number has been allocated; reading past the end of a
  file raises an error in the disk manager, which is not modelled.
- BufferPool.BufferPoolManager.FreePage: the page is clean and unpinned, which the code asserts.
- Planner.MakeOneRel: distinct tables, conditions that name a table and a column it has, which name
  analysis sees to, and integer columns. Choosing an index for a scan, projection and aggregation only
  add easy members.
- PlanRun.Execute: a column that is not found makes the row fail, where the code raises an error;
  `Plans.Raises` says when it does, and `Plans.PlanRuns` when it does not.
- QueryRun.RunQuery: the same as `PlanRun.Execute`.
- ExternalSort.CmpRecord: numeric and datetime keys, on which both comparators agree; no strings.
- ExternalSort.CmpRawData: the same keys as `ExternalSort.CmpRecord`.
- ExternalSort.SortExecutor.constructor: the library sort is an insertion sort with the same contract;
  temporary files are sequences.
- BlockJoin.NestedLoopJoin.BeginTuple: called on a new join or on one that has reached its end; its
  children are sequences, and a constant says whether the inner one restarts.
- UpdateRows.UpdateExecutor.Next: values fit their columns; a type error in a SET clause, raised after
  old index entries are gone, is not modelled. Index contents are maps here; `IxTree` shows that the
  tree behaves as one.
- AbortTxn.TransactionManager.Abort: the write set of one table; index contents are maps, as above; the
  compensation records it logs are in `LogWriter` and `CrashRun`.
- HeapFile.RmFileHandle.constructor: a record size outside 1 to 2048 raises an error before there is a file.
- TxnRun.RunAndAbort: a file without indexes; with indexes `AbortTxn.TransactionManager.Abort` has the condition.
- TwoPhase.TwoPhased: says how a request would be answered; runs contain none after a release.
- IxHeight.Height: an order of at least 3, as for the tree itself.
- HeapFile.RmFileHandle.InsertRecord: what a caller does with an invalid rid is not modelled.
- HeapFile.RmScan.Next: the scan is not at its end. Sequential scans that fetch rows page by page build
  on it and are not modelled.
