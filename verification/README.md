# Query operators and table lock manager of a teaching database

This project models two parts of a small relational database.

- The query operators of homework 3:
  - the external merge sort (`SortOperator`);
  - the page nested-loop join (`PNLJOperator`);
  - the block nested-loop join (`BNLJOperator`);
  - the sort-merge join (`SortMergeOperator`).
- The table lock manager of homework 5 (`LockManager`), with its Wait-Die and Wound-Wait deadlock avoidance.

Data is modelled as pure values:
- a record is a sequence of integer column values;
- a page is a sequence of records;
- a table is its header page followed by its data pages;
- a run of the sort is a sequence of records.

Each join iterator is an explicit state record, with `HasNext` and `Next` functions over it. `Drain` is what a client collects by calling both until `hasNext` says false. The state keeps the source's fields, except that a page or record iterator becomes a `Cursor`: a sequence, a position and one mark slot.

Each correctness proof follows the same pattern:
- a function `Rest` says what the iterator still owes;
- every step is shown to keep `Rest` unchanged;
- at the start, `Rest` is shown to equal a reference comprehension. For the nested-loop joins this is `BlocksJoin`: block by block, then right page by right page, then record by record. Only its multiset equals `RecordJoin` (`JoinSpec.BlocksJoinIsRecordJoin`). For the sort-merge join it is `RecordJoin` itself: each left record in order, against its matches among the right records, in order.

The lock manager is a value as well: a policy, plus a map from table name to `TableLock(type, owners, queue)`. A call returns the new manager and the set of events it caused: `Slept`, `Aborted`, and `Resumed`, which stands for setStatus(Running).

Modules:
- `Common`: data model and errors.
- `Cursor`: iterators with mark and reset.
- `SortRuns`: `sortRun` and the k-way merge state machine.
- `Merge`: properties of the merge.
- `ExternalSort`: `mergePass` and `sort`.
- `JoinSpec`: reference joins and permutation lemmas.
- `NestedLoop`: state shared by the two nested-loop joins.
- `PageNestedLoopJoin`.
- `BlockNestedLoopJoin`.
- `SortMergeJoin`.
- `Locking`: the lock manager.

Where the code and its surrounding documentation disagree, the model follows the code. Specifically:
- The sort throws on a final group shorter than `numBuffers - 1` runs, and on a table without data pages (see Findings).
- The block nested-loop join stops at the first block without records that hasNext reads as a refill, even when later left pages hold records. An empty page inside a block that has records does no harm. The constructor's first block is different: without records it is skipped when the right table has a single data page, and makes the first hasNext throw when it has a second one.
- The page nested-loop join throws on an empty left data page after the first. It also throws on an empty first page when the right table has a second data page.
- `release` grants the queue to waiting transactions even when one owner remains. That owner loses the lock unless it has a queued request of its own (`Locking.ReleaseDropsLastOwner`).
- The `None` avoidance type behaves as Wound-Wait.

## Model

| member | source | states |
|---|---|---|
| Cursor.Next | hw3/src/main/java/edu/berkeley/cs186/database/query/SortMergeOperator.java:88-90 | next returns the element under the cursor and moves past it, and throws NoSuchElementException exactly when the cursor is exhausted |
| Cursor.Mark | hw3/src/main/java/edu/berkeley/cs186/database/query/SortMergeOperator.java:92-95 | mark records the element returned last and leaves the position alone |
| Cursor.Reset | hw3/src/main/java/edu/berkeley/cs186/database/query/SortMergeOperator.java:110-112 | reset moves back to the marked element and keeps the mark |
| Cursor.Replay | hw3/src/main/java/edu/berkeley/cs186/database/query/SortMergeOperator.java:110-112 | after mark, k reads and reset, the next k+1 reads return the marked element followed by the same k elements |
| SortRuns.SortRun | hw3/src/main/java/edu/berkeley/cs186/database/query/SortOperator.java:74-86 | sortRun returns a permutation of the run's records that is non-decreasing on the sort column |
| Merge.MergeSortedRuns | hw3/src/main/java/edu/berkeley/cs186/database/query/SortOperator.java:98-137 | the merged run holds exactly the records of all input runs with their multiplicities, and is sorted whenever every input run is |
| Merge.StartShape | hw3/src/main/java/edu/berkeley/cs186/database/query/SortOperator.java:106-114 | priming with `li.add(i, ...)` and `i++` only on non-empty runs leaves the heads of the non-empty runs in the queue, tagged 0,1,2,..., with their iterators at those indices and the iterators of empty runs after them |
| SortRuns.MinIndex | hw3/src/main/java/edu/berkeley/cs186/database/query/SortOperator.java:126 | the entry `pq.remove()` takes has a key no larger than any other entry in the queue |
| SortRuns.Pop | hw3/src/main/java/edu/berkeley/cs186/database/query/SortOperator.java:126-133 | one iteration appends the removed record to the output and leaves exactly one fewer record pending in the queue and the iterators |
| SortRuns.Step | hw3/src/main/java/edu/berkeley/cs186/database/query/SortOperator.java:124-134 | one iteration appends a record with the smallest key in the queue, and the pending count drops by one |
| Merge.QueueBound | hw3/src/main/java/edu/berkeley/cs186/database/query/SortOperator.java:124-133 | in every state of the merge loop the queue holds at most one entry per input run |
| Merge.StepOrdered | hw3/src/main/java/edu/berkeley/cs186/database/query/SortOperator.java:124-134 | each removal from the queue appends a record no smaller than the output so far, and no larger than anything still pending |
| Merge.MergeSingle | hw3/src/main/java/edu/berkeley/cs186/database/query/SortOperator.java:98-137 | merging a single run returns that run unchanged |
| ExternalSort.MergePass | hw3/src/main/java/edu/berkeley/cs186/database/query/SortOperator.java:144-153 | mergePass throws IndexOutOfBoundsException or returns between one and as many runs as it was given, strictly fewer when the fan-in is at least two |
| ExternalSort.MergePassCount | hw3/src/main/java/edu/berkeley/cs186/database/query/SortOperator.java:148-149 | mergePass throws exactly when the number of runs is not a multiple of numBuffers-1, and otherwise returns their quotient of runs |
| ExternalSort.MergePassGroups | hw3/src/main/java/edu/berkeley/cs186/database/query/SortOperator.java:148-150 | output run g is the merge of input runs g*step up to (g+1)*step, in order |
| ExternalSort.MergePassConserves | hw3/src/main/java/edu/berkeley/cs186/database/query/SortOperator.java:144-153 | a pass keeps the multiset of all records and keeps every run sorted |
| ExternalSort.FanInOneIsIdentity | hw3/src/main/java/edu/berkeley/cs186/database/query/SortOperator.java:146-150 | with two buffers each group is a single run, and a pass returns its input unchanged |
| ExternalSort.GenerateRuns | hw3/src/main/java/edu/berkeley/cs186/database/query/SortOperator.java:161-176 | the first phase of sort yields sorted runs holding exactly the data records, and none exactly when there are no data pages |
| ExternalSort.GenerateRunsWindows | hw3/src/main/java/edu/berkeley/cs186/database/query/SortOperator.java:166-176 | run g is the sorted contents of data pages g*(numBuffers-1) up to the next window, skipping the header page |
| ExternalSort.GenerateRunsCount | hw3/src/main/java/edu/berkeley/cs186/database/query/SortOperator.java:166-176 | the first phase yields one run per window of numBuffers-1 data pages, the last window possibly short |
| ExternalSort.MergeLoopSpec | hw3/src/main/java/edu/berkeley/cs186/database/query/SortOperator.java:178-182 | the merge loop runs forever with fan-in one and more than one run, throws on no runs, and otherwise returns exactly when the run count is a power of the fan-in, the returned run being a sorted permutation |
| ExternalSort.Sort | hw3/src/main/java/edu/berkeley/cs186/database/query/SortOperator.java:161-183 | a sort that returns gives a sorted permutation of the table's data records, and one that throws raises IndexOutOfBoundsException |
| ExternalSort.SortReturnsIff | hw3/src/main/java/edu/berkeley/cs186/database/query/SortOperator.java:178-182 | with at least three buffers and one data page, sort always terminates, and returns exactly when the initial run count is a power of numBuffers-1 |
| ExternalSort.SortNoData | hw3/src/main/java/edu/berkeley/cs186/database/query/SortOperator.java:182 | a table without data pages makes sort throw IndexOutOfBoundsException |
| ExternalSort.SortTwoBuffers | hw3/src/main/java/edu/berkeley/cs186/database/query/SortOperator.java:178-180 | with two buffers and at least two data pages, sort never finishes |
| ExternalSort.MergePassFixed | hw3/src/main/java/edu/berkeley/cs186/database/query/SortOperator.java:148-149 | the corrected pass, with a short final group, returns one run per window and strictly fewer runs than it was given |
| ExternalSort.SortFixed | hw3/src/main/java/edu/berkeley/cs186/database/query/SortOperator.java:178-182 | the corrected sort always returns a sorted permutation of the data records, including for a table without data |
| ExternalSort.PartialGroupThrows | hw3/src/main/java/edu/berkeley/cs186/database/query/SortOperator.java:148-149 | three runs with three buffers make mergePass throw, while the corrected pass returns two runs |
| ExternalSort.EmptyTableThrows | hw3/src/main/java/edu/berkeley/cs186/database/query/SortOperator.java:182 | a table without data makes sort throw, while the corrected sort returns the empty run |
| JoinSpec.RecordJoinMember | hw3/src/main/java/edu/berkeley/cs186/database/query/PNLJOperator.java:128-139 | a record is in the reference join exactly when it concatenates a left record and a right record with equal join values |
| JoinSpec.BlocksJoinIsRecordJoin | hw3/src/main/java/edu/berkeley/cs186/database/query/BNLJOperator.java:78-142 | the block → right page → left record → right record order emits the same records as the record-by-record join, up to order |
| JoinSpec.JoinOfPermutations | hw3/src/main/java/edu/berkeley/cs186/database/query/SortMergeOperator.java:43-55 | joining permutations of the two tables' records gives the same multiset as joining the tables |
| NestedLoop.PageIter | hw3/src/main/java/edu/berkeley/cs186/database/query/PNLJOperator.java:50-55 | a table's page iterator returns the header page first and then the data pages |
| NestedLoop.Scan | hw3/src/main/java/edu/berkeley/cs186/database/query/PNLJOperator.java:128-139 | the inner scan returns the first match of the left record among the right records still unread, and the rest of its matches are what follows it |
| NestedLoop.Yield | hw3/src/main/java/edu/berkeley/cs186/database/query/PNLJOperator.java:154-162 | next returns the buffered record and clears the buffer, or throws NoSuchElementException when nothing is buffered |
| NestedLoop.YieldTakesHead | hw3/src/main/java/edu/berkeley/cs186/database/query/PNLJOperator.java:154-162 | the record next returns is the head of what the iterator still owes, and the rest is owed afterwards |
| NestedLoop.ScanKeepsRest | hw3/src/main/java/edu/berkeley/cs186/database/query/PNLJOperator.java:128-140 | scanning the right page for the held left record changes nothing about what the iterator owes |
| NestedLoop.TakeFromBlockKeepsRest | hw3/src/main/java/edu/berkeley/cs186/database/query/PNLJOperator.java:88-94 | taking the next left record and restarting the right page's records keeps what the iterator owes |
| NestedLoop.NextRightPageKeepsRest | hw3/src/main/java/edu/berkeley/cs186/database/query/PNLJOperator.java:116-125 | moving to the next right page restarts the left block and keeps what the iterator owes |
| NestedLoop.LoadBlockKeepsRest | hw3/src/main/java/edu/berkeley/cs186/database/query/BNLJOperator.java:101-125 | loading the next left pages restarts the right scan past the header, and keeps what the iterator owes |
| NestedLoop.DoneMeansEmpty | hw3/src/main/java/edu/berkeley/cs186/database/query/PNLJOperator.java:103-112 | when all left pages, the block's records and the right pages are exhausted, nothing is owed |
| PageNestedLoopJoin.Init | hw3/src/main/java/edu/berkeley/cs186/database/query/PNLJOperator.java:48-62 | the constructor skips both header pages, and throws NoSuchElementException exactly when either table has no data page |
| PageNestedLoopJoin.Advance | hw3/src/main/java/edu/berkeley/cs186/database/query/PNLJOperator.java:87-127 | finding the next left record keeps what is owed and moves forward; returning false means nothing is owed; throwing means an empty left page lies ahead |
| PageNestedLoopJoin.HasNext | hw3/src/main/java/edu/berkeley/cs186/database/query/PNLJOperator.java:80-83 | with a buffered record hasNext returns true and changes nothing; otherwise it returns true exactly when it buffered a record |
| PageNestedLoopJoin.Loop | hw3/src/main/java/edu/berkeley/cs186/database/query/PNLJOperator.java:84-141 | the `while (true)` loop ends with a buffered record exactly when it returns true, and its only exception is NoSuchElementException |
| PageNestedLoopJoin.Step | hw3/src/main/java/edu/berkeley/cs186/database/query/PNLJOperator.java:80-162 | one hasNext/next round hands out the buffered record and leaves nothing buffered, and its only exception is NoSuchElementException |
| PageNestedLoopJoin.Drain | hw3/src/main/java/edu/berkeley/cs186/database/query/PNLJOperator.java:80-162 | iterating until hasNext is false throws nothing but NoSuchElementException |
| PageNestedLoopJoin.Output | hw3/src/main/java/edu/berkeley/cs186/database/query/PNLJOperator.java:48-162 | the operator throws NoSuchElementException when either table has no data page, and never throws anything else |
| PageNestedLoopJoin.EmptyFirstPageSkipped | hw3/src/main/java/edu/berkeley/cs186/database/query/PNLJOperator.java:99-115 | an empty first left page against a single right data page is passed over: left pages [] and [1] against [1] give the one pair |
| PageNestedLoopJoin.LoopKeepsRest | hw3/src/main/java/edu/berkeley/cs186/database/query/PNLJOperator.java:84-141 | the search loop buffers the head of what is owed, or returns false only when nothing is owed; it throws only on an empty page ahead, or on an empty current page while right pages remain |
| PageNestedLoopJoin.LoopProgress | hw3/src/main/java/edu/berkeley/cs186/database/query/PNLJOperator.java:84-141 | every hasNext that finds a record has advanced one of the iterators, so iteration terminates |
| PageNestedLoopJoin.DrainIsRest | hw3/src/main/java/edu/berkeley/cs186/database/query/PNLJOperator.java:80-162 | from a state with no empty left page ahead, whose current page has records unless no right page is left, iterating to the end yields exactly what is owed, in order |
| PageNestedLoopJoin.InitRest | hw3/src/main/java/edu/berkeley/cs186/database/query/PNLJOperator.java:48-62 | right after construction the iterator owes the left page → right page → left record → right record join |
| PageNestedLoopJoin.OutputIsComprehension | hw3/src/main/java/edu/berkeley/cs186/database/query/PNLJOperator.java:64-79 | when no left page after the first is empty, and the first is empty only against a single right data page, the operator emits exactly the four nested loops of its comment, in order |
| PageNestedLoopJoin.OutputIsJoin | hw3/src/main/java/edu/berkeley/cs186/database/query/PNLJOperator.java:128-139 | under the same condition, the operator emits the join with its multiplicities, and a record exactly when it concatenates left and right records with equal join values |
| PageNestedLoopJoin.EmptyFirstPageThrows | hw3/src/main/java/edu/berkeley/cs186/database/query/PNLJOperator.java:116-120 | an empty first left page with two right data pages makes the first hasNext throw |
| BlockNestedLoopJoin.ReadBlock | hw3/src/main/java/edu/berkeley/cs186/database/query/BNLJOperator.java:64-72 | a block is the next up to numBuffers left pages in order, with missing trailing pages dropped |
| BlockNestedLoopJoin.Init | hw3/src/main/java/edu/berkeley/cs186/database/query/BNLJOperator.java:53-76 | the constructor reads the first block and throws exactly when the right table has no data page |
| BlockNestedLoopJoin.Advance | hw3/src/main/java/edu/berkeley/cs186/database/query/BNLJOperator.java:85-128 | finding the next left record keeps what is owed and reads at most the next block; returning false means nothing is owed, or a block without records was read with blocks after it still owing records; throwing happens only on a block without records while right pages remain |
| BlockNestedLoopJoin.HasNext | hw3/src/main/java/edu/berkeley/cs186/database/query/BNLJOperator.java:78-81 | with a buffered record hasNext returns true and changes nothing; otherwise it returns true exactly when it buffered a record |
| BlockNestedLoopJoin.Loop | hw3/src/main/java/edu/berkeley/cs186/database/query/BNLJOperator.java:84-143 | the `while (true)` loop ends with a buffered record exactly when it returns true, and its only exception is NoSuchElementException |
| BlockNestedLoopJoin.Step | hw3/src/main/java/edu/berkeley/cs186/database/query/BNLJOperator.java:78-164 | one hasNext/next round hands out the buffered record and leaves nothing buffered, and its only exception is NoSuchElementException |
| BlockNestedLoopJoin.Drain | hw3/src/main/java/edu/berkeley/cs186/database/query/BNLJOperator.java:78-164 | iterating until hasNext is false throws nothing but NoSuchElementException |
| BlockNestedLoopJoin.Output | hw3/src/main/java/edu/berkeley/cs186/database/query/BNLJOperator.java:53-164 | the operator throws NoSuchElementException when the right table has no data page, and never throws anything else |
| BlockNestedLoopJoin.LossAfterLoad | hw3/src/main/java/edu/berkeley/cs186/database/query/BNLJOperator.java:101-111 | a refill reads exactly the next block, so the blocks ahead afterwards lose records only if the blocks ahead before did |
| BlockNestedLoopJoin.LoopBlocksAhead | hw3/src/main/java/edu/berkeley/cs186/database/query/BNLJOperator.java:101-111 | a loop that finds a record has read at most whole blocks, so the blocks ahead lose records only if they already did before |
| BlockNestedLoopJoin.NoEmptyPageNoEmptyBlock | hw3/src/main/java/edu/berkeley/cs186/database/query/BNLJOperator.java:64-72 | left tables without empty pages have no block without records, for any number of buffers |
| BlockNestedLoopJoin.EmptyPageInsideBlock | hw3/src/main/java/edu/berkeley/cs186/database/query/BNLJOperator.java:64-72 | left pages [1] and [] read as one block of two buffers join completely against the right page [1] |
| BlockNestedLoopJoin.LoopKeepsRest | hw3/src/main/java/edu/berkeley/cs186/database/query/BNLJOperator.java:84-143 | the search loop buffers the head of what is owed, or returns false only when nothing is owed or a block without records lies ahead with blocks after it still owing records |
| BlockNestedLoopJoin.LoopBlock | hw3/src/main/java/edu/berkeley/cs186/database/query/BNLJOperator.java:111-121 | the search loop throws only when the current block has no records and right pages remain (`NestedLoop.Stuck`) |
| BlockNestedLoopJoin.LoopUnstuck | hw3/src/main/java/edu/berkeley/cs186/database/query/BNLJOperator.java:97-123 | a loop that finds a record keeps a block with records, and leaves a state that is not stuck when it started from one |
| BlockNestedLoopJoin.EmptyBlockEnds | hw3/src/main/java/edu/berkeley/cs186/database/query/BNLJOperator.java:111-114 | a refill that reads a block without records ends the join, which loses records only when the blocks after it still owe joined records |
| BlockNestedLoopJoin.LoopProgress | hw3/src/main/java/edu/berkeley/cs186/database/query/BNLJOperator.java:84-143 | every hasNext that finds a record has advanced one of the iterators, so iteration terminates |
| BlockNestedLoopJoin.DrainIsRest | hw3/src/main/java/edu/berkeley/cs186/database/query/BNLJOperator.java:78-164 | from a state that is not stuck (its block has records, or no right page is left) and with no block ahead that lacks records and is followed by blocks still owing records (`LosesRecords`), iterating to the end yields exactly what is owed, in order |
| BlockNestedLoopJoin.InitRest | hw3/src/main/java/edu/berkeley/cs186/database/query/BNLJOperator.java:53-76 | right after construction the iterator owes the block → right page → left record → right record join |
| BlockNestedLoopJoin.OutputIsComprehension | hw3/src/main/java/edu/berkeley/cs186/database/query/BNLJOperator.java:78-142 | when no block of numBuffers left pages after the first lacks records while blocks after it still owe joined records, and the first block has records unless the right table has a single data page, the operator emits the block → right page → left record → right record join, in that order, restarting the right pages once per block; empty pages inside such blocks are harmless |
| BlockNestedLoopJoin.NoEmptyBlockHarmless | hw3/src/main/java/edu/berkeley/cs186/database/query/BNLJOperator.java:64-72 | left pages without a block lacking records are among the inputs the operator joins completely |
| BlockNestedLoopJoin.NoEmptyBlockNoLoss | hw3/src/main/java/edu/berkeley/cs186/database/query/BNLJOperator.java:101-114 | blocks that all have records never lose records at a refill |
| BlockNestedLoopJoin.TrailingEmptyBlockJoinsFully | hw3/src/main/java/edu/berkeley/cs186/database/query/BNLJOperator.java:101-114 | with one buffer, left pages [1] and [] against the right page [1] give the one pair: the trailing empty block ends the join with nothing lost |
| BlockNestedLoopJoin.UnmatchedAfterEmptyBlock | hw3/src/main/java/edu/berkeley/cs186/database/query/BNLJOperator.java:101-114 | with one buffer, left pages [1], [] and [2] against the right page [1] give the one pair: the block cut off has no matches, so nothing is lost |
| BlockNestedLoopJoin.EmptyFirstBlockSkipped | hw3/src/main/java/edu/berkeley/cs186/database/query/BNLJOperator.java:97-118 | with one buffer, left pages [] and [1] against the single right page [1] give the one pair: the empty first block is skipped by the refill |
| BlockNestedLoopJoin.OutputIsJoin | hw3/src/main/java/edu/berkeley/cs186/database/query/BNLJOperator.java:130-139 | on the inputs `OutputIsComprehension` admits, the operator emits the join with its multiplicities, and a record exactly when it concatenates left and right records with equal join values |
| BlockNestedLoopJoin.EmptyBlockOutput | hw3/src/main/java/edu/berkeley/cs186/database/query/BNLJOperator.java:97-123 | with no left pages or zero buffers, the first block is empty: hasNext throws if the right table has a second page, and otherwise returns false |
| BlockNestedLoopJoin.EmptyPageStopsJoin | hw3/src/main/java/edu/berkeley/cs186/database/query/BNLJOperator.java:111-114 | with one buffer, an empty middle left page ends the join early: one record is emitted where the join has two |
| SortMergeJoin.Compare | hw3/src/main/java/edu/berkeley/cs186/database/query/SortMergeOperator.java:36-38 | cmp is zero exactly when the left record's left join value equals the right record's right join value, and negative exactly when it is smaller |
| SortMergeJoin.Start | hw3/src/main/java/edu/berkeley/cs186/database/query/SortMergeOperator.java:40-57 | the constructor opens both sorted runs with nothing held and the mark not yet placed |
| SortMergeJoin.TakeLeft | hw3/src/main/java/edu/berkeley/cs186/database/query/SortMergeOperator.java:75 | the left record compared is the held one when there is one; otherwise the left cursor advances by one and returns it; the right side and the mark are untouched |
| SortMergeJoin.PlaceDueMark | hw3/src/main/java/edu/berkeley/cs186/database/query/SortMergeOperator.java:70-73 | a due mark lands on the right record returned last (position one before the cursor), the flag becomes marked, and the cursors do not move; with no mark due nothing changes |
| SortMergeJoin.Rewind | hw3/src/main/java/edu/berkeley/cs186/database/query/SortMergeOperator.java:78-86 | when the right side runs out, the next left record is held and the left side strictly shrinks, which bounds the recursion |
| SortMergeJoin.FirstRight | hw3/src/main/java/edu/berkeley/cs186/database/query/SortMergeOperator.java:88-99 | the record returned is the one under the right cursor, which moves past it; on the very first call the mark is placed on that record, otherwise the mark is kept; the left cursor does not move, and a left record is held afterwards (the one already held, if any) |
| SortMergeJoin.Seek | hw3/src/main/java/edu/berkeley/cs186/database/query/SortMergeOperator.java:101-130 | the inner loop returns true exactly when it buffered a record |
| SortMergeJoin.HasNext | hw3/src/main/java/edu/berkeley/cs186/database/query/SortMergeOperator.java:64-131 | hasNext with a buffered record returns true and changes nothing; otherwise it returns true exactly when it buffered a record |
| SortMergeJoin.Yield | hw3/src/main/java/edu/berkeley/cs186/database/query/SortMergeOperator.java:139-147 | next returns the buffered record once and clears it, or throws NoSuchElementException |
| SortMergeJoin.Step | hw3/src/main/java/edu/berkeley/cs186/database/query/SortMergeOperator.java:64-147 | one hasNext/next round hands out the buffered record and leaves nothing buffered |
| SortMergeJoin.HasNextProgress | hw3/src/main/java/edu/berkeley/cs186/database/query/SortMergeOperator.java:64-131 | every hasNext that buffers a record has read at least one more left or right record, so iteration terminates |
| SortMergeJoin.SeekLeftStep | hw3/src/main/java/edu/berkeley/cs186/database/query/SortMergeOperator.java:103-112 | for sorted inputs, advancing the left side and resetting the right side to the mark skips no match: the mark sits at or before the start of the new left record's key group |
| SortMergeJoin.SeekRightStep | hw3/src/main/java/edu/berkeley/cs186/database/query/SortMergeOperator.java:113-121 | for sorted inputs, advancing only the right side skips no match, and every right record before the deferred mark is below the held key |
| SortMergeJoin.SeekStops | hw3/src/main/java/edu/berkeley/cs186/database/query/SortMergeOperator.java:105-107 | for sorted inputs, when the loop returns false because one side ran out, nothing of the join remains |
| SortMergeJoin.SeekKeepsRest | hw3/src/main/java/edu/berkeley/cs186/database/query/SortMergeOperator.java:101-130 | for sorted inputs the inner loop buffers the next record of the join, or returns false only when nothing of it remains |
| SortMergeJoin.RewindKeepsRest | hw3/src/main/java/edu/berkeley/cs186/database/query/SortMergeOperator.java:78-86 | for sorted inputs, re-matching the next left record against the marked duplicate group loses nothing |
| SortMergeJoin.HasNextKeepsRest | hw3/src/main/java/edu/berkeley/cs186/database/query/SortMergeOperator.java:64-131 | for sorted inputs hasNext buffers the next record of the join, or returns false only when nothing of it remains |
| SortMergeJoin.DrainIsRest | hw3/src/main/java/edu/berkeley/cs186/database/query/SortMergeOperator.java:64-147 | iterating to the end yields exactly what remains of the join |
| SortMergeJoin.MergeIsJoin | hw3/src/main/java/edu/berkeley/cs186/database/query/SortMergeOperator.java:64-131 | for inputs sorted on their join columns, the merge emits every key-equal pair exactly once, in nested-loop order |
| SortMergeJoin.Output | hw3/src/main/java/edu/berkeley/cs186/database/query/SortMergeOperator.java:43-55 | the operator sorts the left and then the right table, and a sort's exception is IndexOutOfBoundsException |
| SortMergeJoin.OutputIsJoin | hw3/src/main/java/edu/berkeley/cs186/database/query/SortMergeOperator.java:43-55 | the operator answers exactly when both sorts return, and then emits the join with its multiplicities, and a record exactly when it concatenates left and right records with equal join values |
| SortMergeJoin.OutputAnswers | hw3/src/main/java/edu/berkeley/cs186/database/query/SortMergeOperator.java:53-54 | with at least three buffers and non-empty tables the operator terminates, and answers exactly when both tables' run counts are powers of numBuffers-1 |
| SortMergeJoin.EmptyTableThrows | hw3/src/main/java/edu/berkeley/cs186/database/query/SortMergeOperator.java:53-54 | if either table has no data pages the operator never answers; if the left one has none, it throws IndexOutOfBoundsException while sorting |
| SortMergeJoin.OutputFixed | hw3/src/main/java/edu/berkeley/cs186/database/query/SortMergeOperator.java:43-55 | over the corrected sort the operator always emits the join of the two tables |
| SortMergeJoin.OutputFixedAgrees | hw3/src/main/java/edu/berkeley/cs186/database/query/SortMergeOperator.java:43-55 | wherever the operator as written answers, it agrees with the corrected one |
| Locking.Acquire | hw5/src/main/java/LockManager.java:42-99 | acquire throws IllegalArgumentException exactly when the caller is waiting, asks for S while holding X, or asks again for the type it holds; otherwise the table stays locked, other tables are untouched and the policy is kept |
| Locking.HoldsOneType | hw5/src/main/java/LockManager.java:208-216 | holds is true for at most one lock type per transaction and table, and on a consistent manager an exclusive holder is the only owner |
| Locking.Resolve | hw5/src/main/java/LockManager.java:73-91 | a conflict puts the requester to sleep at the back of the queue exactly when Wait-Die finds it older than all owners or Wound-Wait (and None) finds it not; it aborts only under Wait-Die; a wounding requester becomes the sole owner and every owner aborts |
| Locking.AcquireHoldsIff | hw5/src/main/java/LockManager.java:42-99 | after a successful acquire the caller holds the requested lock exactly when it was neither put to sleep nor aborted |
| Locking.AcquireWaitsOrDies | hw5/src/main/java/LockManager.java:226-285 | a caller put to sleep is appended to the back of the queue, and a caller that aborts leaves the manager unchanged |
| Locking.AcquireFree | hw5/src/main/java/LockManager.java:94-98 | on an unlocked table the caller becomes sole owner with the requested type and holds it |
| Locking.AcquireCompatible | hw5/src/main/java/LockManager.java:63-83 | a sole S owner asking for X is upgraded in place, and S on an S-locked table joins the owners even when requests wait; the queue is unchanged |
| Locking.AcquireWaitDie | hw5/src/main/java/LockManager.java:226-244 | under Wait-Die a conflicting caller older than every owner waits at the back of the queue; otherwise it aborts with nothing changed |
| Locking.AcquireWoundWait | hw5/src/main/java/LockManager.java:255-285 | under Wound-Wait a conflicting caller older than every owner aborts them all, drops their queued requests and becomes sole owner with the requested type; otherwise it waits at the back of the queue |
| Locking.AcquireKeepsConsistent | hw5/src/main/java/LockManager.java:42-99 | acquire keeps every exclusive lock with exactly one owner |
| Locking.Release | hw5/src/main/java/LockManager.java:119-198 | release throws IllegalArgumentException exactly when the caller is waiting or the table is unlocked; other tables are untouched |
| Locking.ReleaseShared | hw5/src/main/java/LockManager.java:130-133 | with more than one other owner, release only removes the caller |
| Locking.ReleaseIdle | hw5/src/main/java/LockManager.java:134-141 | with an empty queue, the last owner's release unlocks the table, and otherwise the one remaining owner keeps the lock |
| Locking.GrantQueue | hw5/src/main/java/LockManager.java:143-159 | on an S lock the promotion step removes only the caller's first queued X request, and on an X lock nothing |
| Locking.Promote | hw5/src/main/java/LockManager.java:143-158 | the promotion step removes the releaser's first queued X request and keeps every other request in order; without one the queue is unchanged |
| Locking.Chosen | hw5/src/main/java/LockManager.java:161-174 | the granted request is an X request: the first one of a remaining owner, or else the first one in FIFO order; none exactly when only S requests wait |
| Locking.Grant | hw5/src/main/java/LockManager.java:176-197 | a chosen X request becomes the sole owner, leaves the queue and is set running; with only S requests waiting, every requester shares the lock and is set running and the queue empties |
| Locking.ReleaseGrantsExclusive | hw5/src/main/java/LockManager.java:176-185 | when an X request waits, exactly one is granted: the grantee alone owns the lock, leaves the queue and is set running |
| Locking.ReleaseGrantsShared | hw5/src/main/java/LockManager.java:186-197 | when only S requests wait, every waiting transaction is granted S and set running, and the queue empties |
| Locking.ReleaseLetsGo | hw5/src/main/java/LockManager.java:129-130 | a caller without a queued request holds nothing on the table after release |
| Locking.ReleaseKeepsConsistent | hw5/src/main/java/LockManager.java:119-198 | release keeps every exclusive lock with exactly one owner |
| Locking.NoAvoidanceIsWoundWait | hw5/src/main/java/LockManager.java:76-80 | a manager built with None acts exactly as one built with Wound-Wait |
| Locking.CoOwnerUpgradeDies | hw5/src/main/java/LockManager.java:230-231 | under Wait-Die, an S co-owner asking for X always aborts, because it is among the owners it must be older than |
| Locking.ReleaseDropsLastOwner | hw5/src/main/java/LockManager.java:132-196 | when one owner remains and requests wait, that owner loses the lock unless it is itself queued |
| Locking.PromotionIsLost | hw5/src/main/java/LockManager.java:143-158 | the lock installed by the promotion step is overwritten in the same call: a concrete release leaves an S lock with no owner |
| Locking.WaitDieRule | hw5/src/main/java/LockManager.java:226-244 | Wait-Die either puts the caller to sleep or aborts it, and never changes the owners or the type |
| Locking.WoundWaitRule | hw5/src/main/java/LockManager.java:255-285 | Wound-Wait either puts the caller to sleep or makes it the sole owner |
| Locking.Without | hw5/src/main/java/LockManager.java:262-270 | the queue keeps exactly the requests of transactions that were not wounded, each as often as it was queued, and is unchanged when none was; WithoutAppend gives the order |
| Locking.WithoutAppend | hw5/src/main/java/LockManager.java:265-269 | removing wounded requests from two queues joined is joining the two removals, so the requests that stay keep their FIFO order |

## Left out

- Storage and transaction plumbing is replaced by pure sequences: page and block iterators, record iterators, temporary tables, `addRecord` and schema computation.
- `Cursor`: the mark and reset semantics of the backtracking iterators are an assumption. That code is not part of this model. Mark remembers the element returned last; reset makes the next read return it again; reset without a mark does nothing.
- The `DatabaseException` handlers that print and return false are left out. They are I/O error handling (PNLJOperator.java:142-145, BNLJOperator.java:144-147).
- `Common.Key`: typed values are integers, and reading a column a record lacks yields 0. The schema rules such a record out.
- The `Key` function is also used for the comparator's column. Floating-point values and their `equals`/`compareTo` are not modelled.
- Priority-queue tie-breaking among equal keys is not modelled. The merge is stated up to the multiset of records and sortedness, and the model picks some minimum.
- ExternalSort.Sort: requires at least two buffers. With fewer, `numBuffers - 1` is zero, and the pass loop `i += step` never advances. That case is not modelled.
- BlockNestedLoopJoin.OutputIsComprehension: it assumes that no block of numBuffers left pages after the first lacks records while blocks after it still owe joined records, and that the first block has records unless the right table has a single data page. Otherwise the source stops at such a block and loses the records the later blocks owe (EmptyPageStopsJoin); a trailing empty block, or one followed only by blocks without matches, loses nothing (TrailingEmptyBlockJoinsFully, UnmatchedAfterEmptyBlock). A first block without records makes the first hasNext throw when the right table has a second data page (EmptyBlockOutput); with a single right data page it is skipped and the rest is joined (EmptyFirstBlockSkipped).
- PageNestedLoopJoin.OutputIsComprehension: it assumes no empty left page after the first, and an empty first page only against a single right data page. Otherwise the source throws; EmptyFirstPageThrows shows this.
- The Java `assert` statements are treated as disabled, as they are by default.
- SortMergeJoin.MergeIsJoin: it assumes both inputs sorted on their join columns, which the operator's sorts guarantee.
- SortMergeJoin.Output: requires at least two buffers, for the reason given for ExternalSort.Sort.
- The internals of `Transaction` are not part of this model: `sleep`, `abort`, `setStatus` and its equality. A transaction is an id and a timestamp. Its status is a parameter of each call, and its two values are the two the code tests.
- The effects of the lock manager on a transaction are returned as events in a set. The order in which Wound-Wait aborts owners follows a hash set and is not modelled.
- `compatible`, which always returns false and is never called, is left out. So are the `remove` methods, which only throw.
- Memory budgets and I/O counts are not modelled, beyond the block size and the bound of one queue entry per run.

## Findings

| source | as written | input that shows it | evidently intended | confidence | as-written member | corrected member |
|---|---|---|---|---|---|---|
| hw3/src/main/java/edu/berkeley/cs186/database/query/SortOperator.java:148-149 | `runs.subList(i, i+step)` reaches past the end when the run count is not a multiple of `numBuffers-1` | three runs with three buffers | the final group is the remaining runs, fewer than `numBuffers-1` | high (not executed) | ExternalSort.PartialGroupThrows | ExternalSort.MergePassFixed |
| hw3/src/main/java/edu/berkeley/cs186/database/query/SortOperator.java:182 | `sortedRuns.get(0)` on an empty list when the table has no data pages | a table with only its header page | an empty table sorts to an empty run | medium (not executed) | ExternalSort.EmptyTableThrows | ExternalSort.SortFixed |
