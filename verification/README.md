# toadb, modelled and proved in Dafny

toadb is a small SQL engine: multi-version tables stored by column groups (PAX), a page cache with clock
replacement behind a partitioned hash table, a pull executor over nested loops, and a framed client protocol. This
project models those parts and proves what they are for. Code that works in place is a class whose methods change
the same fields, proved against a function of the old state; the theorems are about those functions and about runs
of the resulting state machines.

The main results:

- **Multi-version reads and writes** (Transactions, Snapshots, Versions, Mvcc, HighLevel, Anomalies). A transition
  system over worker slots, snapshots, chains and a history of successful writes. In every reachable state a read
  returns the value as of the reader's snapshot overlaid with its own writes, at most one version of a chain is
  visible, chains are stamped end to end, and the writers of a cell never overlap.
- **The page cache** (HashSizing, HashTable, BufferPool, ResourceOwner, BufferCache, BufferManager). Over any run the
  cache cannot be told from a plain store of pages. The tag index is a finite map over a fixed arena of elements;
  the clock hand stops within a proved bound; the in-place manager is the cache, and its retry branches are dead
  code for one worker at a time.
- **Queries** (Rows, Expression, Qualifiers, JoinTree, NestedLoop, Query). From the range table and the qualifiers as
  written to the last row sent: project(filter(join)), outer-major, each combination once, through one shared result
  cell and iterators that remember their place in flags.
- **Tables** (SlottedPage, PaxTable, PaxScan, TableReads). Items read back what was last written to them; the column
  pages of a group stay in step; a scan over an ascending column list yields every visible row once, in order, with
  the values as of the reader's snapshot; `SelectAsOf` goes from there to the rows that a query sends.
- **Streams** (Framing, Spooky). Frame reassembly and the incremental hash do not depend on how their input is cut.

Where the code does not do what it is meant to, the model keeps the code, a lemma names an input that shows it, and
another says exactly when the code is right:

- The guard in GetActiveXtids tests the array cell it is about to overwrite. A snapshot is exact iff nothing at or
  below highLevelXtid was skipped (`SnapshotExactness`); a reused array can break it (`ReuseMisclassifies`). The
  transition system asks of each snapshot that nothing is skipped, which a new session's array guarantees.
- The check of update and delete looks at the scanned copy, not at the record on the page. The chain stays faithful
  iff the head still is that copy (`ScanThenWrite`); otherwise an update is lost (`LostUpdate`, `OverlappingWriters`).
  The transition system's writes scan and write in one step.
- GetTransactionState answers committed for every id, so what a transaction wrote stays when it aborts
  (`AbortIsCommit`, `AbortedIsRead`); "finished" covers both throughout.
- The cleanup at the end of a statement drops two list entries for one pin and leaves half the pins of pages fetched
  more than once (`ReleaseAllResourceOwner`, `TwoFetchesLeak`); it is complete iff no buffer is listed twice (`CleanupComplete`).
- The partition array has as many places as asked for, but indexes are taken below the next power of two
  (`IndexesInRange`, `AlignFixed`); partition and bucket come from the same low bits (`BucketsUsed`).
- GetFreeBufferId runs off a list of pinned buffers (`TakeFreeOverrun`); in the cache listed buffers are unpinned.
- A scan whose column list is not ascending finds no pages (`MemberPages`). A rescan after the end starts over at the
  last directory page (`ExecReSeqScan`, `ScanAgain`), which is the first iff there is no other (`RestartsAtFirst`), so
  that a join can miss rows; `YieldIsProduct` says exactly when it does not.
- A comparison of two columns of one table compares the left one with itself, and one with a column only on the right
  swaps its sides without mirroring the operator (`ComparisonsMisread`, `ComparisonAsWritten`, and over all rows
  `OneTableAlways` and `SwappedAlways`).
- A target outside the scan's list whose late fetch fails repeats the row projected before (`MissingTargetRepeats`);
  `OutputIsAnswer` says exactly when that shows, and it cannot happen to a query whose columns are all scanned or
  found (`CheckedIsAnswered`).
- ParserMsg drops a piece that does not complete a header (`ParseConserves`). An empty frame or the end of an answer
  ends the drain loop, also before a whole frame (`DrainIsComplete`, `EmptyFrameStops`), which then waits for the next
  read. The type of a finished answer stays behind, and a short first piece of the next one is taken for its end
  (`NextAnswerFinishes`, `FinishedMeans`).
- From 192 bytes on the one-shot SpookyHash pads a last partial block but never mixes it in (`OneShotIgnoresTail`),
  where the incremental one does (`IncrementalIsPaddedOneShot`), so that the two interfaces disagree (`LongDisagree`).

## Model

| member | source | states |
|---|---|---|
| Transactions.StartInv | src/sqlcore/transaction/transactionControl.c:52-88 | a starting transaction gets an id never handed out before, held by nobody else, and no id becomes finished or running again; the slot invariant is kept |
| Transactions.StatementFinishes | src/sqlcore/transaction/transactionControl.c:52-88 | outside of a block a statement is a transaction of its own: what it starts, its finish ends |
| Transactions.BeginInv | src/sqlcore/transaction/transactionControl.c:90-129 | the same for an explicit block, whether it opens a transaction or joins the one the statement started |
| Transactions.BlockStaysOpen | src/sqlcore/transaction/transactionControl.c:90-129 | a begun block is open: any number of finishes change nothing, and its id runs on |
| Transactions.BlockEnds | src/sqlcore/transaction/transactionControl.c:131-216 | ending or aborting it finishes nothing yet; the next finish does |
| Transactions.ResolveInv | src/sqlcore/transaction/transactionControl.c:131-176 | recording commit or abort in the slot finishes nothing and keeps the invariant |
| Transactions.FinishInv | src/sqlcore/transaction/transactionControl.c:178-216 | finishing makes exactly the worker's own id finished, only from START, COMMIT or ABORT, never takes a finished id back, and every finished id stays at or below highLevelXtid |
| Transactions.AbortIsCommit | src/sqlcore/transaction/xtid.c:79-83 | aborting and then finishing leads to the same state as ending and then finishing: what was aborted stays visible |
| Transactions.TransactionControl.StartTransaction | src/sqlcore/transaction/transactionControl.c:52-88 | the in-place method performs the state machine's step, including the calls it ignores |
| Transactions.TransactionControl.BeginTransaction | src/sqlcore/transaction/transactionControl.c:90-129 | likewise |
| Transactions.TransactionControl.EndTransaction | src/sqlcore/transaction/transactionControl.c:131-152 | likewise |
| Transactions.TransactionControl.AbortTransaction | src/sqlcore/transaction/transactionControl.c:154-176 | likewise |
| Transactions.TransactionControl.FinishTransaction | src/sqlcore/transaction/transactionControl.c:178-216 | likewise; the slot goes idle, highLevelXtid is raised, the worker is detached |
| HighLevel.Interleaving | src/sqlcore/transaction/xtid.c:31-48 | under every interleaving of concurrent compare-and-swap loops highLevelXtid only rises, and when all calls have returned it is the greatest of its start value and the valid ids passed in |
| HighLevel.RetriesRise | src/sqlcore/transaction/xtid.c:31-48 | a compare-and-swap fails only because the counter rose past the expected value, and a caught-up call returns at once |
| Snapshots.GetActiveXtids | src/sqlcore/transaction/transactionControl.c:264-302 | the fill loop over the slots, the guard reading the cell about to be overwritten included, computes the specified record: the running ids of the others in slot order up to the first stale obstacle, the limits, and the rest of the array untouched |
| Snapshots.SnapShotInfo.XtidIsInSnapshot | src/sqlcore/transaction/snapshot.c:72-87 | the search loop decides membership among the recorded ids |
| Snapshots.SnapShotInfo.TupleVisibililtySnapshot | src/sqlcore/transaction/snapshot.c:89-108 | the branches classify an id by the limits and the recorded ids |
| Snapshots.SnapShotInfo.GetSnapshot | src/sqlcore/transaction/snapshot.c:63-70 | a session's record is refilled in place from the slots and its own old content |
| Snapshots.SnapshotExactness | src/sqlcore/transaction/transactionControl.c:264-302 | every other id, past or future, is classified OUT iff it had finished when the snapshot was taken, if and only if the fill skipped no running id at or below highLevelXtid |
| Snapshots.FreshCellsComplete | src/sqlcore/transaction/transactionControl.c:283-288 | an array whose cells are at most highLevelXtid+1, as a new session's, skips nothing |
| Snapshots.StaleState | src/sqlcore/transaction/transactionControl.c:286-287 | with a leftover id above the limit in cell 0 a running id is classified OUT; over a zeroed array it is classified IN |
| Snapshots.FillCollects | src/sqlcore/transaction/transactionControl.c:281-296 | slot-by-slot filling and the closed description of the record agree for all slots and all old contents |
| Versions.VersionStore.CurrentReadVersion | src/sqlcore/storage/buffer/undopage.c:25-82 | the do/while walk over undo positions returns the first visible version of the older chain, and terminates |
| Versions.VersionStore.ReadCell | src/sqlcore/executor/scan/seqscan.c:192-206 | the head if it is visible, else the walk |
| Versions.VersionStore.UpdateCell | src/sqlcore/executor/execModifyTable.c:187-242 | accepted iff the update check accepts the scanned copy; then the stamped copy goes to the undo area and the new version replaces the head |
| Versions.VersionStore.DeleteCell | src/sqlcore/executor/execModifyTable.c:572-605 | accepted on the same check; the stamped copy replaces the head |
| Versions.VersionStore.InsertCell | src/sqlcore/executor/execModifyTable.c:320-383 | a new cell has one version, stamped with the writer, without older ones |
| Versions.OlderGrows | src/sqlcore/storage/buffer/undopage.c:25-82 | growing the undo area changes no existing chain |
| Mvcc.VisiblePosition | src/sqlcore/transaction/snapshot.c:114-199 | of a chain, the only visible version is the one left by the last write the reader saw |
| Mvcc.ChainRead | src/sqlcore/storage/buffer/undopage.c:25-82 | the walk down any faithful chain finds that version or nothing, and no other version of the chain is visible |
| Mvcc.ReadIsAsOf | src/sqlcore/storage/buffer/undopage.c:25-82 | in every state of the invariant a read returns exactly the value as of the reader's snapshot overlaid with its own writes, or nothing if the cell is deleted or absent there; no second version of the chain is visible |
| Mvcc.WritableIsHead | src/sqlcore/transaction/snapshot.c:205-258 | a version the update check accepts is the head, and the writer has seen every write before it |
| Mvcc.UpdateFaithful | src/sqlcore/executor/execModifyTable.c:187-242 | update keeps older.tmax equal to newer.tmin along the chain of the cell, and every other chain as it was |
| Mvcc.DeleteFaithful | src/sqlcore/executor/execModifyTable.c:572-605 | delete stamps the head and changes nothing else |
| Mvcc.StepInv | src/sqlcore/transaction/transactionControl.c:52-330 | every allowed step of any worker (start, begin, end, abort, finish, new session, snapshot, insert, update, delete) keeps the whole invariant: exact snapshots, faithful chains, serial writers, prefix views |
| Mvcc.SnapKeepsInv | src/sqlcore/transaction/transactionControl.c:264-330 | taking a snapshot keeps the invariant if and only if it skips no running id at or below highLevelXtid |
| Mvcc.OpenUntilResolved | src/sqlcore/transaction/transactionControl.c:178-216 | over any run a block stays open under its id until its own worker ends or aborts it |
| Mvcc.WritableExactly | src/sqlcore/transaction/snapshot.c:205-258 | a cell may be written exactly when its last write was a put that the worker sees |
| Mvcc.InsertIsRead | src/sqlcore/executor/execModifyTable.c:320-383 | what a worker inserts it then reads, and every other cell reads as before |
| Mvcc.UpdateIsRead | src/sqlcore/executor/execModifyTable.c:187-242 | likewise the new value after an update |
| Mvcc.DeleteIsRead | src/sqlcore/executor/execModifyTable.c:560-605 | and nothing after a delete |
| Mvcc.WrittenIsReadLater | src/sqlcore/executor/execModifyTable.c:140-242 | after any run that does not write the cell and in which the writer has finished, whoever takes a snapshot reads what was written, or nothing if it was deleted |
| Mvcc.ReachableReads | src/sqlcore/storage/buffer/undopage.c:25-82 | the read theorem in every reachable state |
| Mvcc.ReachableSnapshots | src/sqlcore/transaction/transactionControl.c:264-330 | in every reachable state each snapshot in use tells apart exactly what had finished when it was taken |
| Mvcc.ReachableWriters | src/sqlcore/executor/execModifyTable.c:187-220 | in every reachable state the writers of a cell follow one another, so no two overlapping transactions both succeed in writing it; each version's tmax is the next newer one's tmin and only the head's may be invalid |
| Mvcc.FinishedStays | src/sqlcore/transaction/transactionControl.c:178-216 | no allowed step takes a finished id back |
| Mvcc.ReadsUntilFinish | src/sqlcore/transaction/transactionControl.c:304-330 | under repeatable read, over any run after which the taker has not finished, its writes, reads, begin, end and abort and the finish after each statement of its block included, its id, snapshot and classification of every id stay fixed, and each read is the history by then as of the start of the run, overlaid with its own writes |
| Mvcc.RepeatableReads | src/sqlcore/transaction/transactionControl.c:304-330 | so, while it writes nothing itself, it reads the same value of every cell again and again, over any number of statements |
| Mvcc.UpdateFromCopy | src/sqlcore/executor/execModifyTable.c:187-220 | the check reads the scanned copy, so it accepts a copy of any age; the chain then still holds the history if and only if the cell was not written since the scan |
| Mvcc.DeleteFromCopy | src/sqlcore/executor/execModifyTable.c:560-605 | delete runs the same check on the scanned copy and writes that copy over the head: faithful if and only if the cell was not written since the scan |
| Mvcc.ScannedEarlier | src/sqlcore/executor/execModifyTable.c:187-220 | over any run between scan and write, the head on the page still is the scanned copy exactly when nobody wrote the cell |
| Mvcc.ScanThenWrite | src/sqlcore/executor/execModifyTable.c:187-242 | whatever run lies between them, updating or deleting from a scanned copy is accepted, and keeps the chain true to the history if and only if the head still is that copy |
| Mvcc.LostUpdate | src/sqlcore/executor/execModifyTable.c:187-220 | of two transactions that scanned a cell before either wrote it, the second is still let through after the first, and its update or delete loses the first one's |
| Anomalies.OverlappingWriters | src/sqlcore/executor/execModifyTable.c:187-220 | a run from the initial state reaches two workers that may both write one cell, so the lost update is real |
| Anomalies.AbortedIsRead | src/sqlcore/transaction/xtid.c:79-83 | a run in which one worker inserts a value, aborts and finishes, and another one that starts afterwards reads it |
| Anomalies.ReuseMisclassifies | src/sqlcore/transaction/transactionControl.c:286-287 | a run of allowed steps, each snapshot in it exact, after which a worker's next snapshot into its own used array takes a running id for finished |
| HashSizing.AlignIsLeast | src/util/hashtable/hashtab.c:34-45 | getAlignNum is the least power of two at or above a positive argument; 0 wraps to 2^32 |
| HashSizing.GetShiftNum | src/util/hashtable/hashtab.c:47-55 | the loop counts the halvings of its argument |
| HashSizing.LogIsHighestBit | src/util/hashtable/hashtab.c:47-55 | that count is the position of the highest set bit |
| HashSizing.LogFits | src/util/hashtable/hashtab.c:47-55 | every shift number fits the word it is kept in |
| HashSizing.ShiftForPartitions | src/util/hashtable/hashtab.c:97-103 | for two partitions or more the stored shift is 64 minus that position, between 33 and 63 |
| HashSizing.IndexesInRange | src/util/hashtable/hashtab.c:337-349 | for every 64-bit key the bucket index is in its segment; all partition indexes are below the partition count if and only if aligning left that count unchanged |
| HashSizing.AlignFixed | src/util/hashtable/hashtab.c:97-103 | which is so exactly for powers of two |
| HashSizing.BucketsUsed | src/util/hashtable/hashtab.c:337-349 | partition p and bucket b are used together by some key iff they agree on the low bits they share: with four partitions each uses eight of its 32 buckets |
| HashTable.HashTableInfo.HashTableCreate | src/util/hashtable/hashtab.c:70-172 | a new table is the empty map with all elements on the free list |
| HashTable.HashTableInfo.HashFindEntry | src/util/hashtable/hashtab.c:236-245 | finds the entry of the map, or null iff the key is absent |
| HashTable.HashTableInfo.HashGetFreeEntry | src/util/hashtable/hashtab.c:247-291 | HASH_FIND iff the key is present, HASH_NULL iff it is not and all elements are used, otherwise the map gains exactly this entry |
| HashTable.HashTableInfo.HashDeleteEntry | src/util/hashtable/hashtab.c:210-234 | the map loses exactly this key, and -1 iff it was absent |
| HashTable.HashTableInfo.GetFromFreeList | src/util/hashtable/hashtab.c:300-319 | pops the head of the free list, or null |
| HashTable.HashTableInfo.PutFreeList | src/util/hashtable/hashtab.c:321-335 | pushes an element on the free list |
| HashTable.HashTableInfo.DeleteHashEntryFromBucket | src/util/hashtable/hashtab.c:369-395 | the loop with its trailing pointer unlinks the matching element, at the head or inside, and no other |
| HashTable.GetHashEntryFromBucket | src/util/hashtable/hashtab.c:351-367 | the loop over one chain stops at the only matching element, or at null |
| HashTable.InsertInv | src/util/hashtable/hashtab.c:247-291 | pushing a free element keeps chains, free list and counters consistent |
| HashTable.InsertContents | src/util/hashtable/hashtab.c:247-291 | and adds exactly one entry to the map |
| HashTable.RemoveInv | src/util/hashtable/hashtab.c:210-234 | unlinking and freeing an element keeps chains, free list and counters consistent |
| HashTable.RemoveContents | src/util/hashtable/hashtab.c:210-234 | and drops exactly one entry |
| HashTable.ChainTag | src/util/hashtable/hashtab.c:351-367 | in a valid table, following the chain of a tag's bucket meets the tag once, at its recorded element, iff the tag is in the map |
| HashTable.ArenaPartition | src/util/hashtable/hashtab.c:124-172 | the free list and the chains partition the arena, no key is chained twice or in a foreign bucket, and freeNum + usedNum is the arena's size with usedNum the size of the map |
| BufferPool.BufferPoolContext.InitBufferPool | src/util/bufferPool/bufferPool.c:30-64 | all buffers empty and unpinned, all but buffer 0 on the free list |
| BufferPool.BufferPoolContext.GetFreeBufferId | src/util/bufferPool/bufferPool.c:187-211 | takes the first unpinned listed buffer off the list, changing no descriptor |
| BufferPool.TakeFreeOverrun | src/util/bufferPool/bufferPool.c:187-211 | the loop runs off the list iff it holds pinned buffers only; what it takes is the first unpinned one, and what stays listed is what lies behind it |
| BufferPool.BufferPoolContext.ClockSweep | src/util/bufferPool/bufferPool.c:213-260 | stops within USE_COUNT_MAX times bufferNum visits at an empty or unpinned buffer, changes only use counts, and leaves the hand behind it |
| BufferPool.SweepStops | src/util/bufferPool/bufferPool.c:213-260 | if some buffer is empty or unpinned the sweep terminates within that bound, never picks a pinned valid buffer, and use counts stay in range |
| BufferPool.SweepTakesFirst | src/util/bufferPool/bufferPool.c:213-260 | of all candidates it picks the one whose turn, by distance and use count, comes first |
| BufferPool.UsedIsSpared | src/util/bufferPool/bufferPool.c:146-170 | a page just used and given back is passed by on every round but the last that its use count allows |
| ResourceOwner.ResourceOwnerPool.PushResourceOwner | src/util/resourceManger/resourceMgr.c:39-52 | appends an entry |
| ResourceOwner.ResourceOwnerPool.ReleaseResourceOwner | src/util/resourceManger/resourceMgr.c:54-84 | drops the oldest entry of the buffer, if any, and says whether there was one |
| ResourceOwner.ResourceOwnerPool.PopResourceOwner | src/util/resourceManger/resourceMgr.c:86-109 | takes the oldest entry |
| ResourceOwner.PinsAccounted | src/sqlcore/storage/buffer/buffer.c:548-570 | over any run of fetches, failed reads and releases of one worker each buffer has as many pins as list entries |
| ResourceOwner.ReleasePage | src/sqlcore/storage/buffer/buffer.c:1212-1224 | drops one pin and one entry of the page's buffer |
| ResourceOwner.ReleaseAllResourceOwner | src/sqlcore/storage/buffer/buffer.c:2123-2141 | the cleanup loop empties the list and leaves exactly half of each buffer's pins, rounded down |
| ResourceOwner.CleanupComplete | src/sqlcore/storage/buffer/buffer.c:2123-2141 | so all pins are gone if and only if no buffer was listed twice |
| ResourceOwner.TwoFetchesLeak | src/sqlcore/storage/buffer/buffer.c:2123-2141 | two fetches of one page, of which the cleanup leaves a pin |
| BufferCache.AllocInv | src/sqlcore/storage/buffer/buffer.c:900-1067 | whichever way it goes (found, free buffer, victim flushed and retagged) AllocBuffer yields the tag's only buffer, pinned, keeps the cache invariant, and leaves the stored pages as they were |
| BufferCache.ReplacedInv | src/sqlcore/storage/buffer/buffer.c:1103-1139 | cleaning and retagging an unpinned buffer, flushing it first when dirty, keeps the invariant and every stored page |
| BufferCache.FlushedHome | src/sqlcore/storage/buffer/buffer.c:1103-1139 | a dirty page is flushed to the place its tag names, because its header page number equals its tag's |
| BufferCache.ReadPageIsStoreRead | src/sqlcore/storage/buffer/buffer.c:1147-1210 | ReadPage returns a pinned buffer holding what a plain store holds there, or nothing iff that store holds nothing or the number is below 1 |
| BufferCache.StepRefines | src/sqlcore/storage/buffer/buffer.c:1147-1235 | each step (read, edit, write, mark, release, extend) is the same step of a cache-less page store and returns the same |
| BufferCache.RunRefines | src/sqlcore/storage/buffer/buffer.c:900-1235 | over any run, with whatever evictions it causes, all reads return what the plain store returns |
| BufferCache.ChangedIsRead | src/sqlcore/storage/buffer/buffer.c:1147-1235 | what was last put into a page, by an edit or by extending its file, is what a read returns, whatever is done to it or others in between |
| BufferCache.InitialInv | src/sqlcore/storage/buffer/buffer.c:59-86 | a new pool over existing files stands for those files |
| BufferCache.HeldStays | src/sqlcore/storage/buffer/buffer.c:900-1067 | a page somebody holds stays in its buffer through every step of the others |
| BufferCache.EvictionKeepsStore | src/sqlcore/storage/buffer/buffer.c:1103-1139 | evicting a valid buffer keeps the stored pages if and only if it is dirty or as on disk: why edits must be written or marked before release |
| BufferManager.BufferManager.SearchBuffer | src/sqlcore/storage/buffer/buffer.c:1069-1098 | the hash lookup and the tag recheck together return the index entry; the recheck always passes |
| BufferManager.BufferManager.CleanPageBuffer | src/sqlcore/storage/buffer/buffer.c:1103-1139 | flush, drop from the index, mark empty: the cleaning step of the cache |
| BufferManager.BufferManager.AllocBuffer | src/sqlcore/storage/buffer/buffer.c:900-1067 | the in-place method is the cache's allocation; its retry branches ("element exhausted", "already inserted", swept by another) are dead code here |
| BufferManager.BufferManager.EmptyBuffer | src/sqlcore/storage/buffer/buffer.c:953-1005 | the free-list and victim branches yield an empty buffer, with a hash element left for the new tag |
| BufferManager.BufferManager.InitTag | src/sqlcore/storage/buffer/buffer.c:1006-1058 | tagging inserts into the hash table, which can neither be full nor hold the tag |
| BufferManager.BufferManager.ReadPage | src/sqlcore/storage/buffer/buffer.c:1147-1210 | the in-place method is the cache's read, the failing file read included |
| BufferManager.BufferManager.WritePage | src/sqlcore/storage/buffer/buffer.c:1226-1235 | writes the page home and clears its dirty flag |
| BufferManager.BufferManager.ReleaseBuffer | src/util/bufferPool/bufferPool.c:94-103 | gives back one pin and changes nothing else |
| BufferManager.BufferManager.SetBuffferDirty | src/util/bufferPool/bufferPool.c:121-127 | marks the buffer dirty and changes nothing else |
| BufferManager.ElementsSuffice | src/sqlcore/storage/buffer/buffer.c:59-86 | with one hash element a buffer, a buffer without a tag always leaves an element free |
| Rows.GetTblRowDataPosition | src/sqlcore/executor/scan/scan.c:106-135 | the first part of the row that belongs to the table and range-table index |
| Rows.GetColRowDataEx | src/sqlcore/executor/scan/scan.c:138-201 | the scanned column of that attribute index, or what fetching it late finds |
| Expression.RunDenotes | src/sqlcore/executor/execExpre.c:43-278 | whatever the shared cell and the current node held before, a tree with a meaning evaluates to it; each column reads its own parent's left or right table |
| Expression.Evaluator.ProcessQualExprNode | src/sqlcore/executor/execExpre.c:43-78 | the recursive method over one cell and one saved and restored node pointer computes the specified run and restores the pointer |
| Expression.Evaluator.ComputeBoolExprNode | src/sqlcore/executor/execExpre.c:84-132 | likewise for AND, OR and NOT, over local copies of the cell |
| Expression.Evaluator.ComputeExpreNode | src/sqlcore/executor/execExpre.c:138-168 | likewise for operators |
| Expression.Evaluator.GetExprDataColumnValue | src/sqlcore/executor/execExpre.c:200-257 | likewise for columns; a column not found leaves the cell as it was |
| Qualifiers.BuiltApart | src/sqlcore/plan/query.c:300-401 | every built tree keeps the two sides of each comparison apart, as the evaluator's test of node identity needs |
| Qualifiers.BuiltMeans | src/sqlcore/plan/query.c:406-474 | a qualifier without the two kinds of comparison below is evaluated to what was written, whatever the shared cell held before |
| Qualifiers.ConnectivesHold | src/sqlcore/executor/execExpre.c:84-132 | a built AND evaluates to true exactly when both sides hold, OR when one does, NOT when the left one does not |
| Qualifiers.ComparisonRuns | src/sqlcore/plan/query.c:440-466 | what every built comparison evaluates to: with a column only on the right, the sides swapped under the same operator; with two columns of one table, the left one compared with itself, since the right one's index stays 0 |
| Qualifiers.ComparisonAsWritten | src/sqlcore/plan/query.c:440-466 | so it is as written if and only if the operator takes the swapped operands alike, or gives the left value with itself what it gives both |
| Qualifiers.SafeComparison | src/sqlcore/plan/query.c:440-466 | over all tables and rows: as written, if a swapped comparison's operator commutes and a one-table comparison's operator ignores its right operand |
| Qualifiers.OneTableAlways | src/sqlcore/plan/query.c:454-458 | two different columns of one table: as written over all rows if and only if the operator ignores its right operand |
| Qualifiers.SwappedAlways | src/sqlcore/plan/query.c:446-453 | a constant and a column: as written over all rows if and only if the operator takes the constant on either side alike |
| Qualifiers.ComparisonsMisread | src/sqlcore/plan/query.c:440-466 | a row with a = 1 and b = 2 is refused by a < b and by 1 < b |
| JoinTree.CommonQueryTransform | src/sqlcore/plan/query.c:997-1039 | the loop over the range table builds the specified tree |
| JoinTree.BuiltLeftDeep | src/sqlcore/plan/query.c:1059-1111 | for any number of tables the tree is one left-deep node over them in order, and each node's rtNum is its number of leaves |
| JoinTree.PlanProcessor.ProcessJoinTree | src/sqlcore/plan/plan.c:326-353 | the recursion that passes its argument in a field plans exactly the tree it was given |
| JoinTree.PlanProcessor.ProcessJoinNode | src/sqlcore/plan/plan.c:401-423 | plans both children, though planning the left one overwrites that field |
| JoinTree.PlanProcessor.ProcessQual | src/sqlcore/plan/plan.c:290-324 | a list of one node is planned, others are refused |
| JoinTree.PlanOfBuilt | src/sqlcore/plan/plan.c:326-423 | planning the built tree gives the scans of all tables in order, joined left-deep, every join as wide as its scans |
| JoinTree.PlanTables | src/sqlcore/plan/plan.c:109-143 | from range table to plan in one go |
| NestedLoop.ExecMergeRowData | src/sqlcore/executor/execNestLoop.c:183-228 | the merged buffer holds the left row's positions, then the right row's, within its width |
| NestedLoop.ExecNode.ExecInitNestLoopNode | src/sqlcore/executor/execNestLoop.c:30-49 | the join over two fresh children will yield the first outer row with all inner rows and every other one with those of a restarted inner scan, in a buffer of rtNum places |
| NestedLoop.ExecNode.ExecNestLoopScan | src/sqlcore/executor/execNestLoop.c:81-166 | each call yields the next row of that outer-major join, wherever the flags left the double loop |
| NestedLoop.ExecNode.ExecNodeProc | src/sqlcore/executor/executor.c:173-190 | pulling any node tree yields its rows one by one, then none |
| NestedLoop.ExecNode.ExecNodeReScan | src/sqlcore/executor/executor.c:192-203 | a scan starts over where the concrete rescan does, after its end no further back than the last directory page; the no-op rescan of a join changes nothing, and left-deep trees never call it |
| NestedLoop.InitExecNode | src/sqlcore/executor/execNestLoop.c:30-49 | the tree of a left-deep plan will yield the join of its tables |
| NestedLoop.YieldIsProduct | src/sqlcore/executor/execNestLoop.c:81-166 | for any tables, that is their cross product if and only if some table is empty or every table behind one with more than one row starts over from its first row; it never has more rows |
| NestedLoop.ProductAt | src/sqlcore/executor/execNestLoop.c:81-166 | each choice of one row per table is in the product at its rank, the last table varying fastest |
| NestedLoop.ProductHasRank | src/sqlcore/executor/execNestLoop.c:81-166 | every row of the product is such a choice |
| NestedLoop.RankInjective | src/sqlcore/executor/execNestLoop.c:81-166 | different choices have different ranks: each combination is met exactly once |
| Query.SelectState.ExecSelect | src/sqlcore/executor/execSelect.c:61-115 | the endless fetch-and-test loop ends at the next row that passes, or with none left, keeping what is still to be sent |
| Query.FetchTargetColumns | src/sqlcore/executor/execProject.c:157-221 | the targets of the row; if one is missing, the row projected before |
| Query.QueryState.ExecTableQuery | src/sqlcore/executor/execProject.c:98-151 | draining sends, in order, the projections of exactly the rows that pass |
| Query.TestedMeans | src/sqlcore/executor/execSelect.c:61-115 | the qualifier loop accepts a row iff one of the qualifiers holds of it |
| Query.OutputIsAnswer | src/sqlcore/executor/execProject.c:98-151 | where every qualifier has a meaning, nothing left in the shared cell shows, and what is sent is the answer if and only if every row that passes has its targets or the projection buffer happens to hold what was fetched of them |
| Query.FetchedAt | src/sqlcore/executor/execProject.c:157-221 | value k of what is projected is that of target k |
| Query.AllRowsAnswered | src/sqlcore/executor/execSelect.c:61-115 | without a qualifier every row is answered, in order |
| Query.AnswerAt | src/sqlcore/executor/execSelect.c:61-115 | the rows answered are, in their order, exactly those of which a qualifier holds |
| Query.ConnectivesAnswer | src/sqlcore/executor/execExpre.c:84-132 | with AND the rows answered are those of both qualifiers, with OR, as with a list of the two, those of either, with NOT the others |
| Query.MissingTargetRepeats | src/sqlcore/executor/execProject.c:157-221 | a row of an unscanned target whose late fetch fails is sent as the row projected before |
| Query.KindIsMeant | src/sqlcore/executor/execExpre.c:43-278 | a tree whose columns are known and whose operators are defined for the kinds of their operands has a value of its own kind, over every row that has the columns |
| Query.CheckedIsAnswered | src/sqlcore/executor/execProject.c:98-151 | a query that passes this check, which needs no data, gets its answer over any rows |
| Query.WrittenIsAnswered | src/sqlcore/executor/execSelect.c:61-115 | with qualifiers as written, that have kinds, none swapped and none between columns of one table, a row is sent exactly when one of them holds of it as it stands |
| Query.LessIsAnswered | src/sqlcore/executor/execSelect.c:61-115 | for one: where a < k, or a < b with columns of two tables, over integer columns |
| Query.LessThanIsSent | src/sqlcore/executor/execSelect.c:61-115 | the rows sent are then exactly those whose integer is below the other, in their order |
| Query.ExecutorMain | src/sqlcore/executor/executor.c:30-90 | draining the plan of any range table sends project(filter(join)), in outer-major order; a query that passes the check gets its answer, and over the cross product when the scans start over from their first rows |
| Framing.FramesRoundTrip | src/portal/netclient.c:113-202 | encoded frames followed by an incomplete one are read back as they were |
| Framing.FrameBytes | src/portal/netclient.c:204-209 | on the wire the kind comes first, then the size, each with its low byte first |
| Framing.FramesAppend | src/portal/netclient.c:113-202 | a stream may be split anywhere: the frames of the front, then those of its remainder and the rest |
| Framing.ParseConserves | src/portal/netclient.c:113-202 | a call keeps every byte if and only if the piece is empty, or it and the pending bytes are a bare header, or go on behind one whose size field is below 2048 |
| Framing.ClientContext.ParserMsg | src/portal/netclient.c:113-202 | the in-place method, with its offsets and status bits, is that parsing step |
| Framing.ClientContext.ReadMessage | src/tools/tsql/tsqlclient.c:172-217 | the drain loop is the specified draining, from every state that reads leave behind; what it reports as finished includes the message type a finished answer leaves |
| Framing.DrainKeepsFrames | src/tools/tsql/tsqlclient.c:191-205 | draining loses no frame, and leaves a whole one pending only behind a frame that ended the loop |
| Framing.DrainIsComplete | src/tools/tsql/tsqlclient.c:191-205 | one drain delivers every whole frame if and only if all but the last go on: neither PORT_MSG_FINISH nor empty |
| Framing.FinishedMeans | src/tools/tsql/tsqlclient.c:191-205 | over any run of reads, one reports the end of an answer exactly when it received it, or an earlier one did and all pieces since were too short to complete a header |
| Framing.NextAnswerFinishes | src/tools/tsql/tsqlclient.c:191-205 | behind a finished answer, a first piece of less than 8 bytes is lost and reported as a finished answer |
| Framing.EmptyFrameStops | src/tools/tsql/tsqlclient.c:191-205 | an empty frame does end it: a whole frame behind it stays pending |
| Framing.Reassembly | src/tools/tsql/tsqlclient.c:172-217 | over every chunking in which each piece, with what is pending, reaches a header: the whole frames of the stream are those delivered, then those still pending, in order and each once, whatever frames it holds; a whole frame is pending only behind one that ended the loop |
| Framing.DrainedBufferFits | src/portal/netclient.c:113-202 | with a drained buffer and reads of at most 2048 bytes the double buffer is never overrun |
| Spooky.MixAllAppend | src/util/hashtable/spooky-c.c:353-458 | mixing whole blocks piece by piece is mixing them at once |
| Spooky.BlocksMeet | src/util/hashtable/spooky-c.c:94-114 | mixing does not tell all blocks apart: two of them lead from one state to the same one |
| Spooky.WordInPlace | src/util/hashtable/spooky-c.c:353-458 | the eight bytes at place k of a block, and no others, are its word k |
| Spooky.LowByteFirst | src/util/hashtable/spooky-c.c:353-458 | within a word the low byte comes first |
| Spooky.PadTells | src/util/hashtable/spooky-c.c:460-510 | different rests are padded to different blocks |
| Spooky.SpookyState.Update | src/util/hashtable/spooky-c.c:353-458 | for every length of piece and stash: the state is the fold of mix over the blocks taken, the stash the rest, and the message grows by the piece |
| Spooky.SpookyState.Final | src/util/hashtable/spooky-c.c:460-510 | returns the hash of the whole message fed in and leaves the state usable |
| Spooky.HashPieces | src/util/hashtable/spooky-c.c:340-510 | init, update over any split, final: the same result for every split; for messages under 192 bytes with the seeds passed again it is the one-shot hash |
| Spooky.SpookyHash128 | src/util/hashtable/spooky-c.c:512-573 | the one-shot function hashes the whole blocks and nothing else |
| Spooky.ShortAgree | src/util/hashtable/spooky-c.c:460-510 | both interfaces agree on every message under 192 bytes |
| Spooky.IncrementalIsPaddedOneShot | src/util/hashtable/spooky-c.c:460-510 | from 192 bytes on the incremental hash is the one-shot hash of the whole blocks and the padded rest |
| Spooky.OneShotIgnoresTail | src/util/hashtable/spooky-c.c:512-573 | from 192 bytes on the one-shot hash does not depend on the bytes after the last whole block |
| Spooky.LongDisagree | src/util/hashtable/spooky-c.c:512-573 | on 192 zero bytes with zero seeds the two interfaces differ |
| SlottedPage.ItemSizeRoundTrip | src/sqlcore/storage/tables/tablecom.h:91-105 | an item's size and flags share a word without disturbing each other |
| SlottedPage.Page.WriteRowOnePage | src/sqlcore/storage/buffer/buffer.c:660-680 | an admitted record gets the next item index and every earlier one reads as before |
| SlottedPage.Page.ReplaceRowData | src/sqlcore/storage/tables/tables.c:350-368 | the columns are copied one after the other and nothing else on the page changes |
| SlottedPage.Page.WriteRowDataOnly | src/sqlcore/storage/buffer/buffer.c:767-779 | a record no larger than the old one is replaced in place, all others kept |
| SlottedPage.Page.RelocateRow | src/sqlcore/executor/execModifyTable.c:222-242 | a larger record moves below all others and its item follows it |
| SlottedPage.Page.UpdateRow | src/sqlcore/executor/execModifyTable.c:216-242 | which branch is taken, and that either way the item reads the new record |
| SlottedPage.Page.ReadRowData | src/sqlcore/storage/tables/tables.c:388-412 | every item index reads back the record last written to it |
| SlottedPage.LayoutAppend | src/sqlcore/storage/tables/tables.c:310-342 | a record below all others keeps the extents disjoint and inside the record area |
| SlottedPage.LayoutReplace | src/sqlcore/storage/tables/tables.c:350-368 | so does a smaller one in the place of another |
| SlottedPage.LayoutMove | src/sqlcore/executor/execModifyTable.c:222-242 | and one that moved |
| PaxTable.ExtendedInv | src/sqlcore/storage/buffer/buffer.c:799-843 | extending makes an empty group of fresh pages that no other group or column has |
| PaxTable.AppendedInv | src/sqlcore/storage/buffer/buffer.c:685-727 | appending a record to each member page appends the row: item k of every page still is row k |
| PaxTable.CellUpdatedInv | src/sqlcore/executor/execModifyTable.c:216-242 | updating a record on its page updates that cell of that row |
| PaxTable.PaxFile.ExtendGroup | src/sqlcore/storage/buffer/buffer.c:1821-1888 | the in-place extension adds one empty group |
| PaxTable.FitsMeans | src/sqlcore/storage/buffer/buffer.c:638-658 | the check admits a row exactly when every member page has room for its record, a record's header and an item |
| PaxTable.AppendedRoomy | src/sqlcore/storage/buffer/buffer.c:685-727 | an admitted row leaves no page with less than no room, nor with more than its records and items leave of an empty page |
| PaxTable.CellUpdatedRoomy | src/sqlcore/executor/execModifyTable.c:216-242 | nor does an update on its page |
| PaxTable.GrownRoomy | src/sqlcore/storage/buffer/buffer.c:799-843 | nor does extending |
| PaxTable.PaxFile.InsertRowDataWithGroup | src/sqlcore/storage/buffer/buffer.c:685-727 | all member pages get their record, and lose the room for it and an item, if each has that room; if one lacks it, none does; items never run into records |
| PaxTable.PaxFile.UpdateCell | src/sqlcore/executor/execModifyTable.c:216-242 | an update that fits its place or its page changes that cell of that row and no other; one that would leave the page changes nothing |
| PaxTable.PaxFile.ExecInsert | src/sqlcore/executor/execModifyTable.c:320-383 | the row goes to the first group from the last used one on that has room, else to a new group; each group passed over has a page that lacks room for its cell |
| PaxTable.FreshPage | src/sqlcore/storage/buffer/buffer.c:781-797 | a fresh page holds nothing, with the room that the table gives a page of a new group |
| PaxTable.InsertRecord | src/sqlcore/storage/buffer/buffer.c:660-680 | on a page in memory that holds the records and room of a member page, the insert of its record leaves the records and room the table then has |
| PaxTable.UpdateRecord | src/sqlcore/executor/execModifyTable.c:216-242 | and so does each branch of the update |
| PaxTable.NewGroupFits | src/sqlcore/storage/buffer/buffer.c:638-658 | a new group has room for every row whose cells fit an empty page |
| PaxScan.MemberPages | src/sqlcore/storage/buffer/buffer.c:1582-1656 | the single pass over a group's members finds all listed columns if and only if the list is ascending without repeats, and then the right pages |
| PaxScan.SeqScanState.GetGroupInfo | src/sqlcore/storage/buffer/buffer.c:1256-1350 | the search over directory pages yields the groups one by one, and keeps the last page's number at the end |
| PaxScan.SeqScanState.SeqScanNextColumnOpt | src/sqlcore/executor/scan/seqscan.c:158-248 | the next visible row of the group; all columns move past invisible rows together |
| PaxScan.SeqScanState.SeqscanNext | src/sqlcore/executor/scan/seqscan.c:75-142 | each call yields the next visible row across groups, then none |
| PaxScan.SeqScanState.ExecReSeqScan | src/sqlcore/executor/scan/seqscan.c:30-64 | what a rescan will yield: everything, or, after the end, the groups of the last directory page |
| PaxScan.RestartsAtFirst | src/sqlcore/executor/scan/seqscan.c:43-51 | a rescan after the end reaches the first group iff the directory has at most one page |
| PaxScan.ScanTable | src/sqlcore/executor/scan/seqscan.c:75-248 | after any inserts, extensions and updates a scan with an ascending column list yields every visible row once, in insertion order within each group; with any other list it yields nothing |
| PaxScan.AllVisibleAt | src/sqlcore/executor/scan/seqscan.c:158-248 | what a scan yields are the rows at ascending places of the table, column by column as read there, and no row is left out but those with a listed column that is not seen |
| PaxScan.ScanAgain | src/sqlcore/executor/scan/seqscan.c:30-142 | a scan to the end, a rescan and a scan to the end again: the second yields the visible rows of the groups on the last directory page, a tail of what the first yielded |
| TableReads.ScanIsAsOf | src/sqlcore/executor/scan/seqscan.c:158-248 | with every record the head of its cell's chain, a scan in any state of the engine yields the rows whose scanned cells all have a value as of the reader's snapshot and own writes, with these values |
| TableReads.SnapshotScan | src/sqlcore/executor/scan/seqscan.c:75-248 | the same of the scan over the pages of a table |
| TableReads.StepTogether | src/sqlcore/executor/execModifyTable.c:320-383 | inserting a row, updating or deleting a cell, or anything done to other tables keeps every record the head of its cell, and no cell at two places |
| TableReads.RunTogether | src/sqlcore/executor/execModifyTable.c:187-242 | so does every run of them |
| TableReads.TableForJoin | src/sqlcore/executor/scan/seqscan.c:30-142 | what the concrete scan and its rescan give a join: each scanned column is its own cell, a rescan goes on to the end, and from the first row if the directory has at most one page |
| TableReads.RowsComeFrom | src/sqlcore/executor/scan/scan.c:138-184 | every row handed to the join comes from one place of the table, in order, each of its columns the value read there under that column, for `Told` the value as of the reader's snapshot and own writes; no other place has all its scanned columns readable |
| TableReads.SelectFromFiles | src/sqlcore/executor/executor.c:30-90 | from the column pages of the tables to the rows sent: a query that passes the check gets its answer over the join of what the scans yield, and over the cross product if no directory has more than one page |
| TableReads.SelectAsOf | src/sqlcore/executor/executor.c:30-90 | the same for a worker of the engine: the rows joined are those as of its snapshot and own writes |
| PaxScan.TableIsStored | src/sqlcore/storage/buffer/buffer.c:685-727 | the pages of every reachable table are what the scan relies on |

## Left out

- Anomalies.ReuseMisclassifies: exhibits one family of states; which session reuses are harmless is `SnapshotExactness`.
- Mvcc.StepInv: asks that ids are not exhausted (the counter wraps at 2^64 - 1), that a new session comes to an idle worker, and that snapshots skip nothing at or below highLevelXtid (`SnapKeepsInv` says they have to); locks are taken as the boundaries of atomic steps.
- Mvcc.ReadsUntilFinish: covers columns the scan reads with its visibility check; late fetches of other columns read the head version unchecked.
- Versions.VersionStore.CurrentReadVersion: walks over version contents; the pins and locks it takes on undo pages are not modelled.
- Versions.VersionStore.ReadCell: takes the head record as given; the path from item to record is SlottedPage and PaxScan.
- HighLevel.Interleaving: atomics are sequentially consistent, one read or compare-and-swap a step.
- HashSizing.ShiftForPartitions: leaves out a table with one partition, where the mask's shift by 64 is undefined in C.
- HashTable.HashTableInfo.HashTableCreate: asks for a power of two of at least two partitions, as the only caller passes.
- HashTable.HashTableInfo.HashGetFreeEntry: keeps buffer numbers under page tags, the only use of the table, and takes any deterministic hash.
- BufferManager.BufferManager.AllocBuffer: runs one worker at a time; in interleaved code the HASH_FIND branch gives back a spare buffer that is still tagged, and no uniqueness is claimed there. It asks for a buffer that is free, empty or unpinned.
- BufferManager.BufferManager.WritePage: writes through a buffer of the pool, and file writes succeed.
- BufferCache.RunRefines: clients hold the pages they touch, and write or mark an edited page before giving it up (`EvictionKeepsStore` says why); InvalidateBuffer, which nothing calls, is not a step.
- ResourceOwner.PinsAccounted: one worker; the recycling of list nodes is not modelled.
- NestedLoop.ExecNode.ExecNodeReScan: leaf scans are taken by contract, which `TableForJoin` establishes for the concrete scan; the scan's own state is not inside the join's node.
- NestedLoop.ExecMergeRowData: position records are copied by value; their memory is not modelled.
- Expression.RunDenotes: operator tables are an uninterpreted, possibly failing function; columns standing directly under AND, OR or NOT have no meaning here.
- Qualifiers.BuiltMeans: starts from columns that are resolved to a table and attribute; a query with one that is not is refused before. Target lists and join flags of the nodes are not modelled.
- JoinTree.BuiltLeftDeep: the target lists pushed down to the tables are not modelled.
- JoinTree.PlanTables: merger entries, qualifiers as plan nodes, and insert, update and delete plans are not modelled.
- Query.ExecutorMain: sends succeed, the database does not change while the query runs, and the columns each scan reads are given.
- Framing.ClientContext.ParserMsg: a copy between overlapping areas is taken as a move, negative frame sizes (an unbounded copy in C) are excluded, and the result has to fit the double buffer, as `DrainedBufferFits` proves it does after a drain.
- Framing.Reassembly: the flow-control bit that callers keep beside the parser's own is not modelled; a piece that is too short is lost, as `ParseConserves` says. Streams with a negative frame size, or one that the parser refuses (2048 or more), are left out.
- Spooky.LongDisagree: one message of 192 bytes; for other messages of 192 bytes or more it is not said whether the two results agree. By `IncrementalIsPaddedOneShot` they do exactly when the one-shot hash does not tell the message from the same one padded to whole blocks.
- Spooky.BlocksMeet: one pair of blocks; which pairs meet is not characterised.
- Spooky.HashPieces: the hash of messages under 192 bytes is a parameter of both interfaces; lengths do not wrap.
- SlottedPage.Page.WriteRowOnePage: items are kept beside the page's bytes; the page invariant reserves the bytes they take.
- SlottedPage.Page.UpdateRow: leaves out records that move to another page: the redirect it writes is looked up on the same page, so nothing reads them back.
- PaxTable.PaxFile.ExecInsert: rows supply every column and their cells fit an empty page; a larger cell makes the code extend the file without end.
- SlottedPage.Page.WriteRowDataOnly: takes the record's offset from the item on the page; the code takes it from the scanned copy of the item, which is another one if the record was moved since the scan.
- PaxTable.PaxFile.UpdateCell: the file keeps for each page its records and the room between items and records; `InsertRecord` and `UpdateRecord` tie them to the bytes one page at a time.
- PaxScan.MemberPages: past the last member the code reads on in memory; page number 0, which no page has, is assumed there.
- PaxScan.ScanTable: pages and group directory do not change during a scan.
- Rows.GetColRowDataEx: what a late fetch finds is part of the row, and free: it reads the head version without a visibility check, or nothing if the page cannot be read.
- TableReads.ScanIsAsOf: how a record's bytes hold a tuple header is a parameter.
- TableReads.SelectFromFiles: each table has one column list, also if a query names it twice; data, snapshot and directories do not change while it runs.
- Qualifier rewriting in query.c, dictionary, table drop, restart loading, the memory pool, NSM storage: not part of this model.
- Sockets, epoll, threads, file descriptors, logging, lexer and grammar: not part of this model.
