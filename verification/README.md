# lwext4 in Dafny

A model of the parts of lwext4, the ext2/3/4 file system library, in which most can go wrong, and
proofs about them. Each part follows the C code branch by branch, the in-place updates included;
what the code promises is stated on the whole structure and not on the bytes it happens to touch.

- **Extents** (`Extent*.dfy`). The B+ tree of a file, on blocks that refer to each other. Inserting
  an extent (merging, leaf and index splits, growth in depth) and truncating (the walk up and down
  the path) refine the plain map from logical to physical blocks. The first key of a node, which no
  search compares, is a don't-care of the invariant (`ExtentTree.KeyOk`).
- **Journal** (`Journal*.dfy`). The ring of log blocks, descriptors and commit blocks, the
  checkpoint queue, and three-pass recovery. `JournalSession.Session` is the writer with the disk
  below it; its ghost field `trace` has the disk after every single write. Its invariant says that
  mounting any of these disks gives exactly the transactions committed by then, each as a whole.
  `JournalMount` runs the recovery on them.
- **Hashed directories** (`Dir*.dfy`). Leaf blocks as chains of records, and an index of one or two
  levels whose keys mark hashes that go on in the next leaf. Lookup agrees with a scan of all
  leaves; insertion, splits and growth keep every stored name findable.
- **Block cache** (`BlockCache.dfy`). Reference counts, LRU order, dirty list and nested
  write-back, transparent over the disk.
- **Allocators** (`Bitmap.dfy`, `BlockGroups.dfy`, `BlockAlloc.dfy`, `InodeAlloc.dfy`). Bitmaps and
  counters that agree, and searches that miss nothing.
- **Indirect blocks** (`IndirectMap.dfy`), **attribute blocks** (`XattrBlock.dfy`), **reading in
  runs** (`FileRead.dfy`) and the **exchange of argument blocks** by cycles (`Getopt.dfy`).

Memory that the source reaches by pointers is a map from block numbers to contents, red-black trees
are maps or sets, block numbers and counters are unbounded where no wrap-around is written out, and
the allocator that hands out metadata blocks is the sequence `pool` of what it will return, none of it
in use. Disk access succeeds and happens in program order. Byte order is the identity, and no
checksum feature is on.

## What the code does not do

Where the code falls short of what it is for, the model keeps the code, a lemma says exactly when it does
what it should, and another gives an input for which it does not.

- An extent that ends where the first extent of a file starts, on disk too, is merged with it but the
  old physical start is kept, so that both are read from the wrong blocks. Insertion is right if and
  only if this branch is not taken (`ExtentLeaf.InsertedExact`, `ExtentLeaf.MisplacedExample`).
- When the allocator fails in the middle of a split, the extents already moved to new blocks are
  dropped with those blocks, and the subtrees moved with them stay allocated. Nothing is lost if and only
  if the path stands on the last entry of every node that was cut (`ExtentAbort.AbortLoss`,
  `ExtentAbort.LossAfterCut`).
- Truncating at a block in a hole does nothing, so it is a truncation if and only if that block is
  mapped or nothing lies behind it (`ExtentCut.TruncateExact`, `ExtentCut.HoleExample`).
- A full log is made to have room by purging its first transaction. If all of that one had been written
  already, only the start in memory moves, and the block written after the next takes the place where the
  superblock on disk has the log begin. Until the superblock is written again, a crash keeps the committed
  transactions if and only if all blocks the queue waits for have their committed contents at home
  (`JournalSession.Session.PurgeOnce`, `JournalLoss.LostHead`, `JournalRuns.LostRun`). A first transaction
  gets into that state because `jbd_trans_end_write` looks whether it is the first before the older ones are
  taken off the queue (`JournalSession.Session.FlushBuf`, `JournalRuns.WrittenFirst`).
- The copy of a block in the log has its magic number taken out, and flushing a transaction writes that
  copy home as it is. Without a newer copy in the log that is right if and only if the block does not
  begin with the magic number (`JournalCopies.CopyHome`, `JournalCopies.CopyHomeExample`).
- `ext4_bmap_bit_find_clr` is documented to return the first clear bit. For one in a partial first byte
  it returns the start of the search (`Bitmap.AnswerClear`, `Bitmap.WrongAnswer`). The callers never
  get there (`BlockAlloc.Volume.GoalGroup`).
- A group descriptor that claims free inodes its bitmap does not have makes the inode allocator loop
  for ever (`InodeAlloc.TurnMoves`, `InodeAlloc.StuckTurn`).
- Freeing a block or an inode that is not in use makes the counters wrong
  (`BlockAlloc.Volume.FreeBlock`, `BlockAlloc.FreedTwice`, `InodeAlloc.Inodes.FreeInode`,
  `InodeAlloc.FreedAgain`).
- A directory leaf may have no room for a name and still be at most half full of live records; then
  there is no place to split it (`DirSplit.MidExists`, `DirSplit.Fragmented`). After a split the result
  of the second insertion is not looked at: success is reported without the entry if and only if its half
  has no room for it (`DirTree.Directory.AddEntry`, `DirIndex.NoFit`, `DirIndex.LossExample`).
- Invalidating a run of blocks forgets nothing if its first block is not cached, and everything for no
  blocks from a cached block 0 on, because the number of the last block wraps
  (`BlockCache.ForgottenExact`, `BlockCache.ForgottenExample`, `BlockCache.EmptyRunExample`).
- When the index of a directory has no room and cannot get any, adding an entry ends with releasing a target
  block that has not been fetched (`DirTree.Directory.AddEntry`, `DirTree.NoBlockExample`).
- The length of an attribute's name is stored in one byte and never checked, so that an attribute can be
  read back if and only if its name has at most 255 characters (`XattrBlock.Attributes.SetEntry`,
  `XattrBlock.LongNameExample`).
- Replacing an attribute's value moves the offsets of empty values, which must be 0
  (`XattrBlock.EmptyShifted`, `XattrBlock.EmptyExample`).

## Model

| member | source | states |
|---|---|---|
| ExtentEntries.ViewAt | lwext4/src/ext4_extent.c:2042-2075 | in a sorted sequence the extent that covers a block is the only one, and decides where the block is mapped |
| ExtentInode.BinSearch | lwext4/src/ext4_extent.c:804-853 | the last entry not after the block, or the first entry, whose key is never compared |
| ExtentInode.Inode.constructor | lwext4/src/ext4_extent.c:378-394 | an empty file is a proper tree that maps nothing |
| ExtentInode.Inode.FindExtent | lwext4/src/ext4_extent.c:855-939 | the path from the root by binary search in every node, down to a leaf on level 0 |
| ExtentTrim.SearchMapped | lwext4/src/ext4_extent.c:855-939 | the extent a search ends at covers the block if and only if the file maps it, and then says where to |
| ExtentInode.Inode.CorrectIndexes | lwext4/src/ext4_extent.c:1148-1192 | the keys that lead straight down to the changed first extent get its first block, no other key changes |
| ExtentInode.Inode.InsertLeaf | lwext4/src/ext4_extent.c:1250-1346 | append, prepend, add or report a full leaf: the leaf afterwards and the keys corrected; a full leaf is reported only if the current extent and the new one do not join, or must not be joined |
| ExtentLeaf.ActionEffect | lwext4/src/ext4_extent.c:1250-1346 | every branch that changes the leaf leaves all extents of the file sorted and adds the new range to the map, the prepend branch excepted |
| ExtentLeaf.ActionGrows | lwext4/src/ext4_extent.c:1250-1346 | seen from the whole file: a leaf is split if and only if it is full and the extent joins none of the file, or must not; otherwise one extent is longer, or the extent is one more in its place |
| ExtentLeaf.AppendExample | lwext4/src/ext4_extent.c:1268-1297 | a full root leaf whose last extent the new one goes on from is not split, unless merging is forbidden |
| ExtentLeaf.ApartIff | lwext4/src/ext4_extent.c:1430-1514 | an extent overlaps no other if and only if it and the file have no block in common |
| ExtentLeaf.InsertedExact | lwext4/src/ext4_extent.c:1268-1293 | the file maps the old blocks as before and the new ones as asked if and only if the prepend branch is not taken |
| ExtentLeaf.MisplacedExample | lwext4/src/ext4_extent.c:1279-1293 | block 9 put in disk block 109 before block 10 in 110 is then read from 110, and block 10 from 111 |
| ExtentInsert.AfterFits | lwext4/src/ext4_extent.c:1250-1346 | the new first extent of a leaf fits under the keys above it, or the keys are corrected |
| ExtentInsert.PutLeafHeld | lwext4/src/ext4_extent.c:1148-1346 | new leaf content and corrected keys leave a proper tree: same blocks, keys right on all levels |
| ExtentInsert.LeafDone | lwext4/src/ext4_extent.c:1250-1346 | inserting into the leaf a search ended in keeps the whole tree proper and the map as inserted |
| ExtentRoom.SplitNotMisplaced | lwext4/src/ext4_extent.c:1430-1514 | an extent that needs a split is never one the prepend branch would have misplaced |
| ExtentRoom.SplitExact | lwext4/src/ext4_extent.c:1430-1514 | at the end of a search path the leaf is split if and only if it is full and the extent joins none of the file, or must not |
| ExtentInode.Inode.GrowInDepth | lwext4/src/ext4_extent.c:1356-1418 | the root's content moves one level down, nothing else changes; without a free block nothing at all |
| ExtentGrow.GrownHeld | lwext4/src/ext4_extent.c:1356-1418 | the grown tree is proper, with the same extents and one more block |
| ExtentGrow.FoundGrown | lwext4/src/ext4_extent.c:1480-1490 | a search in the grown tree takes one step more and then the old path |
| ExtentGrow.FoundUnique | lwext4/src/ext4_extent.c:855-939 | a block has one search path only |
| ExtentInode.Inode.InsertIndex | lwext4/src/ext4_extent.c:950-1004 | the new index stands right behind or before the position, a full node or an equal key is refused unchanged |
| ExtentInode.Inode.CutLevel | lwext4/src/ext4_extent.c:1045-1105 | one node of the path cut after its current entry, the rest linked into a fresh block |
| ExtentInode.Inode.CutLevels | lwext4/src/ext4_extent.c:1040-1107 | all levels cut from the leaf upwards, or the allocator failed at a level |
| ExtentSplitDone.WholeSorted | lwext4/src/ext4_extent.c:1006-1141 | left part, new extent where it opens the right part, and right part are in order and map what they should |
| ExtentSplitDone.KeyBefore | lwext4/src/ext4_extent.c:1109-1121 | the key of the right half is beyond the key of the left, so the new index goes behind it |
| ExtentSplitDone.SplitDone | lwext4/src/ext4_extent.c:1006-1141 | with both halves linked above, the tree is proper and holds every old extent and nothing twice |
| ExtentSplitDone.JoinTree | lwext4/src/ext4_extent.c:1107-1121 | what the split leaves, on the blocks: proper once the new leaf is filled, and the path to go on with |
| ExtentSplitDone.SplitAbort | lwext4/src/ext4_extent.c:1122-1138 | a split given up after a level was cut: a proper tree whose extents are the old ones without those right of the path from that level on, and no block of the tree in it twice |
| ExtentSplitDone.ViewDrop | lwext4/src/ext4_extent.c:1122-1138 | dropping a run of extents takes exactly its blocks out of the map, so nothing is lost if and only if the run is empty |
| ExtentAbort.BackNone | lwext4/src/ext4_extent.c:1040-1107 | nothing lies right of the path from a level on if and only if it stands on the last entry of every node there |
| ExtentInode.Inode.SplitNode | lwext4/src/ext4_extent.c:1006-1141 | a split over any number of levels, and which half the new extent belongs to; on ENOSPC exactly what was right of the path in the levels cut is gone, the new blocks are given back, and with an empty pool nothing changes |
| ExtentRoom.OldLeafDone | lwext4/src/ext4_extent.c:1430-1514 | a try at the end of a search path inserts the extent or reports a full leaf and changes nothing |
| ExtentRoom.NewLeafDone | lwext4/src/ext4_extent.c:1430-1514 | the second try at the new leaf inserts the extent |
| ExtentInode.Inode.MakeRoom | lwext4/src/ext4_extent.c:1455-1505 | the lowest node with room is found, the tree grown if there is none, and split below it, so that the next try has room; ENOSPC if and only if the pool is shorter than the run of full nodes at the end of the path |
| ExtentInode.Inode.InsertExtent | lwext4/src/ext4_extent.c:1430-1514 | for every proper tree and extent apart from it: a proper tree whose map is the old one with the extent inserted, after at most one retry, without leaking a block; an extent that goes on from one of the file, in the file and on disk, makes that one longer and takes no block; any other is one extent more; ENOSPC if and only if the leaf is full, the extent joins none of the file or must not, and the pool is shorter than the run of full nodes, and then the tree is what an abandoned split leaves |
| ExtentAbort.AbortLoss | lwext4/src/ext4_extent.c:1122-1138 | an abandoned insertion loses exactly the mappings right of the path below the highest cut, none if and only if the path stands on the last entry of every node cut; the blocks of the dropped subtrees, and no others, stay allocated without being in the tree |
| ExtentAbort.LossAfterCut | lwext4/src/ext4_extent.c:1122-1138 | a full leaf under a full node and one free block: inserting block 3 loses blocks 4, 6 and 8 |
| ExtentInode.Inode.GetBlocks | lwext4/src/ext4_extent.c:2013-2139 | a mapped block is found with the run behind it, up to the end of its extent or as many as asked for; an unmapped one is left alone or gets the next free block; when that cannot be inserted the map loses what an abandoned split loses and nothing else |
| ExtentCut.CutView | lwext4/src/ext4_extent.c:1579-1685 | the parts of the extents below a block map exactly what was mapped below it, the other parts the rest |
| ExtentTrim.LeafLow | lwext4/src/ext4_extent.c:1600-1665 | cutting a leaf from its position shortens at most one extent, and keeps its first |
| ExtentInode.Inode.CutEntries | lwext4/src/ext4_extent.c:1600-1665 | the data blocks given back are those of the cut extents from the block on, in order |
| ExtentInode.Inode.RemoveIdx | lwext4/src/ext4_extent.c:1532-1577 | the index goes, its block is given back once, and the key moves up while the first entry changed |
| ExtentZip.RekeyStored | lwext4/src/ext4_extent.c:1555-1575 | setting keys upwards on the blocks is setting them in the open nodes, no other block changes |
| ExtentInode.Inode.RemoveLeaf | lwext4/src/ext4_extent.c:1579-1685 | the leaf keeps what is below the block, and goes with its index if that is nothing |
| ExtentTrim.EnterNode | lwext4/src/ext4_extent.c:1785-1812 | opening the next child keeps the invariant of the walk, with one node less to visit |
| ExtentTrim.CloseKept | lwext4/src/ext4_extent.c:1813-1830 | a node that keeps children is closed, the walk goes on above it |
| ExtentTrim.CloseDropped | lwext4/src/ext4_extent.c:1813-1830 | an emptied node is given back once, with its index |
| ExtentTrim.WalkDone | lwext4/src/ext4_extent.c:1832-1844 | when the walk is over, the root is reset if nothing is left, and all blocks and extents are accounted for |
| ExtentCut.TruncateExact | lwext4/src/ext4_extent.c:1704-1740 | doing nothing for an unmapped block is truncating there if and only if nothing lies behind it |
| ExtentCut.HoleExample | lwext4/src/ext4_extent.c:1704-1740 | a file with block 5 only, cut off at block 3, keeps block 5 |
| ExtentInode.Inode.RemoveSpace | lwext4/src/ext4_extent.c:1704-1844 | from a mapped block on: the map is the old one below it, the data blocks given back are exactly the others, each emptied tree block is given back exactly once and no other; from a hole nothing changes; it terminates |
| JournalTags.WriteTag | lwext4/src/ext4_journal.c:723-802 | a tag that fits is read back as written, its words are block number and flags, and nothing before it is touched; one that does not fit is refused |
| JournalTags.GetTagSame | lwext4/src/ext4_journal.c:646-716 | reading a tag depends on its own words only |
| JournalTags.ReadBack | lwext4/src/ext4_journal.c:812-852 | the tags of a descriptor are read back exactly as written, whatever lies behind them |
| JournalLog.ScanAll | lwext4/src/ext4_journal.c:1061-1209 | the scan counts exactly the committed transactions |
| JournalLog.RevokesRead | lwext4/src/ext4_journal.c:998-1030 | what is read from a revoke block is what it lists, word by word: the byte count in its header, then every number, of 32 bits or of 64 with the high word first |
| JournalLog.RevokeExample | lwext4/src/ext4_journal.c:998-1030 | a revoke block of five words that lists block 7, and one of six words for 64-bit numbers |
| JournalLog.TableMeans | lwext4/src/ext4_journal.c:955-1030 | the revoke table holds an id not before a transaction's if and only if that or a later transaction revokes the block |
| JournalLog.RecoveredEffect | lwext4/src/ext4_journal.c:1214-1253 | on every log the writer can leave, the three passes do what a fold over the committed transactions does, leaving out what is revoked, and nothing of an unfinished one |
| JournalLog.LogExample | lwext4/include/ext4_types.h:609-716 | a log written out word by word: a descriptor with two tags, one of an escaped block, both data blocks, a commit block, a revoke block of a second transaction and its commit block; recovery puts the escaped block back as it was and leaves the revoked one alone |
| JournalRing.PosNext | lwext4/src/ext4_journal.c:100-104 | stepping with wrap walks the ring and is back at the start exactly once around |
| JournalRing.PosDistinct | lwext4/src/ext4_journal.c:100-104 | different places of the log seen from its start are different blocks of the ring |
| JournalRecover.Recovery.SkipTags | lwext4/src/ext4_journal.c:951-976 | counting tags moves the cursor as far as replaying them does |
| JournalRecover.Recovery.ReplayBlock | lwext4/src/ext4_journal.c:879-949 | a logged block is put back, its magic number restored, unless revoked by this or a later transaction |
| JournalRecover.Recovery.ReplayDescriptor | lwext4/src/ext4_journal.c:812-949 | all blocks of a descriptor put back in order, the cursor behind them |
| JournalRecover.Recovery.BuildRevokeTree | lwext4/src/ext4_journal.c:998-1030 | every listed block gets the current transaction's id in the table; what is listed is said by `JournalLog.RevokesRead` |
| JournalRecover.HoldsInRange | lwext4/src/ext4_journal.c:1061-1209 | on every log the writer can leave, each pass ends within one turn around the ring |
| JournalRecover.Recovery.IterateLog | lwext4/src/ext4_journal.c:1061-1209 | a pass stops behind the last committed transaction, with the table and home blocks of that pass |
| JournalRecover.Recovery.Recover | lwext4/src/ext4_journal.c:1214-1253 | after the three passes the home blocks are the effect of the committed transactions without what a revoke block lists, word by word; the log is unchanged, and its start is 0 |
| JournalMount.Mount | lwext4/src/ext4_journal.c:1214-1253 | mounting a disk as a session leaves it at some moment gives the effect of the transactions committed by then, each as a whole |
| JournalMount.CrashAndMount | lwext4/src/ext4_journal.c:1611-2256 | after a crash behind any write of any session, mounting gives the effect of exactly the transactions committed by that write; behind the last write, of all of them |
| JournalMount.NewIds | lwext4/src/ext4_journal.c:1267-1306 | the log has no record of the ids a session begins with after recovery if and only if no descriptor of the interrupted transaction was written, or no committed one was in the log |
| JournalMount.PowerCut | lwext4/src/ext4_journal.c:1214-1306 | in that case a session that is cut off, recovered and begun anew is at rest, with everything committed at home |
| JournalCrash.LiveEnough | lwext4/src/ext4_journal.c:1214-1253 | replaying the transactions still in the log over home blocks that only they may have left behind gives the whole committed state |
| JournalCrash.CrashRecovers | lwext4/src/ext4_journal.c:1214-1253 | recovery from such a disk gives exactly the effect of all committed transactions |
| JournalGrow.DescWritten | lwext4/src/ext4_journal.c:1806-1992 | writing a descriptor over its data blocks makes them one part of the running transaction |
| JournalGrow.CommitWritten | lwext4/src/ext4_journal.c:1770-1800 | the commit block turns the running transaction into a committed one, all at once |
| JournalGrow.StartMoved | lwext4/src/ext4_journal.c:1367-1411 | the log seen from the start of a later transaction holds the transactions from there on, and the unfinished one behind them |
| JournalDisk.OkCrash | lwext4/src/ext4_journal.c:1214-1253 | a crash on a disk that meets the invariant recovers to the committed transactions |
| JournalDisk.SafeMore | lwext4/src/ext4_journal.c:1611-1663 | one more write that leaves a good disk keeps all moments of the run recoverable, and takes no commit back |
| JournalLoss.LostHead | lwext4/src/ext4_journal.c:1367-1411 | with the first block of the log overwritten while the superblock has it begin there, the committed transactions survive a crash if and only if every block still waiting in the queue has its committed contents at home |
| JournalRuns.WrittenFirst | lwext4/src/ext4_journal.c:2101-2153 | a run: two transactions log one block, the second copy is written home, and the queue is left with a first transaction that waits for nothing |
| JournalRuns.LostRun | lwext4/src/ext4_journal.c:1455-1472 | the run goes on: a third transaction logs the block, the log fills up, the next block is written over the start of the log; a crash behind that write loses the third transaction |
| JournalDisk.OkCommit | lwext4/src/ext4_journal.c:1770-1800 | writing the commit block leaves a good disk with one more transaction |
| JournalWriter.OpenMore | lwext4/src/ext4_journal.c:1870-1965 | one more tag in an open descriptor and its data block behind it |
| JournalWriter.OpenFull | lwext4/src/ext4_journal.c:1880-1925 | a descriptor in which a tag does not fit holds as many tags as were reserved for |
| JournalWriter.NeedIs | lwext4/src/ext4_journal.c:1806-1992 | logging takes one block for each buffer and one for each descriptor begun, and no more descriptors than it takes to hold the tags |
| JournalWriter.DirtyIff | lwext4/src/ext4_journal.c:1806-1866 | what is to be logged are the dirty buffers and no others |
| JournalWriter.Closed | lwext4/src/ext4_journal.c:1968-1992 | a closed descriptor is read back with its data blocks as the buffers logged |
| JournalQueue.HomeDone | lwext4/src/ext4_journal.c:1367-1411 | once all buffers of the first transactions are written, the log may start behind them |
| JournalQueue.QueueMore | lwext4/src/ext4_journal.c:2225-2250 | a committed transaction joins the queue with all its buffers pending |
| JournalQueue.QueueHome | lwext4/src/ext4_journal.c:2101-2153 | while a copy of a block is pending, nothing depends on what is at its home |
| JournalSession.Session.constructor | lwext4/src/ext4_journal.c:1267-1306 | a new session on a log with no record of its ids is safe |
| JournalCopies.ArcsApart | lwext4/src/ext4_journal.c:1455-1472 | no two transactions of the queue have a block of the ring in common |
| JournalCopies.ArcFree | lwext4/src/ext4_journal.c:1455-1472 | a place behind the live transactions is in no arc of the queue |
| JournalSession.Session.AllocBlock | lwext4/src/ext4_journal.c:1455-1472 | the next log block is in no arc of the queue, neither before nor after; when it is the last one free, the first transaction is flushed, and the ring is not full afterwards |
| JournalSession.Session.PurgeOnce | lwext4/src/ext4_journal.c:1367-1411 | a full log has room again after purging the first transaction; with buffers to write they go home first and the superblock follows; without any it leaves memory only, and then the next write is harmless if and only if all that the queue waits for is at home |
| JournalSession.Session.FlushTrans | lwext4/src/ext4_journal.c:1315-1352 | all buffers of the first transaction go home, from the cache or from the log, and it leaves the log; a crash behind any of the writes is harmless |
| JournalCopies.CopyIsWant | lwext4/src/ext4_journal.c:1315-1352 | a copy in the log that no later transaction replaces is the committed content of its block, if that does not begin with the magic number |
| JournalCopies.CopyHome | lwext4/src/ext4_journal.c:1330-1342 | writing a copy home as it lies in the log is right if and only if the block does not begin with the magic number |
| JournalCopies.CopyHomeExample | lwext4/src/ext4_journal.c:1330-1342 | a block of magic numbers logged once and flushed from the log begins with 0 at home, and mounting does not put it right |
| JournalSession.Session.LogItem | lwext4/src/ext4_journal.c:1870-1965 | a buffer logged with its tag, the last one marked, an old magic number taken out |
| JournalSession.Session.Prepare | lwext4/src/ext4_journal.c:1806-1992 | for buffers dirty or clean in any order exactly the dirty ones are logged, in order, over as many descriptors as needed, with the last tag marked |
| JournalSession.Session.WriteCommitBlock | lwext4/src/ext4_journal.c:1770-1800 | one write commits the transaction; before it none, after it all of it is recovered; allocating the block may flush the queue first |
| JournalSession.Session.CommitTrans | lwext4/src/ext4_journal.c:2159-2256 | exactly the dirty buffers become one committed transaction at the end of the queue, also if the log fills up on the way; it takes one block for each, one for each descriptor and the commit block; with room for it nothing is flushed; every disk from the call to the commit block recovers to the old transactions, every later one to all |
| JournalSession.Session.Enqueue | lwext4/src/ext4_journal.c:2225-2250 | the queue describes the log again, its transactions lying one behind the other in id order |
| JournalSession.Session.Purge | lwext4/src/ext4_journal.c:1367-1411 | the start moves over fully written transactions only, up to one that waits |
| JournalSession.Session.EndWrite | lwext4/src/ext4_journal.c:2101-2153 | a buffer written home is taken off its transaction, all others stay; a first transaction that is all written leaves the log with those behind it that are |
| JournalSession.Session.FlushBuf | lwext4/src/ext4_journal.c:1524-1589 | writing the newest copy home ends the wait of all copies of the block and no other wait, transactions that are all written leave the queue, the owner only if it was first at the call; any crash in between is harmless |
| JournalSession.Session.FlushOld | lwext4/src/ext4_journal.c:1328-1343 | writing a copy of the first transaction home from the log, escaped as it is, is harmless if a newer one is in the log or the block does not begin with the magic number |
| DirBlock.TryInsert | lwext4/src/ext4_dir.c:580-652 | the first record with room gets the entry, cut off behind a live one or in place of an unused one; the chain stays whole, exactly the entry is added, and no gap is left; ENOSPC if and only if no record has room |
| DirBlock.FindInBlock | lwext4/src/ext4_dir.c:654-695 | a name is found if and only if a live record has it |
| DirBlock.Remove | lwext4/src/ext4_dir.c:527-578 | the chain stays whole, exactly the entry goes, its bytes go to the record before it, and no gap is left |
| DirBlock.FreedFits | lwext4/src/ext4_dir.c:546-571 | after a removal an entry fits if and only if it did before, or needs no more than the record removed and what the one before it had to spare, in one piece |
| DirBlock.LiveIff | lwext4/src/ext4_dir.c:654-695 | an entry is counted if and only if some live record holds it |
| DirSplit.LoadEntries | lwext4/src/ext4_dir_idx.c:918-955 | the live records and no others, cut to the size they need |
| DirSplit.Sort | lwext4/src/ext4_dir_idx.c:957-958 | the same entries in order of their hashes |
| DirSplit.MidExists | lwext4/src/ext4_dir_idx.c:975-987 | there is a place to split if and only if the live records take more than half a block |
| DirSplit.Fragmented | lwext4/src/ext4_dir_idx.c:975-987 | a block without room for a name of 255 characters whose live records take 48 bytes of 1024 |
| DirSplit.FindMid | lwext4/src/ext4_dir_idx.c:960-987 | the first record with which the lower half is more than half a block |
| DirSplit.Pack | lwext4/src/ext4_dir_idx.c:1000-1045 | records laid out one behind the other, the last one reaching to the end of the block |
| DirSplit.PackedRoom | lwext4/src/ext4_dir_idx.c:1000-1045 | a packed block has room for a record if and only if the sizes add up to at most the block |
| DirIndex.NotBefore | lwext4/src/ext4_dir_idx.c:535-636 | a name is in no leaf before the one its search ends at, and all leaves up to its own are marked as continued |
| DirIndex.HalvesOk | lwext4/src/ext4_dir_idx.c:894-1067 | split at a record, even among equal hashes, both halves hold only hashes of their range and together every entry once |
| DirIndex.LeafSplit | lwext4/src/ext4_dir_idx.c:894-1067 | a split leaf keeps the keys sorted, every name in the range of its leaf, and the entries of the directory as they were |
| DirIndex.NodeCut | lwext4/src/ext4_dir_idx.c:1120-1195 | cutting an index node changes no leaf's place or key |
| DirIndex.RootMoved | lwext4/src/ext4_dir_idx.c:1196-1225 | moving the root one level down changes no leaf's place or key |
| DirIndex.NodeInsert | lwext4/src/ext4_dir_idx.c:864-885 | a new index entry is one new leaf behind the one it was split from |
| DirIndex.Divide | lwext4/src/ext4_dir_idx.c:894-1067 | the entries of a leaf shared out to two blocks without gaps, the key marked if a hash straddles them; each block has room for exactly what fits beside its share |
| DirIndex.LiveAllIff | lwext4/src/ext4_dir_idx.c:714-831 | a scan of all leaves finds an entry if and only if some leaf has it |
| DirIndex.NoFit | lwext4/src/ext4_dir_idx.c:1320-1350 | an entry that does not fit after a split belongs to the upper part, and with the middle record takes more than half a block: only with blocks of 1024 bytes and names of 245 characters or more |
| DirIndex.LossExample | lwext4/src/ext4_dir_idx.c:1320-1350 | a full leaf cut into 252 and 772 bytes has no room for a name of 248 characters in the upper part |
| DirTree.Directory.Probe | lwext4/src/ext4_dir_idx.c:575-597 | the last entry whose hash is not above the one looked for, the first counting as lowest |
| DirTree.Directory.GetLeaf | lwext4/src/ext4_dir_idx.c:535-636 | the leaf where a hash may begin, over one or two levels |
| DirTree.Directory.NextBlock | lwext4/src/ext4_dir_idx.c:645-712 | goes on to the next leaf if and only if its key continues the hash |
| DirTree.Directory.FindEntry | lwext4/src/ext4_dir_idx.c:714-831 | a name is found if and only if a scan of all leaves finds it; it terminates |
| DirTree.Directory.SplitIndex | lwext4/src/ext4_dir_idx.c:1075-1230 | room in the node a path ends in; ENOSPC if and only if that node is full and there is no free block or the root on top is full too, and then nothing changes; the leaves and their keys stay |
| DirTree.Directory.SplitData | lwext4/src/ext4_dir_idx.c:894-1067 | a leaf split in two with its index entry: still a valid directory with the same entries, no gaps if there were none, all other leaves as they were; ENOSPC if and only if there is no free block |
| DirTree.Directory.AddEntry | lwext4/src/ext4_dir_idx.c:1232-1364 | a valid directory with exactly the entry added, through any splits; ENOSPC if and only if index or leaf need a block there is none for; success without the entry if and only if its half of the split leaf has no room for it; the release of a block never fetched if and only if the index has no room and cannot get any; leaves without gaps stay so |
| DirTree.NoBlockExample | lwext4/src/ext4_dir_idx.c:1290-1345 | two empty leaves under a full root, and no free block: that release happens although the leaf has room |
| DirTree.Directory.RemoveEntry | lwext4/src/ext4_dir.c:527-578 | exactly one record with the name goes, no other entry changes; the freed bytes can be used again in one piece with what the record before had to spare; leaves without gaps stay so |
| BlockCache.Cache.constructor | lwext4/src/ext4_bcache.c:70-83 | an empty cache shows the disk |
| BlockCache.Cache.FlushBuf | lwext4/src/ext4_blockdev.c:146-173 | a dirty buffer is written, clean and off the list; what the device shows stays |
| BlockCache.Cache.DropBuf | lwext4/src/ext4_bcache.c:161-179 | one buffer less; what the device shows stays unless it was dirty |
| BlockCache.Cache.Shake | lwext4/src/ext4_blockdev.c:188-213 | a cache that is not full is left alone; otherwise only unused buffers go, all older than every unused one that stays, and no more than it takes to have room, or all if that is too few |
| BlockCache.Cache.FindGet | lwext4/src/ext4_bcache.c:208-232 | one reference more with a new LRU id, off the LRU tree and the dirty list |
| BlockCache.Cache.Alloc | lwext4/src/ext4_bcache.c:234-268 | the buffer of a block with a reference and a new LRU id, new and not valid if there was none; all others stay |
| BlockCache.Cache.Free | lwext4/src/ext4_bcache.c:270-315 | one reference less; the last one writes a dirty buffer, or lists it while write-back is on, and drops one that is not valid or temporary; nothing else is written; what the device shows stays |
| BlockCache.Cache.GetNoread | lwext4/src/ext4_blockdev.c:215-244 | a reference, buffers in use unchanged, the disk and all others too if the cache is not full, ENXIO beyond the device |
| BlockCache.Cache.Get | lwext4/src/ext4_blockdev.c:246-270 | the caller sees what was last written to the block, cached or not; nothing is written or evicted if the cache is not full |
| BlockCache.Cache.Write | lwext4/include/ext4_bcache.h:176-179 | a change by a holder is what the device shows from then on |
| BlockCache.Cache.InvalidateBuf | lwext4/src/ext4_bcache.c:181-192 | the device shows the disk again for the block; the buffer stays, with its references, neither valid nor dirty |
| BlockCache.Cache.InvalidateLba | lwext4/src/ext4_bcache.c:194-206 | the same for a run, if its first block is cached, up to its last block, a 64-bit number that wraps |
| BlockCache.ForgottenExact | lwext4/src/ext4_bcache.c:194-206 | a run and nothing else is forgotten if and only if its first block is cached and its last one has not wrapped, or nothing concerned differs from the disk |
| BlockCache.ForgottenExample | lwext4/src/ext4_bcache.c:194-206 | blocks 0 and 1 invalidated with only block 1 cached: its new content stays |
| BlockCache.EmptyRunExample | lwext4/src/ext4_bcache.c:194-206 | no blocks invalidated from a cached block 0 on: the new content of block 1 is gone |
| BlockCache.Cache.FlushLba | lwext4/src/ext4_blockdev.c:175-186 | afterwards the disk has what the device shows for the block |
| BlockCache.Cache.CacheFlush | lwext4/src/ext4_blockdev.c:446-458 | every buffer on the dirty list is written and clean, the list is empty, and no other buffer changes |
| BlockCache.Cache.WriteBack | lwext4/src/ext4_blockdev.c:460-473 | the depth of nesting counts up and down in 32 bits; when it is back at 0, every unused valid buffer equals its disk block, and without users the disk is what the device shows |
| BlockCache.AllOnDisk | lwext4/src/ext4_blockdev.c:460-473 | the invariant with write-back off says so |
| BlockCache.Cache.Cleanup | lwext4/src/ext4_bcache.c:85-92 | an empty cache over a disk that has everything |
| Bitmap.BitsFree | lwext4/src/ext4_bitmap.c:45-88 | exactly the bits of the run are cleared, by bits, words and bytes |
| Bitmap.BitFindClr | lwext4/src/ext4_bitmap.c:90-158 | none if and only if all bits are set, else the first clear bit, or the start if that bit lies in a partial first byte |
| Bitmap.AnswerClear | lwext4/src/ext4_bitmap.c:90-158 | the answer is a clear bit if and only if the first clear bit is the start or lies behind the partial byte |
| Bitmap.WrongAnswer | lwext4/src/ext4_bitmap.c:101-112 | bits 1 and 3 of four set, 2 clear: a search from 1 answers 1 |
| Bitmap.ZerosCleared | lwext4/src/ext4_bitmap.c:45-88 | clearing a run of set bits frees as many as it is long |
| BlockGroups.AddrRoundTrip | lwext4/include/ext4_fs.h:94-117 | group and index give the address back, but for block 0 when blocks count from 1 |
| BlockGroups.IdxRoundTrip | lwext4/include/ext4_fs.h:94-117 | an address gives its group and index back |
| BlockGroups.Located | lwext4/src/ext4_super.c:51-74 | every block of the volume has a group and an index within it |
| BlockGroups.Inside | lwext4/src/ext4_super.c:51-74 | every index of a group is a block of the volume |
| BlockGroups.UsedWith | lwext4/src/ext4_balloc.c:415-422 | changing a block's bit changes the state of that block only |
| BlockGroups.BitCounted | lwext4/src/ext4_balloc.c:185-215 | counter and bitmap stay equal if and only if the bit really changed |
| BlockGroups.FullVolume | lwext4/src/ext4_balloc.c:479-549 | the free counts are all 0 if and only if every block is in use |
| BlockGroups.RunCut | lwext4/src/ext4_balloc.c:258-291 | where a run leaves its first group |
| BlockGroups.RunCleared | lwext4/src/ext4_balloc.c:283-333 | a run in one group freed: the counter grows by its length, exactly its blocks are free |
| BlockAlloc.Volume.GoalGroup | lwext4/src/ext4_balloc.c:360-470 | the first clear bit of the goal's group from the goal on, and none if and only if all are set; the search never meets the partial byte |
| BlockAlloc.Volume.AllocBlock | lwext4/src/ext4_balloc.c:352-579 | of all free blocks the one that comes first: from the goal to the end of its group, then group by group, going on from group 0 behind the last; all counters follow; ENOSPC if and only if no block is free |
| BlockAlloc.Volume.TryAllocBlock | lwext4/src/ext4_balloc.c:581-661 | the block if and only if it is free |
| BlockAlloc.Volume.FreeBlock | lwext4/src/ext4_balloc.c:152-231 | the counters are right afterwards if and only if the block was in use |
| BlockAlloc.FreedTwice | lwext4/src/ext4_balloc.c:185-215 | freeing a free block makes a group of eight claim nine free ones |
| BlockAlloc.Volume.FreeBlocks | lwext4/src/ext4_balloc.c:233-350 | exactly the run is free, over any number of groups, all counters follow, and count ends at 0 |
| InodeAlloc.TurnMoves | lwext4/src/ext4_ialloc.c:239-359 | a turn of the search makes progress if and only if the group's counter does not promise what its bitmap lacks |
| InodeAlloc.StuckTurn | lwext4/src/ext4_ialloc.c:239-359 | a group that claims one free inode with all in use: the search comes back to where it was |
| InodeAlloc.Inodes.AllocInode | lwext4/src/ext4_ialloc.c:229-366 | of all free inodes the one that comes first, from the group used last on and then from group 0 on; the counters and the never used tail follow; ENOSPC if and only if none is free; it terminates |
| InodeAlloc.Inodes.FreeInode | lwext4/src/ext4_ialloc.c:158-227 | the counters are right afterwards if and only if the inode was in use |
| InodeAlloc.FreedAgain | lwext4/src/ext4_ialloc.c:158-227 | freeing a free inode makes a group of eight claim nine free ones |
| IndirectMap.LevelTables | lwext4/src/ext4_fs.c:92-103 | the blocks per level are the powers of the entries of an index block, the limits their sums from 12 on |
| IndirectMap.PathUnique | lwext4/src/ext4_fs.c:1383-1458 | two block numbers are the same if and only if they have the same level and take the same entry in every index block on the way |
| IndirectMap.Layout | lwext4/src/ext4_fs.c:1383-1458 | where each block number stands: 12 in the inode, one index block of them, an index block of index blocks, and one level more |
| IndirectMap.StepDown | lwext4/src/ext4_fs.c:1400-1458 | the divisions on the way down give the digits of the block's offset |
| IndirectMap.NodeFrame | lwext4/src/ext4_fs.c:1600-1606 | writing an entry of an index block changes only what that entry leads to |
| IndirectMap.TableLinked | lwext4/src/ext4_fs.c:1565-1598 | a zeroed block under an empty entry maps nothing new |
| IndirectMap.File.Get | lwext4/src/ext4_fs.c:1346-1458 | the block mapped, 0 for a hole on any level, EIO beyond the triple limit |
| IndirectMap.File.Set | lwext4/src/ext4_fs.c:1476-1639 | the block reads as written, every other as before, and exactly as many blocks are taken from the front of the pool as index blocks were missing; ENOSPC if and only if there are fewer, and then no mapping changes; a block in the inode takes none |
| IndirectMap.File.Release | lwext4/src/ext4_fs.c:1078-1176 | exactly this block reads as 0, and what it was mapped to is given back |
| XattrBlock.MinIs | lwext4/src/ext4_xattr.c:328-335 | no value lies below the lowest offset, which is where packed values begin |
| XattrBlock.SpaceUsed | lwext4/src/ext4_xattr.c:336-341 | packed values take exactly the space from there to the end |
| XattrBlock.EntryPlace | lwext4/src/ext4_xattr.c:64-75 | every entry takes 16 bytes and its name, up to the next multiple of four, and the end mark of the table lies below all values |
| XattrBlock.FreeExact | lwext4/src/ext4_xattr.c:336-347 | in a packed block the space check fails if and only if the attribute and all others do not fit into the block |
| XattrBlock.SpaceExample | lwext4/src/ext4_xattr.c:336-347 | in an empty block of 1024 bytes a value of 968 bytes under a name of four characters is the largest that fits |
| XattrBlock.ValuesKept | lwext4/src/ext4_xattr.c:353-387 | moving the lower values up with their offsets changes no value, gaps or not |
| XattrBlock.Attributes.FindEntry | lwext4/src/ext4_xattr.c:465-496 | found if and only if the block has the key, with its value, in packed blocks and in others |
| XattrBlock.Attributes.SetEntry | lwext4/src/ext4_xattr.c:311-448 | in every valid block, sizes rounded up: ENOSPC if and only if what is free below the lowest value and in the old entry is too little, and then nothing changes; for names of up to 255 characters the block as a map is updated at exactly this key, for setting and removing; a value set is read back if and only if the name is no longer than that |
| XattrBlock.LongNameExample | lwext4/src/ext4_xattr.c:404-412 | a name of 256 characters is stored with length 0, and its value found under the empty name only |
| XattrBlock.EmptyShifted | lwext4/src/ext4_xattr.c:374-387 | empty values keep offset 0 if and only if the value taken out is empty or no other is |
| XattrBlock.EmptyExample | lwext4/src/ext4_xattr.c:374-387 | a value of four bytes taken out leaves the empty one beside it with offset 4 |
| FileRead.File.Gather | lwext4/src/ext4.c:1757-1774 | the longest run of blocks that follow each other on disk: it ends with the file part or where the next block is elsewhere, which then begins the next run |
| FileRead.File.RunRead | lwext4/src/ext4.c:1776-1779 | one read of a run is what reading its blocks one by one gives |
| FileRead.File.Fread | lwext4/src/ext4.c:1671-1828 | the bytes of the file from the position on, up to the size or the end; position and count advance by their number; with nothing to read the caller's count is left alone |
| Getopt.Gcd | lwext4/include/getopt.h:160-173 | a divisor of both numbers that is a combination of them |
| Getopt.WalkDistinct | lwext4/include/getopt.h:197-209 | a cycle meets no position twice |
| Getopt.WalkReaches | lwext4/include/getopt.h:197-209 | a cycle meets every position of its class |
| Getopt.TurnStep | lwext4/include/getopt.h:199-208 | one swap puts one element where it belongs and the next one at the start of the cycle |
| Getopt.AllTurned | lwext4/include/getopt.h:195-209 | when all cycles are turned the blocks have changed places |
| Getopt.PermuteArgs | lwext4/include/getopt.h:180-210 | the two blocks change places, the order within each stays |

## Left out

- The managed and C++ code around the library, device access, mount and open flags, path walking: no
  state of their own that has to stay consistent.
- Unwritten extents, checksums, 64-bit block group fields, byte order: not modelled.
- I/O errors and failing memory allocation: every access succeeds.
- ExtentInode.Inode.RemoveSpace: up to the last possible block only; the check in
  `ext4_ext_more_to_rm` whether the next index starts beyond an upper bound then never stops the walk.
  Blocks given back are recorded, and do not come back into `pool`.
- ExtentInode.Inode.GetBlocks: `ext4_ext_next_allocated_block` does not limit the count, because a new
  extent always has one block.
- JournalSession.Session.CommitTrans: for sessions that revoke nothing and abort nothing; revokes are part
  of recovery (`JournalLog.RecoveredEffect`). It requires that the transaction alone fits into the log, and
  either that it fits beside the live ones or that these can be flushed: the first transaction waits for
  something, and every waiting block of which no later copy waits is in the cache as committed, or does not
  begin with the magic number. Stopping a journal, which lets the ids start again, and wrap-around of ids
  are not modelled.
- JournalSession.Session.constructor: for a log without records of the ids the session begins with. A crash
  between the first descriptor of a transaction and its commit block leaves such records
  (`JournalMount.NewIds`); a session on top of them is not modelled.
- JournalSession.Session.LogItem: block 0, the file system's superblock, is not logged; the source writes it
  directly.
- JournalRecover.Recovery.Recover: for logs in which block 0 is not logged, and that the writer can leave; on
  a corrupt log the walk of the source need not end.
- JournalSession.Session.FlushBuf: the cache's dirty state and the journal's queue are one step of the
  model; the cache by itself is `BlockCache`.
- DirTree.Directory.AddEntry: requires that the leaf the name's hash leads to, if it has no room, is more
  than half full of live records, because otherwise the source reads in front of its array (`DirSplit.Fragmented`).
- DirTree.Directory.GetLeaf: without metadata checksums, for hashes that are even, from any function.
- DirSplit.Sort: insertion sort in place of the C library's `qsort`, whose order of equal hashes is not
  fixed.
- DirBlock.TryInsert: a block is the sequence of its records, not its bytes, so that stale bytes behind
  a name are not modelled; the checksum tail is a record that is never used.
- BlockCache.Cache.FlushBuf: no `end_write` callback, and so no `dont_shake`. LRU ids do not wrap around.
- BlockCache.Cache.Write: a holder that changes a buffer marks it dirty in the same step. Direct access to
  the device beside the cache is not modelled.
- Bitmap.BitFindClr: a bitmap is a sequence of bits; a word is eight, sixteen or 32 of them.
- BlockAlloc.Volume.AllocBlock: for `first_data_block` 0, and without the conversion to 32 bits; which
  blocks of a group are metadata is in the bitmap.
- InodeAlloc.Inodes.AllocInode: requires counters that match the bitmaps, because otherwise it may not
  end (`InodeAlloc.TurnMoves`); as many block groups as the inodes fill. The counts of used directories
  are updated but not related to the inodes.
- IndirectMap.File.Set: the goal of the allocation is left out; the allocator gives the next fresh block.
- XattrBlock.Attributes.SetEntry: for blocks that `ext4_xattr_is_block_valid` accepts and whose values, rounded
  up to four bytes, do not overlap and end within the block, which it does not look at; the table is a
  sequence of entries behind the header, its bytes are not decoded. Hashes of entries and sharing of blocks
  are not modelled, nor is the choice between inode body and block.
- FileRead.File.Fread: for files without holes, and not for short symbolic links, whose target is in the
  inode; the device is read in blocks of the file system, sectors below that are not modelled.
- mkfs, partition tables, the hash functions and CRC tables: computations without an invariant.
