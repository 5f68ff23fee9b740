# Proofs about the GD32W Arduino core

This project models the hardest parts of the GD32W core and proves what they are for. The centre is littlefs
(`lfs.c`), a file system that has to survive power loss; beside it stand the stream search, the IP address
printer and parser, and the hash builders.

`dafny verify dfyconfig.toml` checks everything.

## The parts

- **Skip lists** (`CtzList`, `CtzWalk`, `CtzExtend`): the closed-form index, the logarithmic walk against the
  one-step walk, traversal, and growing a file by a block on a device that may report bad blocks at any step.
- **Allocator** (`Allocator`): the lookahead window as a bitmap in an array, with checkpoints and rescans of a tree
  that changes under it.
- **Caches** (`BlockCache`): reading, comparing, programming and flushing through caches that are arrays, in front of
  a device that fails reads and misprograms silently, up to copying a whole file block.
- **Metadata log** (`Tags`, `TagWords`, `MetadataLog`, `BlockLookup`, `Compaction`, `Splitting`): tags as fields and as
  bits of a word; the meaning of a log is its forward replay, and the backward lookup over the bytes of a block,
  compaction and splitting are held to it.
- **Name search** (`NameSearch`, `NameUpdates`, `NameExactness`): the one-pass search of a log, the updates that keep
  it right, and exactly when it is.
- **Commits** (`CommitFormat`, `CommitCodec`, `CrcTable`, `CommitTrail`, `CommitWriter`, `MetadataPair`,
  `ForwardCheck`, `CrashAtomicity`, `PairCommit`, `PairCreation`, `Recovery`): the bytes of a block, written and read
  back; the two blocks of a pair; and what is left after power is cut, over any run. Of the checksum one thing is
  assumed there (`CommitTrail.Unforged`): over bytes that were not all written, it does not happen to be the word behind
  them. That the reader then accepts no commit that was not written in full is proved.
- **Directories** (`DirectoryCommit`, `SplitAtomicity`): commits by either route and splits over several pairs, on disk, with
  power cut anywhere, in terms of what lookups answer.
- **Global state** (`GlobalState`) and **cycle detection** (`Tortoise`).
- **Stream search** (`FindMulti`), **addresses** (`AddressText`, `AddressGrammar`, `IPAddress.dfy` with module
  `IPAddresses`).
- **Hashes** (`HashStream`, `Sha1`, `Sha1Stream`, `WordBits`).
- `Bits`, `Words`, `Wrappers` hold arithmetic, bytes and the option type.

The functions that several operations are stated by are also described on their own: bit by bit, in plain arithmetic, or
by the bytes and texts they accept. Those rows of the table say what the words in the others mean.

Loops and objects of the source are methods and classes here. A device is a value that a scripted list of outcomes
drives, so every theorem holds for all behaviours of the device. Numbers are unbounded except where a theorem says
how the source's 32 bits wrap.

## What the proofs turned up

Where the code misses what it is for, the model states the exact condition under which it meets it.

- A lookup with a move pending answers as if the moved entry were deleted, except at the moved id itself, where it
  finds nothing even if another entry has moved up to that id (`MetadataLog.PendingMoveExact`).
- The one-pass name search answers rightly throughout the history of a log, and would after deleting the entry named
  last at any point of it, if and only if the directory was sorted all along (`NameExactness.SearchIsExact`). Without
  the deletions sorting is not necessary (`NameExactness.UnsortedMayBeRight`), and sorted at the end is not enough
  (`NameExactness.SortedAtTheEndIsNotEnough`). littlefs's own updates and compaction keep the directory sorted. A name
  sorts before its own proper prefixes.
- A pair may be fetched differently when its addresses are swapped, just when the revision counts of its blocks are
  tied (`MetadataPair.OrderDecides`); a walk of the tail list can then end without a report and yet visit the same two
  blocks twice (`Tortoise.TiedBlocksAreMetTwice`).
- Of the 40 bytes set aside when a compaction is measured, 4 are said to be for a pending delete; what the proof needs them
  for is the revision count, and the 40 are then just enough (`Splitting.FitsHasRoom`).
- A lookup of one exact type, such as an inline struct, answers differently after a compaction exactly when it had found
  an attribute that one of another type has replaced since (`Splitting.NarrowLookupExact`).
- The window offset of the allocator is right for all blocks just when the device has at most 2^31 blocks
  (`Allocator.WindowOffsetExact`).
- `lfs_bd_read` can fail to make progress just when a program cache offset is not a multiple of the read size and the
  block has room for a read long enough to pass the caches (`BlockCache.UnalignedStalls`, on the step
  `BlockCache.BlockDevice.ReadBehind`); a failed read leaves the read cache naming a block it does not hold.
- If the head of a split cannot be compacted after its tail was written, or the commit of a drop fails, the global
  state in RAM no longer matches the disk unless the delta in question was zero (`FailedSplit`, `FailedDrop`).
- SHA-384 and SHA-512 pad wrongly when a message ends 112 to 119 bytes into a block or has 2^61 bytes or more, and
  SHA-3 when exactly one byte of the rate is free (`HashStream.WidePadding`, `HashStream.SpongePadding`).
- `toString` ignores its argument; `fromString` keeps the old zone when the text has none, and wipes the address even
  when it refuses the text.

## Model

| member | source | states |
|---|---|---|
| `Bits.AlignDownIsGreatest` | hardware/gd32w/1.0.0/libraries/LittleFS/src/lfs_util.h:137-139 | `lfs_aligndown` gives the greatest multiple of the alignment not above its argument |
| `Bits.AlignUpIsLeast` | hardware/gd32w/1.0.0/libraries/LittleFS/src/lfs_util.h:141-143 | `lfs_alignup` gives the least multiple not below it |
| `Bits.Npw2IsLeast` | hardware/gd32w/1.0.0/libraries/LittleFS/src/lfs_util.h:146-159 | `lfs_npw2` gives the least exponent whose power of two reaches the argument (arguments above 1) |
| `Bits.PointerTotalClosedForm` | hardware/gd32w/1.0.0/libraries/LittleFS/src/lfs.c:2875-2885 | blocks 1..n of a skip list hold 2n - popcount(n) pointers between them, the identity behind the closed-form index |
| `MetadataPair.ScmpAntisymmetric` | hardware/gd32w/1.0.0/libraries/LittleFS/src/lfs_util.h:184-186 | serial comparison of revision counts is their difference as a signed word: greater one way is less the other way, except at distance 2^31, where each count is less than the other; equal only to itself; and a count plus one, with wrap-around, is newer by one |
| `CtzList.IndexIsCorrect` | hardware/gd32w/1.0.0/libraries/LittleFS/src/lfs.c:2874-2885 | for every 32-bit position and every block size from 128 on, `lfs_ctz_index` returns the block whose data bytes include the position, and the offset past that block's pointers and within the block |
| `CtzList.IndexIsUnique` | hardware/gd32w/1.0.0/libraries/LittleFS/src/lfs.c:2874-2885 | no other block's data range contains the position |
| `CtzWalk.SkipMakesProgress` | hardware/gd32w/1.0.0/libraries/LittleFS/src/lfs.c:2901-2903 | the skip chosen by `lfs_ctz_find` never passes the target, never needs a pointer the block does not store, and every hop leaves fewer reads to go |
| `CtzWalk.SlowWalkFollowsChain` | hardware/gd32w/1.0.0/libraries/LittleFS/src/lfs.c:2887-2919 | walking one block at a time reaches exactly the chain's block; the reference the fast walk is held to |
| `CtzWalk.FindBlock` | hardware/gd32w/1.0.0/libraries/LittleFS/src/lfs.c:2900-2914 | the pointer walk reads at most 2 log2(distance) + 1 pointers and stops at the block the slow walk reaches |
| `CtzWalk.Find` | hardware/gd32w/1.0.0/libraries/LittleFS/src/lfs.c:2887-2919 | `lfs_ctz_find` returns the block and offset of a position, by the closed form and the pointer walk together; an empty file has none |
| `CtzWalk.Traverse` | hardware/gd32w/1.0.0/libraries/LittleFS/src/lfs.c:3021-3062 | `lfs_ctz_traverse` reports every block of the list exactly once, from the last to the first |
| `CtzExtend.NextByte` | hardware/gd32w/1.0.0/libraries/LittleFS/src/lfs.c:2949-2953 | where the byte behind the last one goes: the next offset of the same block, or behind the pointers of a new one |
| `CtzExtend.GrownByCopy` | hardware/gd32w/1.0.0/libraries/LittleFS/src/lfs.c:2953-2978 | copying the incomplete last block out leaves a well-formed list with the file's bytes unchanged |
| `CtzExtend.GrownByAppend` | hardware/gd32w/1.0.0/libraries/LittleFS/src/lfs.c:2980-3009 | a new block with its pointers leaves a well-formed list with the file's bytes unchanged |
| `CtzExtend.Volume.WritePointers` | hardware/gd32w/1.0.0/libraries/LittleFS/src/lfs.c:2980-3003 | block n gets pointers j = 0..ctz(n), each to block n - 2^j, read back through the pointers written before; on a device that does as it is told it succeeds |
| `CtzExtend.Volume.Extend` | hardware/gd32w/1.0.0/libraries/LittleFS/src/lfs.c:2922-3018 | whatever the device reports, only freshly allocated blocks change; on success the list has grown, is well formed, and every byte of the file reads back as before; the first block is taken on a device that does as it is told, and as long as blocks are at worst bad only running out of them makes it fail |
| `Allocator.SetBit` | hardware/gd32w/1.0.0/libraries/LittleFS/src/lfs.c:627-637 | setting a bit of the lookahead bitmap changes that bit and no other |
| `Allocator.WindowOffsetExact` | hardware/gd32w/1.0.0/libraries/LittleFS/src/lfs.c:628-630 | the 32-bit expression for a block's offset in the window is right for every block and start just when the device has at most 2^31 blocks |
| `Allocator.FreshPosition` | hardware/gd32w/1.0.0/libraries/LittleFS/src/lfs.c:666-715 | a position not handed out before belongs to a block not handed out before |
| `Allocator.NothingLeft` | hardware/gd32w/1.0.0/libraries/LittleFS/src/lfs.c:696-700 | when the checkpoint's positions are used up, every block was handed out or had its bit set by the scan that covered its own position; a number outside the device sets one bit only |
| `Allocator.ClaimsNamed` | hardware/gd32w/1.0.0/libraries/LittleFS/src/lfs.c:627-637 | a scan sets the bit of every block it names, and of no other when all it names are blocks of the device |
| `Allocator.AllNamed` | hardware/gd32w/1.0.0/libraries/LittleFS/src/lfs.c:696-700 | when all scans since the checkpoint saw the same blocks, each block of the device was handed out or is one of them |
| `Allocator.Lookahead.MarkBlock` | hardware/gd32w/1.0.0/libraries/LittleFS/src/lfs.c:627-637 | `lfs_alloc_lookahead` marks the block's position if it lies in the window and nothing else |
| `Allocator.Lookahead.Scan` | hardware/gd32w/1.0.0/libraries/LittleFS/src/lfs.c:641-662 | `lfs_alloc_scan` moves the window behind the last one; its bitmap then says exactly which of the window's blocks the traversed tree claims, and it fails just when the traversal does |
| `Allocator.Lookahead.Checkpoint` | hardware/gd32w/1.0.0/libraries/LittleFS/src/lfs.c:614-616 | `lfs_alloc_ckpoint` renews the allowance and forgets what was handed out |
| `Allocator.Lookahead.Drop` | hardware/gd32w/1.0.0/libraries/LittleFS/src/lfs.c:620-624 | `lfs_alloc_drop` empties the window and takes a checkpoint |
| `Allocator.Lookahead.Take` | hardware/gd32w/1.0.0/libraries/LittleFS/src/lfs.c:671-691 | the block at the window's clear bit is handed out, every position skipped after it had its bit set, the window then stands at its end or at a clear bit, and the allowance never underflows |
| `Allocator.Lookahead.Alloc` | hardware/gd32w/1.0.0/libraries/LittleFS/src/lfs.c:666-715 | `lfs_alloc` terminates; the block it returns was not handed out since the checkpoint, and the scan that covers it, which is that of the old window up to its end and of the present tree beyond, does not name it; no space means that every block was handed out or claimed by its covering scan, and on a fresh window that the tree uses the whole device |
| `Allocator.Lookahead.AllocRun` | hardware/gd32w/1.0.0/libraries/LittleFS/src/lfs.c:666-715 | over any run of allocations between checkpoints, across rescans of changing trees, no block is returned twice, each is unused by the first window's scan if it lies in that window and by one of the trees up to its own turn otherwise, and the run ends early only without space or with a failed traversal |
| `BlockCache.UnalignedStalls` | hardware/gd32w/1.0.0/libraries/LittleFS/src/lfs.c:76-104 | some `lfs_bd_read` in front of pending bytes bypasses the caches with a read of no bytes just when their offset is not a multiple of the read size and the block has room for a read long enough to pass the caches |
| `BlockCache.BlockDevice.ReadBehind` | hardware/gd32w/1.0.0/libraries/LittleFS/src/lfs.c:76-122 | one turn of the loop behind the program cache: it adds the wanted bytes or loads the read cache around them, unless it is such an empty bypass, and then buffer and caches stay as they are, so that the loop goes on for ever |
| `BlockCache.BypassProgress` | hardware/gd32w/1.0.0/libraries/LittleFS/src/lfs.c:91-104 | with aligned caches a read that bypasses them is never empty |
| `BlockCache.BlockDevice.Load` | hardware/gd32w/1.0.0/libraries/LittleFS/src/lfs.c:107-122 | loading the read cache covers the wanted byte; after a failed load the cache still names the block, so only success promises agreement with the device; on a device that does as it is told it succeeds |
| `BlockCache.BlockDevice.Read` | hardware/gd32w/1.0.0/libraries/LittleFS/src/lfs.c:44-126 | `lfs_bd_read` terminates and returns the device overlaid by the program cache, keeps the read cache in agreement, refuses ranges outside the block or device, and succeeds on all others on a device that does as it is told |
| `BlockCache.ChunkDecides` | hardware/gd32w/1.0.0/libraries/LittleFS/src/lfs.c:134-149 | comparing eight bytes at a time finds what comparing all of them would |
| `BlockCache.MemcmpMeans` | hardware/gd32w/1.0.0/libraries/LittleFS/src/lfs.c:134-149 | the comparison has the sign of the first difference, bytes taken without sign, and is 0 on equal bytes only |
| `BlockCache.BlockDevice.Compare` | hardware/gd32w/1.0.0/libraries/LittleFS/src/lfs.c:128-152 | `lfs_bd_cmp` has the sign of a comparison of the whole range with the data, and no error on a device that does as it is told |
| `BlockCache.FlushBounds` | hardware/gd32w/1.0.0/libraries/LittleFS/src/lfs.c:181-184 | rounding a flush up to program units stays within the cache and the block |
| `BlockCache.BlockDevice.Flush` | hardware/gd32w/1.0.0/libraries/LittleFS/src/lfs.c:177-208 | `lfs_bd_flush` changes the programmed bytes only, empties the cache, and when checked succeeds only if the device holds just what was pending, though it may misprogram silently; checked or not, it succeeds and is right on a device that does as it is told |
| `BlockCache.BlockDevice.FlushKeepsView` | hardware/gd32w/1.0.0/libraries/LittleFS/src/lfs.c:177-208 | a flushed block shows what was seen through the cache before, but for the padding of the last program unit |
| `BlockCache.BlockDevice.Sync` | hardware/gd32w/1.0.0/libraries/LittleFS/src/lfs.c:212-224 | after `lfs_bd_sync` the read cache is right about every block, checked or not; it succeeds on a device that does as it is told |
| `BlockCache.BlockDevice.Prog` | hardware/gd32w/1.0.0/libraries/LittleFS/src/lfs.c:228-272 | a checked `lfs_bd_prog`, or an unchecked one on a device that does as it is told, shows at once, through the cache, as the old view with the data in place; other blocks are untouched, across any number of flushes on the way; on such a device both succeed |
| `BlockCache.BlockDevice.Relocate` | hardware/gd32w/1.0.0/libraries/LittleFS/src/lfs.c:3268-3335 | `lfs_file_relocate` on a file that is not inline: through all three caches and any number of bad blocks, the first bytes of the file are seen in the new block just as they were in the old; the first block to be had is taken on a device that does as it is told |
| `Tags.PackRoundTrip` | hardware/gd32w/1.0.0/libraries/LittleFS/src/lfs.c:342-385 | the fields of a tag come back from its packed word |
| `Tags.PackedShift` | hardware/gd32w/1.0.0/libraries/LittleFS/src/lfs.c:375-381 | adding to the id field in 32-bit arithmetic moves the id and nothing else, as long as it stays within its ten bits |
| `TagWords.PackIsOr` | hardware/gd32w/1.0.0/libraries/LittleFS/src/lfs.c:342-343 | `LFS_MKTAG`: the packed word is the or of its shifted fields |
| `TagWords.FieldsAre` | hardware/gd32w/1.0.0/libraries/LittleFS/src/lfs.c:351-381 | type, chunk, id, size and valid bit are read from the bits of the word that the source's masks and shifts select |
| `TagWords.DeletedIsAllOnes` | hardware/gd32w/1.0.0/libraries/LittleFS/src/lfs.c:355-357 | a tag is a deletion when the ten bits of its size are all ones |
| `TagWords.DsizeIs` | hardware/gd32w/1.0.0/libraries/LittleFS/src/lfs.c:383-385 | the size on disk is that of the word and its data, a deletion having none |
| `TagWords.KindsAre` | hardware/gd32w/1.0.0/libraries/LittleFS/src/lfs.c:359-365 | splices, tails, checksums and the types below them are told by the leading three or four bits of the type |
| `TagWords.SpliceIsSigned` | hardware/gd32w/1.0.0/libraries/LittleFS/src/lfs.c:371-377 | the splice is the chunk of the type as a signed byte |
| `TagWords.ExpectedIsXor` | hardware/gd32w/1.0.0/libraries/LittleFS/src/lfs.c:1216 | behind a CRC tag the valid bit expected is flipped by the low bit of its chunk |
| `TagWords.MatchIsMasked` | hardware/gd32w/1.0.0/libraries/LittleFS/src/lfs.c:763 | a query matches a type when the two agree on the bits of its mask: 0x7ff for an exact type, 0x780 for a kind, 0x700 for a family |
| `TagWords.WordsMatch` | hardware/gd32w/1.0.0/libraries/LittleFS/src/lfs.c:763 | so the comparison of masked tag words, the id in the mask, finds the tags of that entry that answer the query |
| `MetadataLog.LookupStep` | hardware/gd32w/1.0.0/libraries/LittleFS/src/lfs.c:750-776 | what one more tag does to a lookup in the replayed directory: a create hides, a splice shifts, a match answers |
| `MetadataLog.LatestIsLast` | hardware/gd32w/1.0.0/libraries/LittleFS/src/lfs.c:750-776 | a lookup finds the last attribute that answers the query, and nothing only if none does |
| `MetadataLog.LatestHasType` | hardware/gd32w/1.0.0/libraries/LittleFS/src/lfs.c:763 | asked for one exact type it finds an attribute of that type |
| `BlockLookup.GetSlice` | hardware/gd32w/1.0.0/libraries/LittleFS/src/lfs.c:719-784 | `lfs_dir_getslice`, going back over the bytes of the block from where the fetch left off, returns exactly the attribute that a forward replay of the fetched log holds at that id, and no entry exactly when replay holds none; the tag it returns agrees with the wanted one on all bits of the mask |
| `BlockLookup.FetchHasPath` | hardware/gd32w/1.0.0/libraries/LittleFS/src/lfs.c:1150-1245 | the tags a fetch has passed when it is done stand one behind the other from the start of the block to where it left off, and those that are no CRC tags are the log it returns |
| `BlockLookup.BackOne` | hardware/gd32w/1.0.0/libraries/LittleFS/src/lfs.c:738-748 | from a tag and the word stored with it the walk back arrives at the tag before it, and it stops exactly at the first |
| `BlockLookup.ScanBack` | hardware/gd32w/1.0.0/libraries/LittleFS/src/lfs.c:737-783 | so the backward loop meets the tags of the fetch in reverse and answers as replay does, with a tag that agrees with the wanted one under the mask |
| `MetadataLog.PendingMoveExact` | hardware/gd32w/1.0.0/libraries/LittleFS/src/lfs.c:726-734 | with a move pending, lookups are those of the log with the moved entry deleted at every id but the moved one, and there just when the entry that follows has nothing to answer with |
| `Compaction.Filter` | hardware/gd32w/1.0.0/libraries/LittleFS/src/lfs.c:852-879 | `lfs_dir_traverse_filter` run over all later tags decides whether an attribute survives and under which id; which later tag makes it redundant is `Compaction.SupersedesIsMasked` |
| `Compaction.SupersedesIsMasked` | hardware/gd32w/1.0.0/libraries/LittleFS/src/lfs.c:855-862 | a later tag makes an attribute redundant when the two words agree under the mask: the id, and of the type all bits if bit 0x100 of the later one is set and the leading three otherwise |
| `Compaction.DeletedIsDropped` | hardware/gd32w/1.0.0/libraries/LittleFS/src/lfs.c:861 | no deleted attribute survives any later tag |
| `Compaction.Traverse` | hardware/gd32w/1.0.0/libraries/LittleFS/src/lfs.c:912-1104 | `lfs_dir_traverse` with the filter emits the surviving attributes of the entries begin..end, renumbered, in log order |
| `Compaction.CollectSnoc` | hardware/gd32w/1.0.0/libraries/LittleFS/src/lfs.c:985-1000 | filtering each attribute by all later tags is the same as sweeping the collection with each tag as it comes |
| `Compaction.CollectMeansReplay` | hardware/gd32w/1.0.0/libraries/LittleFS/src/lfs.c:852-1104 | what is collected answers every query by an exact type with bit 0x100 set, and by any other family of types, as the replayed log does |
| `Splitting.CompactionPreserves` | hardware/gd32w/1.0.0/libraries/LittleFS/src/lfs.c:2016-2028 | every name, struct and user attribute lookup by id, user attributes each by its exact type, gives the same answer on the compacted log as on the original, shifted to the range that was kept |
| `Splitting.AttributesPreserved` | hardware/gd32w/1.0.0/libraries/LittleFS/src/lfs.c:2016-2028 | in particular each of the 256 user attributes, the name and the struct of an entry are found on the compacted log as on the original |
| `Splitting.NarrowLookupExact` | hardware/gd32w/1.0.0/libraries/LittleFS/src/lfs.c:2016-2028 | a lookup of one exact type within a key, such as an inline struct, finds on the compacted log the present attribute of the key if it has that type, and nothing otherwise; it answers as on the original just when it did not find one there that was replaced by another type since |
| `Splitting.FindSplit` | hardware/gd32w/1.0.0/libraries/LittleFS/src/lfs.c:2127-2176 | the halving search ends with a split point behind which the entries fit, or at most one is left, and splits nothing off just when all of them fit or there is at most one |
| `Splitting.FitsIs` | hardware/gd32w/1.0.0/libraries/LittleFS/src/lfs.c:2147-2173 | a range is left whole when it has at most 254 entries, 40 bytes to spare, and no more than half the block, rounded up to program units; below 40 bytes the 32-bit difference wraps around |
| `Splitting.SplittingCompact` | hardware/gd32w/1.0.0/libraries/LittleFS/src/lfs.c:2125-2232 | after any number of splits, allocations failing or not, following the chain of tails answers every lookup as the original log did: id k in the head, or k minus the head's count further on; every tail fits and is written, the head is written exactly when it has room, the splitting stops early only at a pair that is refused or an entry no block has room for, and a log that fits is not split; a superblock that is expanded leaves its own entry behind and nothing else |
| `Splitting.FitsHasRoom` | hardware/gd32w/1.0.0/libraries/LittleFS/src/lfs.c:2147-2173 | what passes the room test fits a block together with its revision count, tail, global state and CRC tag, and the 40 bytes set aside are the fewest for which it does |
| `DirectoryCommit.EncodeSize` | hardware/gd32w/1.0.0/libraries/LittleFS/src/lfs.c:1915-1923 | the measuring pass counts exactly the bytes that the attributes take on disk |
| `DirectoryCommit.RoomTestIsEnough` | hardware/gd32w/1.0.0/libraries/LittleFS/src/lfs.c:2147-2173 | attributes that pass the room test for the block's size, with at most a tail and global state behind them, can be written to an erased block |
| `NameSearch.FindMatch` | hardware/gd32w/1.0.0/libraries/LittleFS/src/lfs.c:1453-1475 | `lfs_dir_find_match` computes the bytewise comparison in which a name sorts before its own proper prefixes |
| `NameSearch.CompareReverse` | hardware/gd32w/1.0.0/libraries/LittleFS/src/lfs.c:1453-1475 | that comparison is antisymmetric, and equality of names is equality of bytes |
| `NameSearch.CompareChain` | hardware/gd32w/1.0.0/libraries/LittleFS/src/lfs.c:1453-1475 | and transitive |
| `NameSearch.CompareMeans` | hardware/gd32w/1.0.0/libraries/LittleFS/src/lfs.c:1453-1475 | the first difference decides, and a name that the other begins with comes after it |
| `NameSearch.OverwrittenIsForgotten` | hardware/gd32w/1.0.0/libraries/LittleFS/src/lfs.c:1293-1303 | a best tag whose entry is named anew, by another name, is forgotten |
| `NameSearch.HitIsItsTag` | hardware/gd32w/1.0.0/libraries/LittleFS/src/lfs.c:1253-1316 | a hit has the type and the size of the name that its entry holds at the end, wherever splices have moved it |
| `NameSearch.UpdateBest` | hardware/gd32w/1.0.0/libraries/LittleFS/src/lfs.c:1247-1316 | what one tag of the log does to the best tag found so far; on a splice `NameSearch.SpliceKeepsTag` says what that means, and on a name `NameSearch.OverwrittenIsForgotten` and `NameSearch.SearchStep` do |
| `NameSearch.SpliceKeepsTag` | hardware/gd32w/1.0.0/libraries/LittleFS/src/lfs.c:1253-1262 | a splice moves the best tag with its entry and leaves its type and size those of the entry's name |
| `NameSearch.SearchStep` | hardware/gd32w/1.0.0/libraries/LittleFS/src/lfs.c:1247-1316 | every tag keeps the invariant of the search: the best tag is the wanted entry, or the place where its name would go |
| `NameSearch.FetchMatch` | hardware/gd32w/1.0.0/libraries/LittleFS/src/lfs.c:1107-1385 | the one-pass search of any log; on a log sorted at every point of its history it returns the live entry with the name, under the type and size of that very name, or the sorted position for it, and the entry count, despite creates, deletes and the order of compacted logs |
| `NameSearch.OrderlyIsAnswered` | hardware/gd32w/1.0.0/libraries/LittleFS/src/lfs.c:1247-1385 | on such a log the count is the directory's and the answer is right for every name, hit or miss |
| `NameUpdates.CreateKeepsOrder` | hardware/gd32w/1.0.0/libraries/LittleFS/src/lfs.c:1247-1316 | creating an entry at the position the search returned keeps the log searchable |
| `NameUpdates.DeleteKeepsOrder` | hardware/gd32w/1.0.0/libraries/LittleFS/src/lfs.c:1253-1262 | so does deleting an entry |
| `NameUpdates.CompactionKeepsOrder` | hardware/gd32w/1.0.0/libraries/LittleFS/src/lfs.c:2016-2028 | and so does compaction of any range, so every log littlefs writes stays searchable |
| `NameExactness.OutOfOrderIsWrong` | hardware/gd32w/1.0.0/libraries/LittleFS/src/lfs.c:1293-1315 | a name written out of order makes the search for that name go wrong once its entry is deleted again |
| `NameExactness.SortedIffRight` | hardware/gd32w/1.0.0/libraries/LittleFS/src/lfs.c:1247-1385 | one more tag leaves the directory sorted if and only if every name is still answered rightly, and also after the deletion of the entry the tag named |
| `NameExactness.SearchIsExact` | hardware/gd32w/1.0.0/libraries/LittleFS/src/lfs.c:1247-1385 | every fetch of a log's history, and of that history with the entry just named deleted again, answers rightly for all names if and only if the directory was sorted at every point |
| `NameExactness.UnsortedMayBeRight` | hardware/gd32w/1.0.0/libraries/LittleFS/src/lfs.c:1293-1315 | without the fetches after a deletion that fails: a directory out of order on which every name is answered rightly, as no name lies between the two that are |
| `NameExactness.SortedAtTheEndIsNotEnough` | hardware/gd32w/1.0.0/libraries/LittleFS/src/lfs.c:1293-1315 | a log whose directory is sorted at the end but was not on the way, on which `lfs_dir_fetchmatch` reports an entry missing that is there |
| `CommitCodec.CrcConcat` | hardware/gd32w/1.0.0/libraries/LittleFS/src/lfs_util.c:17-35 | the table-driven CRC-32 runs on over concatenated data |
| `CrcTable.TableIs` | hardware/gd32w/1.0.0/libraries/LittleFS/src/lfs_util.c:18-24 | the table holds the remainders of the sixteen nibbles under division by the polynomial of CRC-32 |
| `CommitCodec.CrcDivides` | hardware/gd32w/1.0.0/libraries/LittleFS/src/lfs_util.c:17-35 | so `lfs_crc` is the remainder of that division, bit by bit, of the data exclusive-ored in byte by byte |
| `CommitCodec.BigEnd` | hardware/gd32w/1.0.0/libraries/LittleFS/src/lfs.c:1629-1630 | tag words go to disk most significant byte first, all other words least significant byte first |
| `CommitCodec.LittleFsIsLawful` | hardware/gd32w/1.0.0/libraries/LittleFS/src/lfs.c:1629-1630 | big-endian tags exclusive-ored with the tag before, and `lfs_crc`, meet the laws the commit theorems ask for |
| `CommitCodec.LittleFsIsReversible` | hardware/gd32w/1.0.0/libraries/LittleFS/src/lfs.c:748 | a tag stored by exclusive-or leads back to the one before it, the valid bit aside |
| `CommitCodec.LittleFsStoresAll` | hardware/gd32w/1.0.0/libraries/LittleFS/src/lfs.c:1157-1164 | any four bytes are some tag word stored behind any other |
| `CommitFormat.FetchBlock` | hardware/gd32w/1.0.0/libraries/LittleFS/src/lfs.c:1150-1245 | the fetch loop on one block computes the fetch function: entries, checksums, the expected valid bit, and where it stops; the tail it returns is the last one in the committed log; what the function accepts is said by `CommitTrail.AcceptedIsChecked` and `CommitTrail.AcceptedIffStands` |
| `CommitFormat.ReadOne` | hardware/gd32w/1.0.0/libraries/LittleFS/src/lfs.c:1621-1664 | a stored attribute is read back as it was written |
| `CommitFormat.ReadCrc` | hardware/gd32w/1.0.0/libraries/LittleFS/src/lfs.c:1736-1754 | a stored CRC tag with its checksum is read back as a complete commit |
| `CommitFormat.ErasedStops` | hardware/gd32w/1.0.0/libraries/LittleFS/src/lfs.c:1739-1766 | the perturbed valid bit makes the reader stop at the unprogrammed bytes behind a commit, whatever they are |
| `CommitTrail.AcceptedIsChecked` | hardware/gd32w/1.0.0/libraries/LittleFS/src/lfs.c:1195-1210 | no commit is accepted unless the word behind its CRC tag is the checksum of all its bytes up to there |
| `CommitTrail.FetchedIsChecked` | hardware/gd32w/1.0.0/libraries/LittleFS/src/lfs.c:1150-1210 | what a fetch returns begins with a commit whose checksum was compared from the first byte of the block on, the revision count included |
| `CommitTrail.AcceptedIffStands` | hardware/gd32w/1.0.0/libraries/LittleFS/src/lfs.c:1150-1245 | a commit is accepted exactly when attributes, a CRC tag and their checksum stand in the block as a commit is written |
| `CommitTrail.UnforgedIsHonest` | hardware/gd32w/1.0.0/libraries/LittleFS/src/lfs.c:1195-1210 | if no checksum over torn bytes agrees with the word behind it, the reader accepts no commit that was not written in full; the assumption is about bytes and checksums alone |
| `CommitTrail.SameCommit` | hardware/gd32w/1.0.0/libraries/LittleFS/src/lfs.c:1150-1245 | whether a commit is accepted depends only on the bytes up to its checksum |
| `CommitTrail.TornTrail` | hardware/gd32w/1.0.0/libraries/LittleFS/src/lfs.c:1150-1245 | a torn block reads as some first part of the commits that were being written, no checksum over torn bytes agreeing by chance |
| `CommitTrail.CommitIsFound` | hardware/gd32w/1.0.0/libraries/LittleFS/src/lfs.c:1621-1777 | a commit written to a block is the next one the reader finds, with all its attributes |
| `CommitWriter.CommitAttrs` | hardware/gd32w/1.0.0/libraries/LittleFS/src/lfs.c:1621-1664 | the attributes of a commit are written until one does not fit; it fails exactly when they do not all fit, and those before are then on disk |
| `CommitWriter.CommitEndBounds` | hardware/gd32w/1.0.0/libraries/LittleFS/src/lfs.c:1675-1677 | the aligned end of a commit lies within the block and leaves room for a CRC, and for a forward CRC unless the block ends there |
| `CommitWriter.CommitEndIsLeast` | hardware/gd32w/1.0.0/libraries/LittleFS/src/lfs.c:1675-1677 | it is the least multiple of the program size at least twenty bytes on, or the end of the block |
| `CommitWriter.NextOffBounds` | hardware/gd32w/1.0.0/libraries/LittleFS/src/lfs.c:1686-1692 | every CRC tag is large enough for its checksum, at most 0x3fe, and what remains leaves room for the last one |
| `CommitWriter.NextOffIsGreatest` | hardware/gd32w/1.0.0/libraries/LittleFS/src/lfs.c:1686-1692 | and each reaches as far as that allows |
| `CommitWriter.CommitCrc` | hardware/gd32w/1.0.0/libraries/LittleFS/src/lfs.c:1669-1777 | `lfs_dir_commitcrc` terminates exactly at the program-aligned end with the rest of the block untouched; the forward CRC it decides to write always fits and stands for the next program unit, whose first byte contradicts the valid bit asked for; and the reader then finds all the attributes as one commit and stops behind it |
| `CommitWriter.StripAnswers` | hardware/gd32w/1.0.0/libraries/LittleFS/src/lfs.c:1720-1733 | leaving forward checksums aside, and `CommitWriter.StripIs` says that nothing else is, changes no answer of the log |
| `CommitWriter.StripIs` | hardware/gd32w/1.0.0/libraries/LittleFS/src/lfs.c:1720-1733 | what is left aside are the attributes of type 0x5ff and no others |
| `CommitWriter.ForwardCrcIs` | hardware/gd32w/1.0.0/libraries/LittleFS/src/lfs.c:1715-1733 | the forward checksum gives the size of the next program unit and the checksum of its bytes |
| `MetadataPair.PickNewest` | hardware/gd32w/1.0.0/libraries/LittleFS/src/lfs.c:1122-1140 | the block tried first is the one with the more recent revision, ties and wrap-around included |
| `MetadataPair.FetchBoth` | hardware/gd32w/1.0.0/libraries/LittleFS/src/lfs.c:1107-1385 | the fetch of a pair takes the newer block with a sound commit, then the other, then reports corruption; with it comes the last tail of the log; what makes a commit sound is `CommitTrail.AcceptedIffStands` |
| `MetadataPair.OrderDecides` | hardware/gd32w/1.0.0/libraries/LittleFS/src/lfs.c:1122-1140 | the order in which the two blocks of a pair are named decides what a fetch finds exactly when both have commits and their revision counts are tied; the one named first then wins |
| `MetadataPair.CommitInPlace` | hardware/gd32w/1.0.0/libraries/LittleFS/src/lfs.c:2272-2341 | an in-place commit appends exactly its attributes to what the block's fetch returns, and does so whenever they fit; given up for want of room it has left some of the attributes and no CRC tag |
| `MetadataPair.CompactInto` | hardware/gd32w/1.0.0/libraries/LittleFS/src/lfs.c:1979-2093 | the writing part of `lfs_dir_compact` succeeds exactly when revision, attributes and a CRC tag fit, and leaves a block that reads as one commit of exactly the given attributes under the new revision, with the next program unit on record |
| `MetadataPair.HoldsIsFetched` | hardware/gd32w/1.0.0/libraries/LittleFS/src/lfs.c:1107-1385 | a fetch recovers exactly the state a pair holds |
| `ForwardCheck.BlockCrc` | hardware/gd32w/1.0.0/libraries/LittleFS/src/lfs.c:154-175 | `lfs_bd_crc`, eight bytes at a time, is the checksum of the whole stretch, or of what could be read of it |
| `ForwardCheck.FetchErased` | hardware/gd32w/1.0.0/libraries/LittleFS/src/lfs.c:1150-1356 | the fetch loop reports a block erased exactly when nothing was programmed behind its last commit, that ends on a program unit, and the unit has the checksum of the forward CRC read last |
| `ForwardCheck.LastForwardIs` | hardware/gd32w/1.0.0/libraries/LittleFS/src/lfs.c:1276-1289 | the forward checksum that counts is the last one in the log |
| `ForwardCheck.ErasedIffAsSampled` | hardware/gd32w/1.0.0/libraries/LittleFS/src/lfs.c:1329-1356 | with a checksum that tells the unit from what it may have become, a block whose commits are intact is fetched as erased if and only if its next program unit is as it was sampled and holds a tag word |
| `ForwardCheck.NextProgramIsNoticed` | hardware/gd32w/1.0.0/libraries/LittleFS/src/lfs.c:1329-1356 | so it is for every commit the writer leaves, in place or on an erased block: a later program of the unit that was cut short is noticed |
| `CrashAtomicity.UpdateCompletes` | hardware/gd32w/1.0.0/libraries/LittleFS/src/lfs.c:1979-2093 | a completed in-place commit or compaction takes the pair to the new contents |
| `CrashAtomicity.UpdateIsAtomic` | hardware/gd32w/1.0.0/libraries/LittleFS/src/lfs.c:1107-1385 | cut short after any number of bytes, with the rest of the block in any state in which no checksum over torn bytes agrees by chance, or while the block is erased with its older commits still readable, it leaves exactly the old contents or exactly the new |
| `CrashAtomicity.AttemptIsHarmless` | hardware/gd32w/1.0.0/libraries/LittleFS/src/lfs.c:2272-2351 | the bytes that an in-place commit has written when it is given up, or cut before its CRC tag, leave the contents as they were |
| `CrashAtomicity.AttemptThenCompaction` | hardware/gd32w/1.0.0/libraries/LittleFS/src/lfs.c:2272-2351 | and the compaction that follows may begin just as it might have before |
| `CrashAtomicity.RunIsAtomic` | hardware/gd32w/1.0.0/libraries/LittleFS/src/lfs.c:1107-1385 | over any run of commits and compactions, each completed, given up for want of room, or cut at any point from the erase on, the pair can always be fetched, every step is all or nothing, and an attempt given up changes nothing |
| `PairCommit.TryInPlace` | hardware/gd32w/1.0.0/libraries/LittleFS/src/lfs.c:2272-2341 | an in-place commit is possible exactly when its attributes and a CRC tag fit behind the last commit, and is then one that may be interrupted; otherwise what it leaves is a harmless attempt |
| `PairCommit.TryCompaction` | hardware/gd32w/1.0.0/libraries/LittleFS/src/lfs.c:1952-2093 | a compaction into the other block, with the next revision, is possible exactly when the log and a CRC tag fit, and may be interrupted too |
| `PairCommit.Commit` | hardware/gd32w/1.0.0/libraries/LittleFS/src/lfs.c:2234-2351 | a commit goes in place exactly when the fetch found the block erased and the attributes fit, and otherwise by compaction, behind whatever the attempt in place has left; it succeeds exactly when one of the two has room, and leaves the pair with the old contents and the new attributes, or with the given full log |
| `PairCommit.Create` | hardware/gd32w/1.0.0/libraries/LittleFS/src/lfs.c:1815-1853 | the first commit of a pair, its other block holding nothing readable or commits under an older revision, succeeds exactly when it fits; the pair then has exactly those attributes, and the other block is untouched |
| `PairCreation.FirstRevIsNewer` | hardware/gd32w/1.0.0/libraries/LittleFS/src/lfs.c:1830-1850 | the count that `lfs_dir_alloc` and the first compaction arrive at is newer than the one it started from, for every 32-bit count and every `block_cycles` below 2^31 - 1, wrap-around included |
| `PairCreation.SeldomEvictedAtOnce` | hardware/gd32w/1.0.0/libraries/LittleFS/src/lfs.c:1939-1950 | the alignment keeps the first compaction from relocating the new pair, but for one starting count, and that only if the modulus divides 2^32 - 1; without wear levelling it never does |
| `PairCreation.CreateRecycled` | hardware/gd32w/1.0.0/libraries/LittleFS/src/lfs.c:1815-1853 | so a pair made of blocks in any state, old commits under any count included, is fetched with exactly the attributes of its first commit |
| `Recovery.TornCompactionIsInvisible` | hardware/gd32w/1.0.0/libraries/LittleFS/src/lfs.c:1979-2093 | whatever moment power is cut during a compaction, every lookup in the recovered directory gives the answer it gave before |
| `Recovery.CompactionIsInvisible` | hardware/gd32w/1.0.0/libraries/LittleFS/src/lfs.c:1979-2093 | a completed compaction changes no answer either |
| `DirectoryCommit.RouteAnswers` | hardware/gd32w/1.0.0/libraries/LittleFS/src/lfs.c:2234-2351 | whichever of the two routes a commit takes, appending in place or rewriting the log with the attributes, the directory then answers every lookup as the log with the attributes does |
| `DirectoryCommit.TornRouteAnswers` | hardware/gd32w/1.0.0/libraries/LittleFS/src/lfs.c:2234-2351 | cut anywhere, either route leaves a directory that answers as the log did or as the log with the attributes does |
| `DirectoryCommit.CommitDirectory` | hardware/gd32w/1.0.0/libraries/LittleFS/src/lfs.c:2234-2351 | the commit of a directory, with the full log computed by the traversal: it succeeds exactly when one of the routes has room, and then answers every lookup as the log with the attributes does |
| `SplitAtomicity.FollowIsResolve` | hardware/gd32w/1.0.0/libraries/LittleFS/src/lfs.c:2125-2232 | pairs that hold the pieces of a split directory, each with its tail and global state, are followed as the pieces are |
| `SplitAtomicity.TailsAreInvisible` | hardware/gd32w/1.0.0/libraries/LittleFS/src/lfs.c:1880-1911 | while the tails are written, whatever state they are in, lookups are those of the old directory |
| `SplitAtomicity.TornSplitIsAtomic` | hardware/gd32w/1.0.0/libraries/LittleFS/src/lfs.c:1880-1911 | with the tails written and power cut anywhere in the head's compaction, every lookup is as in the old directory or every lookup is as on the new chain |
| `SplitAtomicity.SplitCompletes` | hardware/gd32w/1.0.0/libraries/LittleFS/src/lfs.c:2125-2232 | completed, lookups through the chain are those of the whole log |
| `SplitAtomicity.TornSplitIsInvisible` | hardware/gd32w/1.0.0/libraries/LittleFS/src/lfs.c:2125-2232 | a split that commits nothing new changes no answer, wherever it is cut |
| `GlobalState.FoldUpdate` | hardware/gd32w/1.0.0/libraries/LittleFS/src/lfs.c:407-411 | replacing one pair's delta changes the total by just that difference |
| `GlobalState.Deposit` | hardware/gd32w/1.0.0/libraries/LittleFS/src/lfs.c:2299-2322 | putting the masked difference between RAM and disk into one pair's delta makes the deltas add up to the state |
| `GlobalState.Filesystem.CommitInPlace` | hardware/gd32w/1.0.0/libraries/LittleFS/src/lfs.c:2300-2339 | an in-place commit makes the stored deltas add up to the state in RAM |
| `GlobalState.Filesystem.Compact` | hardware/gd32w/1.0.0/libraries/LittleFS/src/lfs.c:2045-2091 | a compaction does too; one that relocates its pair only settles what drops left behind and keeps the disk's state |
| `GlobalState.Filesystem.Split` | hardware/gd32w/1.0.0/libraries/LittleFS/src/lfs.c:1880-1911 | any number of splits with the compaction of their head conserve the state, whichever of the pairs relocate |
| `GlobalState.Filesystem.Drop` | hardware/gd32w/1.0.0/libraries/LittleFS/src/lfs.c:2449-2470 | dropping a pair conserves the state; if the predecessor relocates, the old list and the new one add up to the same |
| `GlobalState.Filesystem.FailedSplit` | hardware/gd32w/1.0.0/libraries/LittleFS/src/lfs.c:1880-1911 | if the head compaction fails after tails were written, the accounting holds on just when the lost delta was zero |
| `GlobalState.Filesystem.FailedDrop` | hardware/gd32w/1.0.0/libraries/LittleFS/src/lfs.c:1859-1875 | if the commit that drops a pair fails, it holds on just when the pair's delta was zero |
| `GlobalState.Filesystem.Mount` | hardware/gd32w/1.0.0/libraries/LittleFS/src/lfs.c:4548-4635 | the fold over the tail list reconstructs the state up to the size field, which is then 1 just when there are orphans, plus the bit that the last superblock of an older version asks for |
| `GlobalState.TopBitIs` | hardware/gd32w/1.0.0/libraries/LittleFS/src/lfs.c:4634 | a state has orphans when the top bit of its packed tag is set |
| `GlobalState.Run` | hardware/gd32w/1.0.0/libraries/LittleFS/src/lfs.c:2045-2091 | over any run of state changes, commits, splits, drops and mounts the stored deltas add up to what RAM takes the disk to say |
| `Tortoise.NextMove` | hardware/gd32w/1.0.0/libraries/LittleFS/src/lfs.c:4473-4478 | the tortoise moves at calls 2^p - 1 and no others |
| `Tortoise.Detector.DetectCycles` | hardware/gd32w/1.0.0/libraries/LittleFS/src/lfs.c:4466-4482 | corruption is reported just when the tail is in sync with the pair of the last move; otherwise the history is recorded |
| `Tortoise.CycleIsReported` | hardware/gd32w/1.0.0/libraries/LittleFS/src/lfs.c:4466-4482 | behind a lead-in of m pairs a cycle of c pairs is reported within 2 max(m + 2, c) + c - 2 calls |
| `Tortoise.NoFalseAlarm` | hardware/gd32w/1.0.0/libraries/LittleFS/src/lfs.c:4466-4482 | nothing is reported on pairwise different pairs |
| `Tortoise.FinishedIsDistinct` | hardware/gd32w/1.0.0/libraries/LittleFS/src/lfs.c:4490-4497 | a tail list that ends without a report visits no pair twice in the same order of its addresses |
| `Tortoise.MetTwice` | hardware/gd32w/1.0.0/libraries/LittleFS/src/lfs.c:4490-4497 | two blocks that a list that ends visits twice are given once in either order, and lead on differently |
| `Tortoise.FinishedMeetsNoneTwice` | hardware/gd32w/1.0.0/libraries/LittleFS/src/lfs.c:4490-4497 | so if the order makes no difference to any pair on the way, no two blocks are visited twice |
| `Tortoise.TiedBlocksAreMetTwice` | hardware/gd32w/1.0.0/libraries/LittleFS/src/lfs.c:1122-1140 | blocks with tied revision counts for which it does: the walk ends without a report and has visited them twice |
| `Tortoise.Walk` | hardware/gd32w/1.0.0/libraries/LittleFS/src/lfs.c:4490-4506 | a walk of the tail list ends whatever is on disk, after at most about three times as many calls as there are pairs, a pair counted once for each order its addresses are given in; it reports a cycle exactly when the next pair is in sync with that of the last move, and then some pair was met before |
| `FindMulti.EndsByBorder` | hardware/gd32w/1.0.0/cores/gd32w/Stream.cpp:322-337 | of the prefixes of a matched prefix, those match that are also its suffixes; what the comparison with `diff` tests |
| `FindMulti.WalkBack` | hardware/gd32w/1.0.0/cores/gd32w/Stream.cpp:308-339 | the walk back finds the longest border the new letter can continue |
| `FindMulti.Feed` | hardware/gd32w/1.0.0/cores/gd32w/Stream.cpp:290-340 | one letter keeps `index` the length of the longest proper prefix of the target that the input ends with, and finds a match exactly when the input ends with the target |
| `FindMulti.FindMulti` | hardware/gd32w/1.0.0/cores/gd32w/Stream.cpp:274-341 | the search stops at the first position where some target ends and returns the least such target, at once for an empty target, and -1 exactly when none ever ends |
| `FindMulti.FindUntil` | hardware/gd32w/1.0.0/cores/gd32w/Stream.cpp:123-132 | `findUntil` succeeds just when the target ends somewhere before any terminator has ended, the target winning a tie |
| `AddressText.CanonicalIsUnique` | hardware/gd32w/1.0.0/cores/gd32w/IPAddress.cpp:118-162 | an IPv6 address has one canonical text |
| `AddressText.CanonicalScans` | hardware/gd32w/1.0.0/cores/gd32w/IPAddress.cpp:219-297 | scanning the canonical text, with or without a zone suffix, gives back the eight fields and the zone, for every address |
| `AddressText.ParseForgets` | hardware/gd32w/1.0.0/cores/gd32w/IPAddress.cpp:219-297 | what the address held before makes no difference to what `fromString6` reads |
| `AddressText.ZoneScans` | hardware/gd32w/1.0.0/cores/gd32w/IPAddress.cpp:259-268 | a zone from 1 to 255, printed less one, is read back |
| `AddressText.DottedScans` | hardware/gd32w/1.0.0/cores/gd32w/IPAddress.cpp:174-217 | scanning a dotted quad gives the four octets back |
| `AddressText.CanonicalIsNotDotted` | hardware/gd32w/1.0.0/cores/gd32w/IPAddress.cpp:167-172 | no IPv6 text is taken for an IPv4 address |
| `AddressText.DigitsAre` | hardware/gd32w/1.0.0/cores/gd32w/IPAddress.cpp:228-231 | the digits are 0123456789abcdef with those values, in either case |
| `AddressText.DigitCharsAre` | hardware/gd32w/1.0.0/cores/gd32w/IPAddress.cpp:224-225 | and no other characters are digits |
| `AddressText.HexIs` | hardware/gd32w/1.0.0/cores/gd32w/IPAddress.cpp:383-396 | a field is printed as its value in small hexadecimal digits without leading zeros |
| `AddressText.DecIs` | hardware/gd32w/1.0.0/cores/gd32w/IPAddress.cpp:108-116 | an octet as its value in decimal digits without leading zeros |
| `AddressGrammar.Parse6Means` | hardware/gd32w/1.0.0/cores/gd32w/IPAddress.cpp:219-297 | the scan of `fromString6` accepts exactly the texts of eight groups of hexadecimal digits up to ffff, or fewer around one double colon, with an optional zone; it reads the groups as their values, the double colon as the zeros that are missing |
| `AddressGrammar.Parse4Means` | hardware/gd32w/1.0.0/cores/gd32w/IPAddress.cpp:174-217 | the scan of `fromString4` accepts exactly four decimal numbers up to 255 with dots between, and reads them as such |
| `AddressGrammar.ZoneMeans` | hardware/gd32w/1.0.0/cores/gd32w/IPAddress.cpp:259-268 | the zone is one more than the first number behind the percent sign, as a byte, and 1 without a number |
| `IPAddresses.RunStep` | hardware/gd32w/1.0.0/cores/gd32w/IPAddress.cpp:128-144 | one more field: the zero run that ends with it takes over just when it is longer |
| `IPAddresses.PiecesAreShape` | hardware/gd32w/1.0.0/cores/gd32w/IPAddress.cpp:146-161 | the printing loop writes the fields with the chosen run as a double colon |
| `IPAddresses.NibblesAreHex` | hardware/gd32w/1.0.0/cores/gd32w/IPAddress.cpp:383-396 | the four-digit printing of `printTo` is the hexadecimal form without leading zeros |
| `IPAddresses.IPAddress.FindRun` | hardware/gd32w/1.0.0/cores/gd32w/IPAddress.cpp:128-144 | the loop finds the leftmost longest run of at least two zero fields (sections 4.2.2 and 4.2.3 of RFC 5952) |
| `IPAddresses.IPAddress.ToString` | hardware/gd32w/1.0.0/cores/gd32w/IPAddress.cpp:108-165 | `toString` gives the canonical text, whatever its argument |
| `IPAddresses.IPAddress.PrintTo` | hardware/gd32w/1.0.0/cores/gd32w/IPAddress.cpp:356-422 | `printTo` prints the same text, with the zone behind it when asked for and not 0, and counts the characters |
| `IPAddresses.IPAddress.FromString4` | hardware/gd32w/1.0.0/cores/gd32w/IPAddress.cpp:174-217 | `fromString4` accepts exactly four octets in range; even a refused text wipes the address |
| `IPAddresses.IPAddress.MoveApart` | hardware/gd32w/1.0.0/cores/gd32w/IPAddress.cpp:286-293 | the two loops at the end move the fields behind the double colon to the end, with zeros between |
| `IPAddresses.IPAddress.FromString6` | hardware/gd32w/1.0.0/cores/gd32w/IPAddress.cpp:219-297 | `fromString6` computes the scan, field by field in place; without a zone suffix the old zone stays |
| `IPAddresses.IPAddress.FromString` | hardware/gd32w/1.0.0/cores/gd32w/IPAddress.cpp:167-172 | `fromString` tries IPv4 first and reads IPv6 otherwise |
| `IPAddresses.TextRoundTrip` | hardware/gd32w/1.0.0/cores/gd32w/IPAddress.cpp:108-172 | `fromString(toString(a))` restores every IPv6 address, whatever the target held |
| `IPAddresses.ZoneRoundTrip` | hardware/gd32w/1.0.0/cores/gd32w/IPAddress.cpp:356-416 | printed with its zone an address comes back with its zone, unless that is 0 |
| `IPAddresses.DottedRoundTrip` | hardware/gd32w/1.0.0/cores/gd32w/IPAddress.cpp:108-217 | an IPv4 address comes back |
| `WordBits.ChoiceForm` | hardware/gd32w/1.0.0/libraries/Hash/src/SHA1Builder.cpp:83 | the source's form of the choice function is the standard's |
| `WordBits.MajorityForm` | hardware/gd32w/1.0.0/libraries/Hash/src/SHA1Builder.cpp:137 | and so is its form of the majority function |
| `Sha1.NextWord` | hardware/gd32w/1.0.0/libraries/Hash/src/SHA1Builder.cpp:69 | the sixteen-word circular schedule yields the words of the eighty-word one |
| `Sha1.P` | hardware/gd32w/1.0.0/libraries/Hash/src/SHA1Builder.cpp:71-75 | a round on rotated variables is the standard's round |
| `Sha1.Process` | hardware/gd32w/1.0.0/libraries/Hash/src/SHA1Builder.cpp:47-196 | `process` computes the block function of section 6.1.2 of FIPS 180-4 for every state and block |
| `Sha1.MachineIsLawful` | hardware/gd32w/1.0.0/libraries/Hash/src/SHA1Builder.cpp:67-75 | 32-bit words meet the laws this rests on; what their operations are is said below |
| `Sha1.RotationsAre` | hardware/gd32w/1.0.0/libraries/Hash/src/SHA1Builder.cpp:67-75 | the three rotations are those to the left by 1, 5 and 30 bits |
| `Sha1.OperationsAre` | hardware/gd32w/1.0.0/libraries/Hash/src/SHA1Builder.cpp:67-75 | sums are taken modulo 2^32, and the other operations bit by bit |
| `Sha1.FunctionsAre` | hardware/gd32w/1.0.0/libraries/Hash/src/SHA1Builder.cpp:83-160 | bit by bit the functions of the rounds choose, take the parity, take the majority and take the parity again, twenty rounds each |
| `Sha1.ConstantsAreRoots` | hardware/gd32w/1.0.0/libraries/Hash/src/SHA1Builder.cpp:84-162 | the constants of the rounds are the integral parts of 2^30 times the square roots of 2, 3, 5 and 10 |
| `Sha1.InitialIs` | hardware/gd32w/1.0.0/libraries/Hash/src/SHA1Builder.cpp:206-210 | the initial state, byte by byte |
| `Sha1.RoundIs` | hardware/gd32w/1.0.0/libraries/Hash/src/SHA1Builder.cpp:71-75 | one round in plain arithmetic modulo 2^32 |
| `Sha1.ScheduleIs` | hardware/gd32w/1.0.0/libraries/Hash/src/SHA1Builder.cpp:50-69 | the schedule: sixteen words of the block, most significant byte first, and the others from those 3, 8, 14 and 16 back |
| `Sha1.CompressIs` | hardware/gd32w/1.0.0/libraries/Hash/src/SHA1Builder.cpp:78-196 | the block function: eighty rounds, whose outcome is added to the state |
| `Sha1Stream.CountCarries` | hardware/gd32w/1.0.0/libraries/Hash/src/SHA1Builder.cpp:227-232 | the carry between the two words of the byte count is right |
| `Sha1Stream.LengthWords` | hardware/gd32w/1.0.0/libraries/Hash/src/SHA1Builder.cpp:301-305 | the two words put behind the message are its length in bits, most significant byte first |
| `Sha1Stream.SHA1Builder.Add` | hardware/gd32w/1.0.0/libraries/Hash/src/SHA1Builder.cpp:216-251 | `add` leaves the builder holding the longer message |
| `Sha1Stream.SHA1Builder.Calculate` | hardware/gd32w/1.0.0/libraries/Hash/src/SHA1Builder.cpp:292-320 | `calculate` folds the block function over exactly the padded message of section 5.1.1 of FIPS 180-4 |
| `Sha1Stream.HashParts` | hardware/gd32w/1.0.0/libraries/Hash/src/SHA1Builder.cpp:216-320 | the twenty bytes of SHA-1 of a message that arrives in pieces are those of the whole, for every way of cutting it: the fold of `Sha1.Process` from `Sha1.InitialIs` over the message as `HashStream.PaddedIs` pads it |
| `Sha1Stream.DigestLoads` | hardware/gd32w/1.0.0/libraries/Hash/src/SHA1Builder.cpp:313-317 | the digest bytes give the five words of the state back |
| `Sha1Stream.DigestWords` | hardware/gd32w/1.0.0/libraries/Hash/src/SHA1Builder.cpp:313-317 | they are those words in order |
| `Sha1Stream.WordByte` | hardware/gd32w/1.0.0/libraries/Hash/src/SHA1Builder.cpp:313-317 | each most significant byte first |
| `HashStream.BlocksConcat` | hardware/gd32w/1.0.0/libraries/Hash/src/SHA2Builder.cpp:244-284 | folding over full blocks first and then over the rest is folding over all |
| `HashStream.Builder.Add` | hardware/gd32w/1.0.0/libraries/Hash/src/SHA2Builder.cpp:244-284 | the add of the SHA-2 and SHA-3 builders leaves them holding the longer message |
| `HashStream.AddAll` | hardware/gd32w/1.0.0/libraries/Hash/src/SHA3Builder.cpp:153-184 | however a message is cut into pieces, the state and the pending bytes are those of the whole |
| `HashStream.HoldsIsUnique` | hardware/gd32w/1.0.0/libraries/Hash/src/SHA3Builder.cpp:153-184 | two builders that hold the same message are in the same state with the same bytes pending |
| `HashStream.ZeroCountIs` | hardware/gd32w/1.0.0/libraries/Hash/src/SHA2Builder.cpp:331-351 | the zero bytes of the padding are the least number that completes a block |
| `HashStream.PaddedIs` | hardware/gd32w/1.0.0/libraries/Hash/src/SHA2Builder.cpp:331-363 | a padded message is whole blocks: the message, a one bit, as few zeros as do, and the length in bits, most significant byte first |
| `HashStream.Padded3Is` | hardware/gd32w/1.0.0/libraries/Hash/src/SHA3Builder.cpp:115-124 | behind a message for SHA-3 stand the bits 01, a one, as few zeros as complete a block, and a last one |
| `HashStream.Builder.Calculate` | hardware/gd32w/1.0.0/libraries/Hash/src/SHA2Builder.cpp:326-386 | `pad` and `calculate` fold the block function over the padded message; for 64-byte blocks that is section 5.1.1 of FIPS 180-4 |
| `HashStream.WidePadding` | hardware/gd32w/1.0.0/libraries/Hash/src/SHA2Builder.cpp:334-363 | for SHA-384 and SHA-512 the padding is that of section 5.1.2, length field of 128 bits included, just when the message does not end 112 to 119 bytes into a block and is shorter than 2^61 bytes |
| `HashStream.Builder.CalculateSponge` | hardware/gd32w/1.0.0/libraries/Hash/src/SHA3Builder.cpp:115-124 | the SHA-3 builder ends with the fold of its permutation over the message and what `pad` puts behind it |
| `HashStream.SpongePadding` | hardware/gd32w/1.0.0/libraries/Hash/src/SHA3Builder.cpp:115-124 | that is the padding of FIPS 202 just when more than one byte of the rate is free |

## Left out

- BlockLookup.GetSlice: the byte range of the caller's buffer, and read errors on the way; it returns the whole attribute.
- NameSearch.FetchMatch: read errors, the valid-bit handling of pending moves, and the repetition per commit; it sees the log of
  the accepted commits. On logs littlefs does not write, an id of the best tag that leaves its ten bits would disturb the fields
  beside it; the model keeps it apart.
- NameExactness.SearchIsExact: entries whose name is written twice, which littlefs never does; a name that is not compared (the
  superblock's) comes before all others.
- Splitting.SplittingCompact: when the superblock is expanded, which the caller says, and the attributes still to be committed,
  which are taken to stand at the end of the log; `LFS_FROM_MOVE` and `LFS_FROM_USERATTRS` are taken as expanded.
- CrashAtomicity.RunIsAtomic: relocation to other blocks. Erasing is the first part of a compaction: cut short, it leaves the block
  with no commit the checksum lets through, or with what it held under its older revision.
- CommitFormat.FetchBlock: the entry count, which `NameSearch.FetchMatch` has, and reads that fail; the erased test is in
  `ForwardCheck`.
- ForwardCheck.FetchErased: a forward CRC attribute of fewer than eight bytes is passed over, where the source reads on behind it;
  old disk versions without forward CRCs.
- MetadataPair.FetchBoth: revision words that cannot be read, and block addresses outside the device.
- MetadataPair.CommitInPlace: device errors and the read-back at the end.
- MetadataPair.CompactInto: likewise; when it succeeds is stated for a commit limit at the end of the block, not for a smaller
  `metadata_max`.
- CommitWriter.CommitCrc: the read-back at its end, a `metadata_max` other than the limit passed in, and old disk versions without
  forward CRCs.
- BlockCache.BlockDevice.Sync: the device's own sync call, which is the caller's.
- BlockCache.BlockDevice.Read: off + size and off + hint are unbounded, where the source's 32-bit sums could wrap.
- PairCreation.CreateRecycled: a first block that cannot be read, for which the count starts at 0.
- SplitAtomicity.TornSplitIsAtomic: the allocation of the new pairs, which are not those the old directory leads to, and their
  global state, which `GlobalState.Filesystem.Split` accounts for.
- BlockCache.BlockDevice.Prog: blocks held only in RAM for inline files, and data that neither continues the cache nor starts a
  program unit, such as the tags behind the padding of a commit.
- BlockCache.BlockDevice.Relocate: inline files; errors of the allocator other than running out of blocks.
- CtzExtend.Volume.Extend: the caches, which `BlockCache` covers; pointers and bytes go to the device directly and reads succeed.
- CtzExtend.Volume.WritePointers: likewise.
- GlobalState.Run: the tail list is the one RAM means; the commits that relink a relocated pair are ordinary commits in it, and
  the list on disk between the relocation and those commits is not represented.
- Tortoise.Detector.DetectCycles: the period is unbounded, where the source's would wrap after 2^32 calls.
- FindMulti.FindMulti: the time-out of a read, which is the end of the stream here; characters are unsigned.
- IPAddresses.IPAddress.FromString6: a zone number too large for `long`.
- HashStream.Builder.Calculate: the output bytes of the digest, which are those of the state; the length of a message of 2^61 bytes
  and more, which section 5.1.1 does not define, is kept modulo 2^64 as the code keeps it.
- Sha1Stream.SHA1Builder.Calculate: the digest bytes, which `Sha1Stream.HashParts` has.
- The compression functions of SHA-2 and the permutation of SHA-3 are parameters: their loops follow the standards
  line by line and would add only easy members.
- Pending moves in the name search, orphan repair, mounting and formatting as a whole, and littlefs version 1.
- Files above the skip list: seek, truncate, inline files.
- `lfs_npw2`, `lfs_ctz` and `lfs_popc` without compiler intrinsics.
- Peripherals, sockets, strings, ring buffers, number printing: hardware, or only easy members.
