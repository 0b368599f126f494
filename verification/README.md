# Verified models of libext2fs

This project models the parts of libext2fs, the ext2/3/4 library under the macOS kernel port, whose meaning is simple
and whose code is not, and proves that the code has that meaning. Every operation that changes state is a method over
the same fields, arrays or buffers, proved against a specification; the specifications have their own laws.

| file | what it models |
|---|---|
| `Qsort.dfy` | Bentley and McIlroy's quicksort in `e2fsmac/qsort.c` |
| `Crc32c.dfy` | CRC32C, bit by bit and eight bytes at a time; the polynomial is that of section 12.1 of RFC 3720 |
| `ExtentList.dfy`, `ExtentNode.dfy` | the extents of one node: the map they stand for, and the handle that changes them |
| `ExtentTree.dfy`, `ExtentChange.dfy`, `ExtentWalk.dfy` | the tree of extents over several levels: going down, splitting of nodes, inserting and deleting, and walking forth and back |
| `Runs.dfy`, `RbTree.dfy`, `RbBitmap.dfy` | the bitmap that is a search tree of extents, with its cursors |
| `BaBitmap.dfy`, `Backends.dfy` | the bitmap that is an array of bits, and both bitmaps side by side |
| `GenBitmap.dfy` | blocks and clusters above a bitmap |
| `BlockTree.dfy`, `Bmap.dfy`, `BlockIterate.dfy`, `BlockOrder.dfy` | indirect blocks: looking up, allocating, and walking over all of them |
| `FreeCount.dfy`, `AllocStats.dfy`, `RangeSearch.dfy`, `Alloc.dfy` | finding and taking blocks, and the free counters |
| `XattrNames.dfy`, `XattrSet.dfy`, `XattrBuffer.dfy` | extended attributes: names, placement under two budgets, and their buffers |
| `Bytes.dfy`, `DirBlock.dfy` | directory blocks and the insertion of a name |
| `SplitLeaf.dfy`, `HashTree.dfy`, `HashSpans.dfy`, `Htree.dfy`, `DirLink.dfy` | hashed directories: leaves, index, and the linking of a name |

What a reader may want to know first:

- **Hashed directories.** `DirLink.Directory.LinkName` links a name in a directory with an index of any depth. Over all
  retries, splits of leaves, splits of index blocks and new levels, the entries of the directory are the old ones and
  the new one; the index stays ordered, and every entry stays where a lookup finds it
  (`DirLink.Directory.EntryFound`), collisions over several leaves included. Growing the index leaves the list of leaves
  with their bounds exactly as it is. The retries always suffice: without room the answer is given only when no level
  can be added, or after a leaf has been split and still has no place. The one exception is a full leaf whose entry of the lowest hash is so long
  that nothing is left to split: the code then writes over that leaf, and the model says what is on disk by then.
- **Extent trees.** `ExtentTree.Handle.NodeSplit` splits a node of a tree of any depth, and the full nodes above it first,
  up to a new root: not one extent moves in the flattened list, every logical block still leads to the leaf that has its
  extent, and whether there is an error is known beforehand from the free blocks and the full nodes on the way.
  `ExtentChange` inserts and deletes extents: the list gains or loses exactly one, with emptied nodes removed and keys
  corrected. The walk of `ExtentWalk` reports each extent once and each entry of an index node before and behind what is
  below it.
- **Bitmaps.** The search tree refines union and difference of sets in every branch, stays canonical, and its three
  cursors never name an extent that is no longer there. `Backends.Drive` runs it beside the bit array over any list of
  operations.
- **Blocks.** `ext2fs_bmap2` changes a file at one place only and counts every block it takes, index blocks included; the
  walk over a file and the lookup agree (`BlockIterate.BothWays`).
- **Where the code falls short** a lemma says exactly when: the search of `ext2fs_new_range` that never ends
  (`RangeSearch.HangsForever`, `Alloc.SearchEnds`), the clear that reports a bit that was not set
  (`Runs.UnmarkAnswer`), the stale offset behind a hole, and the error code that is lost in a walk over a file
  and leaves the data behind it with wrong numbers (`BlockIterate.OffsetRight`, `BlockIterate.Context.Iterate`,
  `BlockIterate.NumbersRight`), the counter that is wrong when a block is freed twice
  (`AllocStats.FileSystem.Stats`), the search for a zero in an empty tree (`RbBitmap.Bitmap.FindFirstZero`), the leaf that
  cannot be split and is written over (`SplitLeaf.SplitLeaf`, `DirLink.Directory.LinkName`), the walk over an extent tree
  that begins where a search has ended and meets extents again (`ExtentWalk.Handle.Goto`), the insertion in front of a
  first extent that leaves a key too high (`ExtentChange.Insert`).

## Model

| member | source | states |
|---|---|---|
| `Qsort.Sort` | e2fsmac/qsort.c:113-205 | for every array, every range of it and every total preorder: it terminates, the range is sorted, is a permutation of what it was, and the rest of the array is untouched |
| `Qsort.Partition` | e2fsmac/qsort.c:150-178 | the two scans leave four regions, equal, less, greater, equal, and swapCnt is zero exactly if they exchanged nothing |
| `Qsort.VecSwap` | e2fsmac/qsort.c:94-112 | exchanges two blocks that do not overlap, and nothing else |
| `Crc32c.Crc32Body` | libext2fs/crc32c.c:76-137 | for every seed, buffer and alignment the slicing loops give the bit-by-bit remainder, when table k holds the remainders of a byte and k zero bytes |
| `Crc32c.Chained` | libext2fs/crc32c.c:147-189 | the remainder of a concatenation is that of the second part with the first one's as seed |
| `Crc32c.DoCrcIsBitwise` | libext2fs/crc32c.c:80-90 | one table lookup is eight shifts |
| `Crc32c.BurstDetected` | libext2fs/crc32c.c:147-184 | of the bit-by-bit form, and so of the fast one: two messages that differ within four consecutive bytes only have different remainders |
| `Crc32c.ChecksumIsRemainder` | libext2fs/crc32c.c:147-184 | the checksum is the one word that is left when the message, with the seed added to its head and 32 zeros behind it, is divided by the polynomial with the exponents of RFC 3720; uniqueness of the remainder included |
| `ExtentNode.Handle.SetBmapChecked` | libext2fs/extent.c:1258-1600 | in a tree of one node the map changes at the one logical block, and there as asked, with the list well formed again, over every branch; how many extents there are then is known beforehand from the lengths, flags and blocks of the extents next to the block, and room is refused exactly if that is more than the node takes, which leaves the node as before |
| `ExtentNode.Handle.SetBmap` | libext2fs/extent.c:1339-1597 | the extents become those of the list function SetBmap, or stay as they were |
| `ExtentNode.Handle.Goto` | libext2fs/extent.c:660-743 | stands at the extent of the block if there is one, else at the last one before it |
| `ExtentNode.Handle.Insert` | libext2fs/extent.c:1160-1234 | the extent comes before or behind the current one and all others keep their order, unless the node is full |
| `ExtentNode.Handle.Delete` | libext2fs/extent.c:1602-1681 | the current extent is gone, all others keep their order |
| `ExtentNode.DecodeEncode` | libext2fs/extent.c:846-862 | an extent comes back from its stored form if and only if it is initialized and not longer than 0x8000 blocks, or uninitialized and not empty |
| `ExtentList.SetBmapGoal` | libext2fs/extent.c:1339-1597 | of the lists alone: the list function SetBmap maps one block differently and every other one as before, and keeps the list well formed |
| `ExtentList.SetBmapGrowth` | libext2fs/extent.c:1531-1570 | at most two extents more |
| `ExtentList.SetBmapCounted` | libext2fs/extent.c:1385-1597 | the number of extents, in literal lengths and flags: a hole that stays one, or beside an extent that the block continues, or that continues it, takes none more; any other hole one; in an extent it is one less up to two more, as the block is its first, last, only or an inner one, is unmapped, and continues a neighbour |
| `ExtentList.FullButContinued` | libext2fs/extent.c:1395-1402 | a full node of four extents in which a block behind the first is mapped with four extents again |
| `ExtentList.GotoFinds` | libext2fs/extent.c:698-740 | the place that is found is where the map looks a block up |
| `ExtentTree.Handle.NodeSplit` | libext2fs/extent.c:898-1153 | with the parents that are full split first, up to a new root: the list of all extents stays as it is, the tree stays ordered, within its capacities and of equal depth, the node that is searched on has room, and it takes one block for each node split; which error comes is exactly known from the free blocks, the full nodes above and the entries |
| `ExtentTree.Handle.HalveNode` | libext2fs/extent.c:994-1140 | one entry goes to the new node if the search ends at the last entry of every level and growing is allowed, about half of them otherwise |
| `ExtentTree.Handle.LastOfAllIs` | libext2fs/extent.c:875-899 | the test for the end of the file holds exactly if the last extent of the file does not begin behind the block; for a node above the leaves, if no entry does of it and of the nodes on the way |
| `ExtentTree.Handle.MoveRoot` | libext2fs/extent.c:999-1115 | all entries of the root go to a new node, and the tree has one level more |
| `ExtentTree.IndexSplit` | libext2fs/extent.c:1058-1120 | an index node at any depth that is split leaves all extents and their order, and the half that is searched on is the next node |
| `ExtentTree.LeafSplits` | libext2fs/extent.c:1058-1120 | so does a leaf, whose new key lies between its bounds |
| `ExtentTree.LooksRight` | libext2fs/extent.c:660-743 | the leaf that a logical block leads to maps it as the list of all extents does |
| `ExtentTree.Handle.Goto` | libext2fs/extent.c:660-743 | at every height the scans end at the node that the keys lead to |
| `ExtentTree.Handle.Find` | libext2fs/extent.c:660-743 | finds an extent exactly if one of all leaves has the logical block |
| `ExtentTree.KidFor` | libext2fs/extent.c:707-728 | the scan of an index node, which stops at an equal key, finds the last key that is not greater, and tells whether it has stepped back to it |
| `ExtentTree.WideStrict` | libext2fs/extent.c:712-732 | since no leaf is empty, no two keys of a node are equal |
| `ExtentTree.ExtentsWellFormed` | libext2fs/extent.c:660-743 | the extents of all leaves, one leaf after the other, are in order and do not overlap |
| `ExtentWalk.Handle.Next` | libext2fs/extent.c:323-352 | from any place, with any of the entries above counting as visited or not: reports the next item of all that is to come, or nothing exactly at its end |
| `ExtentWalk.Handle.Prev` | libext2fs/extent.c:354-383 | goes back to a place from which Next leads here, the entry above counting as visited then; or does nothing, exactly at the first item |
| `ExtentWalk.Handle.NextLeaf` | libext2fs/extent.c:567-570 | the next extent of those still to come, or nothing if there is none |
| `ExtentWalk.Handle.Root` | libext2fs/extent.c:401-422 | the first item of the walk, with all others still to come |
| `ExtentWalk.TreeWalk` | libext2fs/extent.c:301-578 | the extents of the walk are those of all leaves in order, and each node below the root is reported exactly once when going down and once when coming back |
| `ExtentWalk.Handle.Goto` | libext2fs/extent.c:660-743 | stands at the extent of the block or beside the hole; the walk from there leads over the extents behind it, and no others, if and only if the scan of every index node on the way has stepped back |
| `ExtentWalk.GoesOnIff` | libext2fs/extent.c:325-352 | from a leaf the walk goes on over the extents behind the current one exactly if all entries above count as visited, and else over more |
| `ExtentWalk.WalkRepeats` | libext2fs/extent.c:707-735 | a file of one leaf, in which the walk from the second extent leads over both again |
| `ExtentChange.InsertAndFix` | libext2fs/extent.c:1160-1234 | with the keys corrected afterwards: the list of all extents gains the new one at its place, the tree stays in order, and which error comes is exactly known; in front of the current extent always, behind it if the extent ends before the next leaf |
| `ExtentChange.Insert` | libext2fs/extent.c:1160-1234 | the insertion alone, after a full leaf has been split: the list gains the extent, and the tree is in order if and only if it lies between the bounds of the leaf, which behind the current extent it does if it did before |
| `ExtentChange.FixParents` | libext2fs/extent.c:767-824 | whatever the lower bound of the leaf was, the tree is in order afterwards, with the same extents |
| `ExtentChange.SetKeySpans` | libext2fs/extent.c:800-816 | the corrected key is the bound between the leaf and the one before it, and no other bound changes |
| `ExtentChange.Delete` | libext2fs/extent.c:1602-1681 | the list of all extents loses exactly the current one and the tree stays in order; an emptied leaf is removed with all index nodes that are empty then: exactly the blocks that were in the tree and are no longer, each once, are given back and taken off the count; none as long as the leaf has another extent; the root stays, as a leaf if nothing is left |
| `ExtentChange.FreedIs` | libext2fs/extent.c:1652-1668 | exactly these blocks go, none twice |
| `ExtentChange.PrunedAre` | libext2fs/extent.c:1652-1668 | they are the leaf and the nodes above it as far up as each has one entry only, without the root |
| `ExtentChange.PruneSpans` | libext2fs/extent.c:1650-1668 | without a leaf all others are there in the same order, with bounds that are as far apart as before or farther |
| `Runs.CanonicalUnique` | libext2fs/blkmap64_rb.c:86-149 | a list of positive, sorted runs that are apart and not adjacent, which is what check_tree demands, is the only such list for its set of bits |
| `RbBitmap.Bitmap.InsertExtent` | libext2fs/blkmap64_rb.c:393-495 | the set becomes its union with the range, the tree stays canonical and ordered, the cursors stay good, and the answer is whether the first bit was set |
| `RbBitmap.Bitmap.RemoveExtent` | libext2fs/blkmap64_rb.c:497-579 | the set becomes its difference with the range, with the tree and the cursors as good as before; the answer is Meets |
| `Runs.MeetsIsInclusive` | libext2fs/blkmap64_rb.c:555-575 | Meets holds exactly if a bit from the start to the end of the range, the one behind it included, was set |
| `Runs.UnmarkAnswer` | libext2fs/blkmap64_rb.c:594-606 | clearing one bit answers rightly whether it was set if and only if it was set or the bit behind it was not |
| `Runs.UnmarkAnswerWrong` | libext2fs/blkmap64_rb.c:560-575 | an input for which it does not |
| `RbBitmap.Bitmap.TestBit` | libext2fs/blkmap64_rb.c:331-391 | membership, by way of the cached gap, the cached extent or the tree, with the cursors good again |
| `RbBitmap.Bitmap.TestClearExtent` | libext2fs/blkmap64_rb.c:643-697 | whether no bit of the range is set |
| `RbBitmap.Bitmap.FindFirstZero` | libext2fs/blkmap64_rb.c:823-857 | the first zero in the range, if and only if the tree is not empty or the range is; in an empty tree nothing is found |
| `RbBitmap.Bitmap.FindFirstSet` | libext2fs/blkmap64_rb.c:859-905 | the first set bit in the range |
| `RbBitmap.Bitmap.Truncate` | libext2fs/blkmap64_rb.c:287-306 | the bits beyond the new end are gone, all others stay |
| `RbBitmap.Bitmap.Resize` | libext2fs/blkmap64_rb.c:308-328 | bits beyond the smaller end are gone, and the padding up to the real end is set |
| `RbBitmap.Bitmap.SetRange` | libext2fs/blkmap64_rb.c:699-743 | exactly the bits set in the buffer are added |
| `RbBitmap.Bitmap.GetRange` | libext2fs/blkmap64_rb.c:745-808 | the buffer becomes a copy of the range, unless the tree is empty: then it is untouched |
| `RbTree.LinkInOrder` | libext2fs/blkmap64_rb.c:419-441 | a node linked at the place the descent ends keeps the order of all others |
| `RbTree.EraseInOrder` | libext2fs/blkmap64_rb.c:466-487 | erasing a node leaves the order of all others |
| `BaBitmap.BitArray.FindFirst` | libext2fs/blkmap64_ba.c:326-469 | the scan by bits, words and bytes finds what a linear scan finds |
| `BaBitmap.BitArray.TestClearExtent` | libext2fs/blkmap64_ba.c:210-281 | masks at both ends and whole bytes between: whether no bit of the range is set |
| `Backends.Drive` | libext2fs/blkmap64_rb.c:581-697 | over any list of operations both bitmaps hold the set of a reference and give its answers, but for the two answers above, for which the exact condition is in Right and Quirk |
| `GenBitmap.Galois` | libext2fs/gen_bitmap64.c:749-790 | a block lies in a cluster or behind it exactly if it is not less than the first block of that cluster |
| `GenBitmap.Bitmap.FindFirst` | libext2fs/gen_bitmap64.c:741-849 | the least block in the range whose cluster is as wanted, which is the first of the range or the first of its cluster; refused exactly for a range out of bounds |
| `GenBitmap.Bitmap.SetRange` | libext2fs/gen_bitmap64.c:617-697 | exactly the clusters that a range of blocks touches become set or clear |
| `GenBitmap.Bitmap.TestRange` | libext2fs/gen_bitmap64.c:572-615 | whether the clusters of all blocks of the range are clear |
| `Bmap.File.Bmap2` | libext2fs/bmap.c:301-481 | the map of the file changes at one block, as asked, or not at all; all pointers stay apart; what is newly in use is counted and pointed to, missing index blocks included; a plain lookup changes nothing; without permission to allocate, setting is refused exactly if an index block on the way is missing; no space is answered only when no block of the device is clear and fewer than needed have been taken, and on success exactly the missing ones were |
| `Bmap.File.TindBmap` | libext2fs/bmap.c:112-130 | three levels down: the entry is set, allocated or looked up, and nothing else but new index blocks changes |
| `Bmap.TargetInjective` | libext2fs/bmap.c:391-468 | different block numbers lead to different pointers |
| `BlockIterate.Context.Iterate` | libext2fs/block.c:320-567 | whatever can be read, the calls are those of Visit and the error is that of the last tree it entered; if all index blocks can be read the calls are those of FileWalk; the answer is no error exactly if the last tree it entered is good, whatever the others were |
| `BlockIterate.VisitIs` | libext2fs/block.c:52-318 | a tree is walked without error exactly if all its index blocks can be read; then all of it is walked, and only then is everything counted that it could hold |
| `BlockIterate.NumbersRight` | libext2fs/block.c:536-552 | the data behind a tree gets its right numbers if and only if all index blocks of the trees before it can be read |
| `BlockIterate.ErrorLost` | libext2fs/block.c:86-98 | for every size of a block, a file with an unreadable index block for which no error is returned |
| `BlockIterate.ErrorShifts` | libext2fs/block.c:86-98 | for every size of a block, a file for which no error is returned and a data block is called for under a number that it does not have |
| `BlockIterate.WalkAgreesWithBmap` | libext2fs/block.c:522-552 | the calls for data are exactly the pairs of a block number and the block its pointer leads to |
| `BlockIterate.BothWays` | libext2fs/bmap.c:362-468 | whenever ext2fs_bmap2 answers, the walk makes exactly the call for that answer, or none if it is zero |
| `BlockIterate.WalkIncreasing` | libext2fs/block.c:522-552 | in increasing order, once each |
| `BlockIterate.OffsetRight` | libext2fs/block.c:186-200 | the offset reported for an index block is right if and only if no entry before it is a hole |
| `BlockIterate.OffsetExample` | libext2fs/block.c:186-200 | behind a hole at the beginning the second index block is reported at the offset of the first |
| `BlockIterate.DataPlaceRight` | libext2fs/block.c:110-135 | the offset reported for data is right, holes or not |
| `BlockOrder.FileIndexBlocks` | libext2fs/block.c:52-318 | the calls with the count of an index block are for exactly the index blocks of that depth, once each and in the order of the file; none with BLOCK_FLAG_DATA_ONLY |
| `BlockOrder.FileInOrder` | libext2fs/block.c:52-318 | the call for an index block, with the count of its depth, comes before those for the blocks it names, or behind them with BLOCK_FLAG_DEPTH_TRAVERSE |
| `AllocStats.FileSystem.Stats` | libext2fs/alloc_stats.c:60-86 | the bit of the cluster becomes as asked; the counters are right afterwards if and only if it was not so before |
| `AllocStats.FileSystem.StatsRange` | libext2fs/alloc_stats.c:109-150 | a range of whole clusters over any number of groups: the bits flip, every group count and the total count stay right |
| `AllocStats.GroupCountRight` | libext2fs/alloc_stats.c:131-136 | the wrapped product and quotient are the right change of a group count |
| `RangeSearch.HangsForever` | libext2fs/alloc.c:437-498 | with a minimum length and no fixed goal, some block clear but not the last, and no run long enough, the loop is not done after any number of turns |
| `RangeSearch.HangsExample` | libext2fs/alloc.c:447-458 | three blocks for which that is so |
| `RangeSearch.TurnRight` | libext2fs/alloc.c:437-498 | in every other case a turn answers rightly or brings the search forward |
| `Alloc.NewBlock` | libext2fs/alloc.c:144-199 | the first clear block from the cluster of the goal on, for a goal between the first and the last block, else from the first block; failing that the first before it; failure only if none is clear |
| `Alloc.AllocBlock` | libext2fs/alloc.c:222-261 | exactly that block is set, and nothing else changes; the errors are as there |
| `Alloc.NewRange` | libext2fs/alloc.c:401-505 | where the search ends: a run of clear blocks as the flags ask for, the first from the goal on and then from the first block on, maximal if it is short; and failure only if there is none |
| `Alloc.AllocRange` | libext2fs/alloc.c:522-551 | the clusters of that run are set, and nothing else changes; refused exactly if there is none |
| `Alloc.SearchEnds` | libext2fs/alloc.c:437-498 | tells exactly whether that search ends |
| `Alloc.Drive` | libext2fs/alloc.c:522-551 | over any run of allocations of blocks and ranges, with fixed goals or searching, and of frees: each takes the block or range it should or none if there is none; live ranges never overlap, what is set is what was set at first or is live, and all counters are right |
| `XattrNames.NameComposed` | libext2fs/ext_attr.c:404-427 | prefix and short name make up the full name |
| `XattrNames.IndexOfComposed` | libext2fs/ext_attr.c:404-427 | index and short name come back from a composed name exactly if no earlier prefix fits it |
| `XattrNames.PlainNames` | libext2fs/ext_attr.c:391-427 | names behind "user.", "trusted.", "security." and "gnu." have the indexes 1, 4, 6 and 10, and the names of the access control lists 2, 3 and 8 |
| `XattrNames.SystemNames` | libext2fs/ext_attr.c:391-427 | a name behind "system." has the index 7 exactly if it does not begin like one of those lists |
| `XattrNames.LessIs` | libext2fs/ext_attr.c:1424-1449 | the order of the attributes in a block: index first, then length, then the first byte that is not the same |
| `XattrNames.LessTotal` | libext2fs/ext_attr.c:1424-1449 | that order is total |
| `XattrSet.Handle.ArrayUpdate` | libext2fs/ext_attr.c:1451-1565 | the map from names to values changes at one name; no space exactly if the attribute fits in neither part, and then nothing changes; neither part outgrows its budget; the block part stays sorted, also when the entry moves |
| `XattrSet.Handle.Set` | libext2fs/ext_attr.c:1589-1699 | done exactly if the attribute, once what it replaces is given back, fits in the body or in the block; full exactly if it fits in neither, corrupted exactly for inline data in the block; the value goes to an inode of its own exactly if that is allowed and it is large or fits nowhere else; the body is taken before the block; nothing else changes |
| `XattrSet.SpaceIs` | libext2fs/ext_attr.c:1567-1582 | what an attribute takes: 16 bytes and its name, and its value unless that has an own inode, each rounded up to four |
| `XattrSet.Handle.Remove` | libext2fs/ext_attr.c:1701-1725 | the name is gone, exactly the other attributes stay, and no part grows |
| `XattrBuffer.Write` | libext2fs/ext_attr.c:694-741 | where space_used and four bytes fit, the buffer holds all attributes: entries from the front, values from the back, offsets and hashes, and a null entry behind them |
| `XattrBuffer.Read` | libext2fs/ext_attr.c:863-1028 | from any buffer: all attributes its entries make if each passes every check, or those before the first one that does not, with an error; from a buffer that holds a list that list, in order |
| `XattrBuffer.WriteRead` | libext2fs/ext_attr.c:863-1028 | parsing undoes serializing, with every check of offsets, sizes and hashes passing |
| `XattrBuffer.CheckValue` | libext2fs/ext_attr.c:940-960 | an inline value passes exactly if it is small enough, ends in the buffer and begins behind the entries |
| `XattrBuffer.FindEnd` | libext2fs/ext_attr.c:876-896 | finds the end of the list exactly if walking along the entries comes to one |
| `DirBlock.LinkBlock` | libext2fs/dir_iterate.c:182-314 | in a well-formed block, with a checksum tail or without, the live entries stay in order and the block well formed; the new entry comes in exactly once, and does so exactly if a record has enough bytes to spare, alone or with the free record behind it; the row becomes exactly what the list function Search makes of it |
| `DirBlock.SearchGives` | libext2fs/link.c:206-258 | when that is, in lengths of records: a free record behind another counts with it unless eight bytes are all that is left, and is not looked at again |
| `DirBlock.SearchFails` | libext2fs/link.c:182-260 | where a search finds no place, no record of what it leaves behind has enough bytes to spare |
| `DirBlock.LinkProc` | libext2fs/link.c:182-260 | one call: the records behind it, their total length and the bytes around them stay, and a search loses no room by it |
| `DirBlock.LinkOneShape` | libext2fs/link.c:206-258 | absorbing, dividing and filling keep the live entries but for the new one in front |
| `DirBlock.SetRecLen` | libext2fs/dir_iterate.c:41-59 | writes a length exactly if it fits and is a multiple of four |
| `DirBlock.RowUnique` | libext2fs/dir_iterate.c:219-234 | the bytes determine the row of records |
| `SplitLeaf.SplitLeaf` | libext2fs/link.c:372-449 | the entries with names are distributed over two well-formed leaves, none lost and none new; hashes in the old one are below the key, those in the new one not below it but for its lowest bit, which is set exactly if a hash is in both; done exactly if what lies behind the first item is heavy enough; otherwise all entries are in the new leaf, and one of the lowest hash is left in the old one |
| `SplitLeaf.MoveDirents` | libext2fs/link.c:318-352 | the entries become a well-formed row, in the order of the map, that fills the block |
| `SplitLeaf.ReadMap` | libext2fs/link.c:397-418 | an item for each entry with a name, and the array is large enough |
| `SplitLeaf.FindSplit` | libext2fs/link.c:420-428 | about half a block is moved; all of it exactly if the items behind the first and half of that are no more |
| `SplitLeaf.StuckExample` | libext2fs/link.c:416-442 | a leaf of 1024 bytes in which a search for room fails and leaves it as it is, and which is not split |
| `SplitLeaf.OverlaidRow` | libext2fs/link.c:340-349 | with no entries to move, the block becomes the record that is at the beginning of the buffer, stretched over all of it |
| `Htree.SearchEntry` | libext2fs/link.c:58-72 | in ordered entries, the last one whose hash is at most the target, or the first |
| `Htree.Index.Lookup` | libext2fs/link.c:90-168 | one frame for each level, down to the leaf that the tree leads the hash to |
| `Htree.Index.InsertEntry` | libext2fs/link.c:354-370 | the new entry stands behind the one that was followed |
| `Htree.Index.GrowTree` | libext2fs/link.c:451-553 | the lowest block with room decides; whatever is done, keys stay ordered, counts within limits, blocks apart, and every hash leads where it did, with the leaves and their bounds as before; a block is cut in half, the root moved as a whole; refused exactly if all is full and no level can be added; a growth brings room one level further down |
| `Htree.Index.AddLeaf` | libext2fs/link.c:440-446 | exactly the hashes of the old leaf from the key on lead to the new leaf |
| `HashTree.SplitAtRoute` | libext2fs/link.c:520-540 | splitting an index block at any depth leaves the leaf of every hash unchanged |
| `HashTree.DeeperRoute` | libext2fs/link.c:505-519 | so does a new level |
| `HashTree.SameLeafIff` | libext2fs/link.c:58-72 | two hashes lead to one leaf exactly if the one lies between the bounds of the leaf of the other |
| `HashSpans.SplitAtSpans` | libext2fs/link.c:520-540 | splitting an index block leaves the list of leaves with their bounds as it is |
| `HashSpans.FiledIsFound` | libext2fs/link.c:440-446 | a hash filed under its bounds is found in the leaf it leads to or in those behind it with the next odd key |
| `DirLink.Directory.LinkName` | libext2fs/link.c:555-598 | the entries become the old ones and the new one, or stay as they are, with index and leaves in order; a place in the leaf at first is taken and the index stays as it is, and without one the name comes in only after the index has grown; no room is the answer only if the leaf has none then, and the index has grown once for each level it has, or all index blocks on the way are full and no level can be added; the latter unless a leaf has been split. Or the leaf has no room and cannot be split: then all its entries are in a block outside the index, and one of them is still in it; so it is whenever the leaf is like that at first and the index has room |
| `DirLink.Directory.EntryFound` | libext2fs/link.c:440-446 | every entry of every leaf is found from a lookup of its hash |
| `DirLink.Directory.Grow` | libext2fs/link.c:451-553 | the index grows, or the leaf is split, with all entries kept; the leaf is written over instead only if an item of the lowest hash is so long that all are moved, and always if all items of the lowest hash are |
| `DirLink.Directory.StuckOn` | libext2fs/link.c:416-442 | a directory in which LinkName comes to that |
| `DirLink.Directory.AddToLeaf` | libext2fs/link.c:262-299 | the leaf takes the name, or keeps its entries |
| `DirLink.KeyParts` | libext2fs/link.c:440-446 | the key of a new leaf lies between the bounds of the old one, and both leaves hold what belongs there |

## Left out

- Extents are mapped one block at a time (`ext2fs_extent_set_bmap`) in a tree of one node; over several levels they are inserted, deleted and looked up, with the keys corrected.
- ExtentChange.Delete: EXT2_EXTENT_DELETE_KEEP_EMPTY and the place of the cursor afterwards are left out.
- ExtentChange.FixParents: first keys are not kept, so that it does not stop early at a first key that is already right.
- ExtentTree.Handle.NodeSplit: nodes are values and leaves lie in a map, without buffers, disk blocks or checksums; the first key of a node, which no search compares, is not kept up; the goal of an allocation is left out, and the blocks that are going to be given are a list. One logical block stands for the first blocks of all entries on the way to it.
- ExtentTree.Handle.Goto: a cursor is the node that is reached; the place in the leaf is that of ExtentWalk.Handle.Goto.
- ExtentWalk.Handle.Next: of an index entry the block below and the visit are reported, without its first block and length; EXT2_EXTENT_LAST_LEAF and blocks that lead back to themselves are left out.
- ExtentNode.Handle.SetBmapChecked: a full node stands for a split whose allocation is refused; on an empty tree it asks for a physical block, as the code does; physical blocks have 48 bits and logical ones 32.
- ExtentNode.Handle.SetBmap: the rollback is that of a refused insertion only; I/O errors are not modelled.
- RbBitmap.Bitmap.InsertExtent: the links of the tree are a value beside the extent objects and nothing is rotated, since `rbtree.c` is not part of this model and nothing depends on balance. Positions are not cut off at 64 bits.
- RbBitmap.Bitmap.GetRange: the number of bytes is not cut off to 31 bits, as it is from 2^34 bits on.
- RbBitmap.Bitmap.Truncate: it looks the last extent up again after each erasure, where the code goes on from the one before.
- BaBitmap.BitArray.FindFirst: bytes are their bits, the alignment of the array is a parameter, and the padding of a resized array is left out.
- GenBitmap.Bitmap.SetRange: for no block at all the bounds of the range are not stated; one cluster is touched if the block is not the first of its cluster.
- GenBitmap.Bitmap.TestRange: the form for one block, which goes through another function, is left out.
- Crc32c.Crc32Body: the literal tables are defined by what they are to hold; a word is its bits.
- Qsort.Sort: items are values, not runs of bytes.
- Bmap.File.Bmap2: `ib` is the inode in memory. With an inode of its own the code does not write it back on an error, and loses an index block that was allocated on the way. The goal of an allocation and the first data block are simplified.
- BlockIterate.Context.Iterate: the callback changes nothing; BLOCK_FLAG_APPEND and changed pointers are left out.
- Alloc.NewRange: where the search does not end there is no answer to be stated.
- Alloc.Drive: ranges are whole clusters, from the beginning of one; flags and checksums of groups and callbacks are left out.
- AllocStats.FileSystem.StatsRange: the bounds check that is compiled out is demanded of the caller; the total counter is unbounded.
- XattrBuffer.WriteRead: values in inodes of their own are left out. One hash stands for the signed and the unsigned one, and it is any function of the name and the padded value.
- XattrBuffer.Read: for a malformed buffer the counter of what remains is not cut off to 32 bits, bytes behind the buffer are not hashed, and an entry with an own inode is refused, as it is without that feature.
- XattrSet.Handle.Set: the conversion of access control lists and the writing of external values are left out.
- DirBlock.LinkBlock: blocks of less than 65536 bytes; a name of no letters may find no room in the last eight bytes.
- SplitLeaf.SplitLeaf: when both blocks have been written and no item is left, the code reads an item before the first one; what it does from there on, the entry in the index included, is undefined and not modelled.
- Htree.Index.Lookup: the hash version, the root header and casefolding are left out; the hash is any even function of the name.
- Htree.Index.GrowTree: the new block is there, empty, with the next number, and block numbers have 28 bits.
- DirLink.Directory.LinkName: when a leaf cannot be split the answer is NotSplit, and nothing is said of what follows. It asks for a name of 1 to 255 letters and for as many free block numbers as there can be retries.
- Reading and writing of blocks, checksums of metadata, byte order, features of the superblock, the inode cache, multiple mount protection and preallocation are not part of this model.
- Inline data in directories, DIRENT_FLAG_INCLUDE_REMOVED, and bitmaps of inodes would add easy members only.
