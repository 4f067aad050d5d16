# ext3u and e2fsck: verified models

Dafny models of the algorithms behind the ext3 filesystem with undelete (`ext3u/`) and of the data structures of
e2fsck, with proofs of what these algorithms are for. `dafny verify dfyconfig.toml` checks everything.

Code that changes things in place is modelled by classes and methods with loops, proved against functions and
invariants; what is promised about whole runs is proved about these as lemmas and as `Valid` predicates that every
operation keeps.

| files | what they model |
|---|---|
| `Dict*.dfy` | the red-black dictionary: insertion, deletion, lookup with duplicates, loading in linear time, merging |
| `Ht*.dfy` | hash-indexed directories: probing, collision chains, adding and deleting names, splitting leaves and index blocks, growing the root |
| `Block*.dfy`, `Truncate.dfy` | the block map of a file: paths, creation of blocks, truncation that can start over after any transaction |
| `Xattr*.dfy` | extended attributes: the slotted page, the two places for them, shared blocks with reference counts |
| `Balloc*.dfy` | the block allocator: two bitmaps, reservation windows, group counts |
| `Undel*.dfy` | the queue of deleted files: entries written round a ring of blocks, and their links |
| `Backups.dfy` | the groups with superblock backups, and the blocks reserved in them |
| `Orphans.dfy` | the orphan list on disk and in memory, and its cleanup |
| `EaRefcount.dfy` | the reference counts of attribute blocks in e2fsck |
| `Crc32*.dfy`, `BitReverse.dfy` | CRC-32 by bits, by half-byte tables and by words, and its laws |
| `Arith.dfy` | division with remainder |

How the state is represented:

- A dictionary is a heap of nodes with a sentinel. `Tree` and `Path` values describe its shape, and `At` says that the
  memory agrees with them, parent links and the overwritten sentinel included. Keys are integers, which stand for the
  ranks of keys under the comparison function.
- A directory is its index (one or two levels of entries) with a map from block numbers to the records of leaf blocks.
  Block sizes are multiples of 4 from 2048 to 32768; `HtSmallBlocks` shows why 1024 is different. The hash is any
  function with even values.
- The blocks of a file are a map from block numbers to pointer arrays, with the inode's own 15 pointers as number 0. A
  log records the state at every restart of a transaction.
- An attribute page is its list of entries, from the first byte up, with the bytes of the value area.
- In the queue of deleted files a block has one cell for each byte of a path and one for each number of an entry's
  header; only the place and the order of the cells matter.

## Model

| member | source | states |
|---|---|---|
| DictInsert.RotateLeft | e2fsprogs/e2fsck/dict.c:83-105 | the heap after a left rotation is exactly the memory in which the two nodes and the subtree between them changed places, whichever side of its parent the upper node is on |
| DictInsert.RotateRight | e2fsprogs/e2fsck/dict.c:112-131 | the same for a right rotation |
| DictTree.RotateLeftAt | e2fsprogs/e2fsck/dict.c:83-105 | that memory holds the rotated tree at the same place, all parent links and the tree around it intact |
| DictBalance.RedUncleStep | e2fsprogs/e2fsck/dict.c:607-612 | recolouring under a red uncle moves a possible red pair two levels up, keeps equal black heights and the order of all nodes |
| DictBalance.BlackUncleStep | e2fsprogs/e2fsck/dict.c:613-643 | the one or two rotations under a black uncle end the repair: balanced, no red pair left, the same order |
| DictInsert.RepairTurn | e2fsprogs/e2fsck/dict.c:603-645 | one turn of the fix-up loop on the heap: either done, or the same state two levels higher, with the node order unchanged |
| DictInsert.Repair | e2fsprogs/e2fsck/dict.c:599-645 | the fix-up loop ends with equal black heights and no red node below a red one; the sentinel stays black |
| Dict.Dict.FindPlace | e2fsprogs/e2fsck/dict.c:573-586 | the descent ends at an empty position with all keys up to the new one to the left and only greater keys to the right |
| Dict.Dict.AttachAndRepair | e2fsprogs/e2fsck/dict.c:588-647 | hanging the node there and repairing gives a red-black tree whose order has the node at that position |
| Dict.Dict.Insert | e2fsprogs/e2fsck/dict.c:561-650 | the dictionary stays a red-black tree with correct links and count; its node sequence changes by the new node alone, behind all equal keys and before all greater ones |
| Dict.Dict.Lookup | e2fsprogs/e2fsck/dict.c:454-485 | the first node with the key, also among duplicates; null exactly if no node has the key |
| DictSplice.Leftmost | e2fsprogs/e2fsck/dict.c:897-902 | the node found is the first in order of the subtree |
| DictSplice.Next | e2fsprogs/e2fsck/dict.c:893-912 | the successor in order, null at the end, found through the right subtree or up the parent links |
| DictDelete.TurnBlackSister | e2fsprogs/e2fsck/dict.c:767-815 | with a black sister the missing black is made up for, or moves one level up; the order stays |
| DictDelete.DeleteRepair | e2fsprogs/e2fsck/dict.c:748-821 | the delete loop, stopped by the root that was painted red, leaves a red-black tree in the same order once the root is black again |
| Dict.Dict.Delete | e2fsprogs/e2fsck/dict.c:659-826 | the dictionary stays a red-black tree although the sentinel's parent is overwritten; exactly the given node is gone from the sequence and its links are cleared |
| DictOrder.InsertOrdered | e2fsprogs/e2fsck/dict.c:575-595 | a key put behind all keys up to it and before all greater ones keeps the sequence ordered, strictly so without duplicates |
| DictBulk.Loader.LoadNext | e2fsprogs/e2fsck/dict.c:1057-1079 | nodes in key order are appended to the circular list, with their keys |
| DictLoad.AttachUp | e2fsprogs/e2fsck/dict.c:1110-1131 | completed subtrees are hung below waiting nodes level by level; nodes and order stay the same |
| DictLoad.FinishBottom | e2fsprogs/e2fsck/dict.c:1101-1117 | after the bottom row one missing leaf is made up for, so that the rows above start complete |
| DictLoad.Assemble | e2fsprogs/e2fsck/dict.c:1142-1157 | the waiting nodes and the last subtree are joined to one tree of full rows, in order |
| DictRows.RowsBalanced | e2fsprogs/e2fsck/dict.c:1119-1139 | a tree whose rows are coloured red and black by turns has equal black heights and no red node below a red one |
| DictLoad.LoadEnd | e2fsprogs/e2fsck/dict.c:1081-1160 | any list of n nodes becomes a red-black tree with exactly that sequence |
| DictBulk.Loader.LoadEnd | e2fsprogs/e2fsck/dict.c:1081-1160 | the dictionary is valid afterwards and holds the loaded nodes in load order, with their keys |
| DictMerge.Step | e2fsprogs/e2fsck/dict.c:1190-1210 | dict_next still finds the successor in the old tree although the left pointers of the nodes passed were overwritten by the load |
| DictMerge.MergedAll | e2fsprogs/e2fsck/dict.c:1162-1215 | the ordered merge loses no node and has none twice |
| DictMerge.Merge | e2fsprogs/e2fsck/dict.c:1162-1215 | the destination is a valid dictionary with the ordered merge of both sequences, no key changed; the source is empty; merging into itself does nothing |
| HtLeaf.FindRoom | ext3u/namei.c:1275-1297 | the three answers of the scan, each if and only if: the name is met before a record with room; the first record with room is met before the name; no record has the name or the room |
| HtLeaf.InsertOk | ext3u/namei.c:1307-1323 | the insertion keeps the records a tiling of the block and adds just the new name |
| HtLeaf.InsertRest | ext3u/namei.c:1307-1323 | a live record that takes the name behind it keeps no more room than it needs, and no other record changes |
| HtLeaf.RemoveOk | ext3u/namei.c:1632-1665 | the deletion, merging or marking, keeps the tiling and removes just the one name |
| HtSort.BubblePass | ext3u/namei.c:755-765 | one pass from the top puts one more smallest hash in place, and a pass without a swap means sorted |
| HtSort.SortMap | ext3u/namei.c:740-766 | comb sort and bubble sort end, with a permutation sorted by hash |
| HtSplit.MakeMap | ext3u/namei.c:715-737 | the map has exactly the live records, from the last one down |
| HtSplit.CrowdedMap | ext3u/namei.c:1193-1209 | in a block that took no new name the live records are nearly all of the block, and none of them is large |
| HtSplit.SplitPoint | ext3u/namei.c:1199-1212 | the loop, whose counter is unsigned, stops in time at the first record from the top that overflows half a block; both halves are not empty and about half a block |
| HtSplit.Move | ext3u/namei.c:1111-1127 | the copies and the marked block together have the same live names as before, and each copy ends below the map entries still to be read |
| HtSplit.CopyStaysBelowMap | ext3u/namei.c:1193-1217 | when entry j of the map is still to be read, the copies made so far end below it: the map at the end of the new block is never overwritten too early |
| HtSplit.DoSplit | ext3u/namei.c:1159-1230 | two tiled blocks with the same names, those with smaller hashes in the first; the second one has the records of the sorted map from the place on that the split loop stops at; both have room for the longest name, and the continuation mark is set only if the first one has a name with the second's hash |
| HtSmallBlocks.AlwaysSplitsIff | ext3u/namei.c:1199-1212 | of the block sizes from 1K to 32K, the split loop stops in time for every full block if and only if the size is not 1K |
| HtIndex.Search | ext3u/namei.c:423-431 | the binary search finds the last entry that does not start above the hash |
| HtIndex.LinearSearch | ext3u/namei.c:435-449 | so does the linear search written beside it |
| HtIndex.SearchesAgree | ext3u/namei.c:435-451 | there is one such entry only, so the cross-check never fails |
| HtIndex.ProbeAt | ext3u/namei.c:412-469 | searching both levels gives the place in the one list of all leaf entries |
| HtIndex.InsertFlat | ext3u/namei.c:768-780 | an entry inserted in a block of the index is inserted in the list right behind its neighbour |
| HtIndex.GrowFlat | ext3u/namei.c:1589-1609 | a new level under the root changes nothing in the list |
| HtIndex.SplitFlat | ext3u/namei.c:1558-1588 | halving a full block of the index changes nothing in the list, and the place of the probe is found again in the right half |
| HtDir.ProbeRange | ext3u/namei.c:412-469 | a name's hash lies in the range of the block that a probe ends at |
| HtDir.SplitHash | ext3u/namei.c:1209-1230 | the new index hash lies between its neighbours, and each half has only names of its own range |
| HtDir.SplitListOk | ext3u/namei.c:1159-1249 | a leaf split keeps the invariant of the directory: ordered hashes, every name in the range of its block, the upper end only if marked as continued |
| Htree.Directory.Probe | ext3u/namei.c:350-481 | the frames point to the entry of the list that the hash belongs to |
| Htree.Directory.NextBlock | ext3u/namei.c:510-565 | for an even hash the walk goes on exactly if the next entry of the list, maybe in the next index block, continues that hash |
| Htree.FindComplete | ext3u/namei.c:964-1032 | a name that was not met from the probe to the end of the collision chain is in no block at all |
| Htree.Directory.FindEntry | ext3u/namei.c:964-1032 | a name is found if and only if a scan of all leaf blocks finds it; what is found has the name and is the first such record on the walk along the collision chain |
| Htree.HasNames | ext3u/namei.c:857-962 | what a scan of all leaf blocks finds are the names of the directory |
| Htree.Directory.MakeIndexRoom | ext3u/namei.c:1531-1611 | afterwards the lowest index block on the way has room and the list is the same; a block of the lower level is split in halves, one block is added; it fails if and only if there are two levels and the root is full |
| Htree.Directory.SplitLeaf | ext3u/namei.c:1159-1249 | the directory stays valid with the same names, and the chosen block is in range for the new name and has room for any |
| Htree.Directory.AddEntry | ext3u/namei.c:1496-1626 | the directory stays valid and its names change by the new one alone, through splits of leaves and index blocks and growth of the root; for the leaf block that the hash belongs to: the name is refused if and only if it is met before a record with room; if such a record comes first it takes the name and nothing else changes; there is no space if and only if no record has the name or room, there are two levels, and the root and the lowest index block are full |
| Htree.IndexFullIff | ext3u/namei.c:1531-1545 | whether the index is full for a name does not depend on how its place is reached: each place of the list belongs to one lowest block |
| Htree.Directory.DeleteEntry | ext3u/namei.c:1632-1665 | the directory stays valid and loses exactly the name deleted |
| Htree.MakeIndexedDir | ext3u/namei.c:1351-1433 | a full single block becomes a valid indexed directory with all names behind ".." and the new one |
| Htree.BlocksFit | ext3u/namei.c:207-215 | no directory that the index can hold has so many blocks that a number runs into the reserved byte |
| BlockPath.PathRoundTrip | ext3u/inode.c:289-326 | exactly the blocks in range have a path, it is valid, and it leads back to the block |
| BlockPath.BlockRoundTrip | ext3u/inode.c:289-326 | every valid path is the path of the block it leads to |
| BlockPath.PathOrder | ext3u/inode.c:289-326 | paths are ordered as blocks are |
| BlockPath.BoundaryCounts | ext3u/inode.c:301-324 | as many blocks as the boundary says follow in the same pointer block, in the next places |
| BlockMaxSize.MaxSize | ext3u/super.c:1464-1504 | every block of a file of that size is in range, the file and its indirect blocks have less than 2^32 sectors, and one more block would be too much under one of the three limits |
| BlockRead.GetBranch | ext3u/inode.c:357-391 | the chain is what lies on the path, up to the first hole; a whole chain ends with the mapped block, a cut one means a hole |
| BlockKeep.KeepAllLook | ext3u/inode.c:2336-2502 | cutting the trees at a path keeps the mapping of every smaller path and of no other |
| BlockFree.Inode.ClearBlocks | ext3u/inode.c:2043-2083 | the pointers are zeroed before the blocks are freed, so a restart before leaves all linked blocks allocated |
| BlockFree.Inode.FreeData | ext3u/inode.c:2104-2171 | exactly the data blocks of the stretch are freed, each once, in runs, and nothing else; so it is at every restart |
| BlockFree.Inode.FreeBranches | ext3u/inode.c:2186-2293 | exactly the trees below the stretch are freed, each block once, and no other tree changes; so it is at every restart |
| Truncate.FindShared | ext3u/inode.c:1987-2033 | the chain is cut where the part to stay and the part to go first share no block; the detached top is what to free first |
| Truncate.LastShared | ext3u/inode.c:2008-2016 | going up stops at the first block that keeps a pointer before the path |
| Truncate.AllZeroes | ext3u/inode.c:1944-1950 | true exactly if the stretch has no pointer |
| Truncate.KillShared | ext3u/inode.c:2424-2452 | after it only the whole trees behind the path's own are left to free, and every state on the way lies between the old map and the truncated one |
| Truncate.KillSubtree | ext3u/inode.c:2453-2476 | one more whole tree is gone, everything before the path stays |
| Truncate.Truncate | ext3u/inode.c:2336-2502 | the trees are the old ones cut at the path of the first block to go; exactly the blocks no longer reachable are freed; with a block out of range nothing happens |
| Truncate.TruncatedMap | ext3u/inode.c:2336-2502 | a block of the file maps as before if it is below the limit, and to nothing otherwise |
| Truncate.Restart | ext3u/inode.c:2308-2334 | at every restart all linked blocks are still allocated, and truncating from there reaches the same trees and the same allocated blocks |
| BlockCreate.BlksToAllocate | ext3u/inode.c:482-506 | the count is the run of holes, cut at the wish and at the boundary, and no shorter than that |
| BlockAlloc.AllocBlocks | ext3u/inode.c:518-567 | the indirect blocks and a run of data blocks are new and distinct, and are the blocks that the allocator gave, in order; each request asks for all that is missing, none is made without need, and it fails exactly if the last one is refused; a failure gives everything back |
| BlockCreate.AllocBranch | ext3u/inode.c:594-669 | the new blocks form a chain that ends with the run of data blocks; nothing else is written |
| BlockCreate.SpliceBranch | ext3u/inode.c:685-768 | one array is written: the missing pointer, and those after it if only data blocks were missing |
| BlockBranch.SpliceLink | ext3u/inode.c:685-768 | linking a prepared branch maps just its data blocks and keeps every other tree |
| BlockCreate.MapMore | ext3u/inode.c:816-842 | the count is the run of consecutive blocks on disk, cut at the wish and at the boundary |
| BlockCreate.Create | ext3u/inode.c:881-931 | creation maps exactly the blocks asked for to fresh consecutive ones, keeps every other mapping, allocates just what it links and writes one old array |
| BlockCreate.GetBlocks | ext3u/inode.c:789-943 | what is returned is how the blocks are mapped afterwards; only holes are filled and only on demand; the run mapped is as long as can be up to wish and boundary; for new blocks the allocator is asked for the missing indirect blocks and for the run of holes, up to wish and boundary, and all data blocks that it gives are mapped; no space is left exactly if it refuses; the boundary flag says that a pointer block ends there |
| BlockCreate.WishIs | ext3u/inode.c:482-506 | the count read off the last array is the run of holes of the file, and behind a missing indirect block all blocks up to the boundary are holes |
| BlockCreate.MissingIs | ext3u/inode.c:890-891 | the number of indirect blocks asked for is that of the blocks missing on the path |
| XattrFind.CompareOrder | ext3u/xattr.c:199-207 | comparing by index, length and name is a strict order, and equal only for equal names |
| XattrFind.FindEntry | ext3u/xattr.c:188-213 | the entry with the name if there is one, otherwise the place where it belongs |
| XattrSet.RemoveValue | ext3u/xattr.c:586-602 | the values stay packed after the lower ones moved up; only the one value is gone, all others read as before |
| XattrSet.PutEntry | ext3u/xattr.c:558-625 | the page reads back the new value and every other one unchanged, with names sorted and values packed |
| XattrSet.DropEntry | ext3u/xattr.c:568-612 | the name is gone and every other value reads as before |
| XattrSet.SetEntry | ext3u/xattr.c:528-627 | update and removal on a finite map; it fails exactly if the name and value do not fit in the place of the old ones, and then changes nothing |
| XattrSet.Get | ext3u/xattr.c:215-306 | reading gives what the map has |
| XattrStore.XattrCmp | ext3u/xattr.c:1160-1190 | equal exactly if the names and values are the same in the same order |
| XattrStore.Store.CacheFind | ext3u/xattr.c:1200-1240 | a block found has the same contents and can be shared once more; none is found exactly if the cache has none |
| XattrStore.SameIff | ext3u/xattr.c:1160-1190 | two good pages are equal to the comparison if and only if they hold the same attributes |
| XattrStore.Store.NewBlock | ext3u/xattr.c:800-806 | a free block; none exactly if all blocks are in use |
| XattrStore.Store.ReleaseBlock | ext3u/xattr.c:475-511 | one reference less, and the block is freed with the last one |
| XattrStore.Store.BlockSet | ext3u/xattr.c:677-861 | in place, by sharing or by copying: the attributes of this inode's block change as asked and no other inode's do, counts stay right; a new block is taken only if no known block can be shared; it fails exactly if the attribute does not fit, or something is left to be stored, the block is not the inode's own, none can be shared and none is free (`NoBlock`), and then changes nothing |
| XattrStore.Store.BodySet | ext3u/xattr.c:898-921 | the same for the room in the inode; it fails exactly if there is no room |
| XattrStore.Store.Set | ext3u/xattr.c:935-1036 | every reference count equals the number of inodes at the block and is at most the maximum; on success the attributes in body and block are those of `BodyAfter` and `BlockAfter`, also if some were in both places before, and no other inode's change; each error is returned exactly when it applies, lack of room exactly under `NoPlace`; a failure to store a value changes something if and only if there is room for it in the body |
| XattrStore.AfterIs | ext3u/xattr.c:978-1008 | what can be read after a success, and what is in both places then: removing a name that is in both places brings the value in the block to light |
| XattrStore.AfterIff | ext3u/xattr.c:978-1008 | the view after a successful change is the one asked for if and only if a value is set, or the name removed was not in both places; a change puts no name in both places |
| XattrTwice.StoredTwice | ext3u/xattr.c:935-1036 | two inodes at one block and no block left: setting an attribute fails, but its new value is read afterwards; removing it succeeds, and the old value is read |
| XattrStore.Store.DeleteInode | ext3u/xattr.c:1080-1106 | the reference is given up, counts stay right, no other inode's attributes change |
| XattrStore.Store.Read | ext3u/xattr.c:318-332 | reading an inode gives the value in the body or in the block |
| XattrStore.OthersSame | ext3u/xattr.c:935-1036 | what happens to one inode leaves the view of all others, and the names that they have in both places, as they were |
| BallocBitmap.SearchUsable | ext3u/balloc.c:731-751 | the first block free in both bitmaps, none exactly if there is none |
| BallocBitmap.FindUsable | ext3u/balloc.c:766-809 | the one block preferred: the first free one near the goal, else the one that the first empty byte of the bitmap begins with, else the first that is free in both bitmaps; none exactly if there is none |
| BallocBitmap.OnePreferred | ext3u/balloc.c:766-809 | no two blocks are preferred, so the choice is determined |
| BallocBitmap.TryToAllocate | ext3u/balloc.c:865-943 | a run inside window and group, free in both bitmaps before, is marked; it begins at the goal, or up to 7 blocks before the block preferred, and ends only at the count, the end or a block not usable; it fails only if there is no such block, and then changes nothing |
| BallocBitmap.ClaimRun | ext3u/balloc.c:917-939 | the run is extended exactly up to the count, the end or the first block not usable |
| BallocWindows.Search | ext3u/balloc.c:287-317 | the last window that starts at the goal or before |
| BallocWindows.NextGap | ext3u/balloc.c:992-1031 | the first place with room between the windows; it fails only if there is none up to the last block |
| BallocWindows.FindNext | ext3u/balloc.c:978-1061 | the file's window is at that first place, the windows stay ordered and disjoint, and no other file's window changes |
| BallocWindows.Add | ext3u/balloc.c:326-354 | the new window is in, all stay ordered and disjoint |
| BallocWindows.Extend | ext3u/balloc.c:1244-1267 | the window grows by what was asked, or up to the next window |
| Balloc.Allocator.FreeBlocks | ext3u/balloc.c:476-682 | exactly the blocks of the run are free afterwards, across groups, counts stay right, and all of them are held back until the commit; a run outside the filesystem changes nothing |
| Balloc.Allocator.Commit | ext3u/balloc.c:704-719 | only a commit makes the blocks freed before usable again |
| Balloc.Allocator.FindWindow | ext3u/balloc.c:1157-1225 | the retry loop ends where the recursive search `WindowPlace` does, or says that there is no place and leaves the file without a window |
| Balloc.Allocator.AllocReservation | ext3u/balloc.c:1100-1225 | the new window of the file begins at that place in the group, from the goal on, and has the size wished for, doubled if more than half of the old one was used; it fails exactly if the own window reaches into the next group, or there is no place |
| BallocGoal.PlaceFits | ext3u/balloc.c:1157-1225 | a window at the place found has room among the windows of other files, and a block free in both bitmaps |
| BallocGoal.NoPlace | ext3u/balloc.c:1157-1225 | if no place is found, no block free in both bitmaps begins enough blocks without windows |
| BallocGoal.SearchStep | ext3u/balloc.c:1177-1218 | one turn of the search: a gap without a usable block sends it on to the first usable one behind |
| Balloc.Allocator.ReadyWindow | ext3u/balloc.c:1352-1376 | the own window is kept exactly if it holds the goal and did not fail before, and made longer by what is missing or up to the next window |
| Balloc.Allocator.TryWithRsv | ext3u/balloc.c:1298-1411 | with a reservation: the run begins at the goal if that is in the window and usable, and at the block preferred from there on otherwise, in the own window if that has a usable block, in a new one otherwise; it fails exactly if neither can be had; without one: the run begins at the goal or near the block preferred, and it fails only if the group has no usable block |
| BallocGoal.ServedOrNot | ext3u/balloc.c:1351-1399 | the conditions for an attempt to give a run and to fail exclude each other |
| Balloc.Allocator.OnePass | ext3u/balloc.c:1545-1607 | all groups are tried, from the goal's round to it again; with a reservation the run is from the first group that gives one, each group before it passed over for few free blocks or because no window gives a block there; without one it is as long as it can be in the first group tried, and a single block in the earliest group that has one otherwise; the reservation is turned off exactly without a window and with less free blocks than it is to have |
| Balloc.Allocator.NewBlocks | ext3u/balloc.c:1469-1736 | the run is in one group, free before and not freed since the last commit; just its blocks become used; windows stay disjoint and counts right; a goal that is free and in the own window is what is given; otherwise the run is from a window exactly if the reservation is not turned off and a group gives one; it fails only if every block is in use or held back |
| BallocGoal.GoalTaken | ext3u/balloc.c:1387-1399 | a goal that is usable and in the window of the file cannot be missed by an attempt in its group |
| Balloc.OneBlockOnly | ext3u/balloc.c:1554-1607 | three blocks asked for, none in the group of the goal and four in a row in the next one: one is given |
| Balloc.Allocator.Discard | ext3u/balloc.c:449-466 | the file's window is gone and no other changes |
| UndelBytes.WriteEntry | ext3u/undel.c:1037-1093 | the cells from the start on, across blocks and round the end, are those of the entry, and no other cell changes; from offset 0 on the header of the block is overwritten |
| UndelBytes.ReadEntry | ext3u/undel.c:368-407 | reading gives what was written, across blocks and round the end |
| UndelBytes.Between | ext3u/undel.c:510-525 | the number of cells from one place to the other along the ring; from block 0 a whole block more than from the beginning of the ring |
| Undel.Fifo.UpdateEntry | ext3u/undel.c:549-609 | just one link of one entry changes |
| Undel.Fifo.Save | ext3u/undel.c:874-1110 | room for the entry is enough: the cells skipped behind it are always free too, and the queue stays valid, with entries linked in save order, count, sizes and free cells right, the new entry last and all others unchanged |
| Undel.TailFits | ext3u/undel.c:1065-1069 | the cells skipped at the end of a block are never those of the oldest entry, so they are free when the new entry fits |
| Undel.Fifo.SaveFile | ext3u/undel.c:874-1110 | a whole save, evictions included: the entries left are the newest ones and the new one is behind them; no more are evicted than it takes; the queue stays valid if and only if not all entries had to go, and if they had, the new one is lost: it takes the place of a block header and no pointer leads to it |
| Undel.SecondLost | ext3u/undel.c:433-508 | two files that are not too large, but too large together: the second one is not in the queue, which counts one entry and has no first one |
| Undel.TooLarge | ext3u/undel.c:916-919 | a file that is too large is saved to an empty queue, and after it no file is saved any more, because the size tested is that of the save before |
| Undel.Fifo.Read | ext3u/undel.c:1160-1205 | an entry of the queue is read as it was saved |
| Undel.Fifo.Remove | ext3u/undel.c:419-532 | exactly the entry given is gone, the others are linked in order; its cells are free if it was the oldest one, and count for the entry before it otherwise; the removal of the only entry leaves a queue that is not valid, with no first entry, the next place at offset 0 and the free cells counted from block 0 |
| UndelUnlink.LinkedWithout | ext3u/undel.c:620-640 | after the neighbours of an entry point to each other, the entries without it are linked both ways |
| Undel.Fifo.FreeOldEntries | ext3u/undel.c:676-759 | the oldest entries are evicted, no more of them than it takes; the queue stays valid if and only if the newest one alone leaves room, and then there is room for the new entry and file, unless the queue was empty at first: that is not looked at any further |
| Backups.TestRoot | ext3u/balloc.c:1805-1812 | exactly the powers of the base, from the first up; never 0 |
| Backups.GroupSparse | ext3u/balloc.c:1814-1822 | groups 0, 1 and the powers of 3, 5 and 7 |
| Backups.NoTies | ext3u/resize.c:341-368 | the three counters never meet, so no group comes twice |
| Backups.ListBackups | ext3u/resize.c:341-368 | the next group with backups, none left out, and the counters are those of the next call |
| Backups.BackupsInOrder | ext3u/resize.c:341-368 | the groups listed are strictly increasing |
| Backups.VerifyReserved | ext3u/resize.c:375-401 | accepted exactly if the block lists the reserved block of every group with backups, in order; the answer is their number; the entry behind the block is read exactly if there are more such groups than entries and all entries are right |
| Backups.ReserveBackups | ext3u/resize.c:557-654 | succeeds exactly if all reserved primary blocks are in place and list the groups before; then each lists the new group behind them and nothing else changes; an entry behind a block is written exactly if a block is full then |
| Backups.SparseFew | ext3u/balloc.c:1814-1822 | of the groups with 32-bit numbers at most 47 have backups, so that for them no block is ever full |
| Orphans.OrphanList.Add | ext3u/namei.c:1915-1971 | the chain on disk is the list in memory, acyclic, with the inode at its head; adding it again changes nothing |
| Orphans.OrphanList.Del | ext3u/namei.c:1977-2046 | with a handle the chain on disk is the list without the inode, whose link is cleared; list and chain agree afterwards if and only if there is a handle or the inode was not in the list |
| Orphans.ChainUnique | ext3u/namei.c:1915-2046 | a chain on disk has one list only, so a list without one of its inodes does not agree with it |
| Orphans.OrphanList.Get | ext3u/ialloc.c:639-713 | exactly the inodes in use that are unlinked or can be truncated, with a next inode in range |
| Orphans.OrphanList.Cleanup | ext3u/super.c:1363-1457 | ends with an empty chain after truncating each linked orphan and deleting each unlinked one once, in order, up to the first that is not acceptable; a truncated inode has no next orphan any more, a deleted one the time of its deletion there, and no other changes |
| EaRefcount.Refcount.Collapse | e2fsprogs/e2fsck/ea_refcount.c:87-105 | the elements with a count remain, in order |
| EaRefcount.CollapseSame | e2fsprogs/e2fsck/ea_refcount.c:87-105 | a collapse changes no count |
| EaRefcount.Refcount.InsertEl | e2fsprogs/e2fsck/ea_refcount.c:112-146 | the element is in its place, the others moved, in an array larger by 100 if need be; only a full array can fail |
| EaRefcount.Refcount.Search | e2fsprogs/e2fsck/ea_refcount.c:184-213 | whatever position between the bounds is tried, the element is found, or the place where it belongs |
| EaRefcount.Refcount.GetEl | e2fsprogs/e2fsck/ea_refcount.c:154-227 | neither cursor nor collapse changes any count; with one retry at most; it fails on creation only if the array is full of counts |
| EaRefcount.Refcount.Fetch | e2fsprogs/e2fsck/ea_refcount.c:229-241 | the count of the block |
| EaRefcount.Refcount.Increment | e2fsprogs/e2fsck/ea_refcount.c:243-255 | the count of this block is one higher, all others are the same |
| EaRefcount.Refcount.Decrement | e2fsprogs/e2fsck/ea_refcount.c:257-270 | refused exactly at count 0; otherwise one lower, all others the same |
| EaRefcount.Refcount.Store | e2fsprogs/e2fsck/ea_refcount.c:272-284 | the count of this block is the given one, all others are the same |
| EaRefcount.Refcount.IntrNext | e2fsprogs/e2fsck/ea_refcount.c:300-316 | the next element with a count, and the rest of them behind the cursor; none exactly if none is left, also for a cursor behind the end |
| EaRefcount.Refcount.Iterate | e2fsprogs/e2fsck/ea_refcount.c:294-316 | the elements with a count, each once, in order |
| Crc32Table.TableEntry | e2fsprogs/e2fsck/crc32table.h:71-136 | every entry of the table is eight steps of the bitwise form |
| Crc32.Crc32BeBitwise | e2fsprogs/e2fsck/crc32.c:169-180 | the loop over bits computes the specification |
| Crc32.BitsLinear | e2fsprogs/e2fsck/crc32.c:169-180 | eight steps are linear over exclusive or |
| Crc32.ByteByTable | e2fsprogs/e2fsck/crc32.c:189-193 | one look-up and a shift are eight bits |
| Crc32.NibbleByTable | e2fsprogs/e2fsck/crc32.c:231-237 | a look-up in the first 16 entries is four bits |
| Crc32.Crc32BeNibbles | e2fsprogs/e2fsck/crc32.c:231-237 | the form by half bytes computes the specification |
| Crc32Words.WordSteps | e2fsprogs/e2fsck/crc32.c:205-216 | a word taken in at once and four look-ups are four bytes taken in one by one |
| Crc32Words.Crc32Be | e2fsprogs/e2fsck/crc32.c:183-228 | the form by aligned words, with any bytes before and after them, computes the specification |
| Crc32Laws.Composes | e2fsprogs/e2fsck/crc32.c:500-505 | the checksum of a concatenation goes on from the one of the first part |
| Crc32Laws.Linear | e2fsprogs/e2fsck/crc32.c:183-248 | the checksum is linear over exclusive or of buffers and seeds |
| Crc32Laws.Cancels | e2fsprogs/e2fsck/crc32.c:493-498 | a buffer with its own checksum appended has checksum 0 |
| Crc32Laws.Reverses | e2fsprogs/e2fsck/crc32.c:507-518 | the big-endian checksum is the bit reversal of the little-endian one of the buffer with all bytes reversed |

## Left out

Where the code does not keep what one would expect, the model keeps the code:

- With 1K blocks a full directory block can make the split loop run past the first entry of the map. `AlwaysSplitsIff` has such a block.
- Setting an attribute can fail although its value was stored in the inode already, with the old one still in a shared attribute block, and then removing it brings back the old one. `XattrTwice.StoredTwice` is such a run; `Store.Set` says exactly when a failure changes something.
- When an allocation without a reservation fails in one group, the count is 0 from then on, so that a later group gives one block only. `Balloc.OneBlockOnly` is such a run; `FirstFit` in `OnePass` says when.
- Evicting the only entry of the queue of deleted files leaves a queue in which the entry saved next is lost. `Undel.SecondLost` is such a run; `Fifo.SaveFile` says exactly when.
- The size of a deleted file is tested before its entry is filled in (ext3u/undel.c:917), so the test looks at the save before. `Undel.TooLarge` is such a run.
- A name that is in a directory can be added once more, behind a record with room that comes before it, or if it is in the next block of its collision chain: `AnswerAt` in `AddEntry` says exactly when it is refused.
- Deleting an orphan without a handle takes it from the list in memory only: `Del` says exactly when list and chain differ.
- The check of a reserved primary block reads one entry behind the block if more groups have backups than fit (ext3u/resize.c:387-398): `ReadsPast` says exactly when.

What the models do not cover:

- Locks, lost races and the retry paths for them: claims that fail, chains that changed while they were read, the missing top of a shared branch.
- I/O errors, the journal but for its restarts and commits, credits, quota, the reserve for root, and the blocks of the filesystem's own metadata in freeing and allocating.
- Byte order, padding and concrete record layouts; integer widths, but for the unsigned counters and 32-bit words named above.
- The hash functions of directories, and the hashes stored in attribute entries and blocks (a block with hash 0 is never shared); `e_value_block` is always 0.
- Converting a block with names before "." and ".."; ordered readdir through the hash tree; directories without an index.
- The mirrored branches of the dictionary's deletion loop are one method each, with a flag for the side.
- `nodecount` of the dictionary is not bounded by a machine word; a bulk load takes less than 2^DEPTH nodes, as the source's array of levels does.
- The search tree of reservation windows: the windows are an ordered list. The search of the insertion may compare with any window between its bounds.
- The pointers of the inode are zeroed as those of an indirect block are; truncation of the last partial block is not modelled.
- The groups that allocation goals come from, and the sizes of windows chosen by their users.
- The removal of the newest of several entries of the queue of deleted files, what follows once an entry was lost, its block headers, reading paths, permissions and the system calls.
- The forms of crc32_le by tables, and crc32_be for hosts that store words with the high byte first; `Le` is a function.
- The test programs of dict.c, crc32.c and ea_refcount.c.
- DictMerge.Merge: requires dictionaries that together fit into the destination, and no key in both unless duplicates are allowed, as the assertions of the source do.
- DictBulk.Loader.LoadNext: requires that the key comes behind that of the last node; the assertion of the source compares it with the first one.
- Truncate.Restart: says nothing of the revoke records that are written before a restart (ext3u/inode.c:2245-2263).
- BlockCreate.GetBlocks: does not say which blocks the allocator gives, or when it refuses; that is said of `Balloc.Allocator.NewBlocks`.
- Undel.Fifo.Remove: does not remove the newest of several entries, for which the source does not set the block of the queue's end.
- EaRefcount.Refcount.Search: any position between the bounds stands for the interpolated one.
- Crc32Words.Crc32Be: models the little-endian host only.
