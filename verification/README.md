# Verified models of the operating-systems course programs

Eight programs of the repository, modelled and proved in Dafny 4.11. `dafny verify dfyconfig.toml` checks all of it.

* **The linked-block file system**, `os_day9/myfs_adv.c` (from line 855 on; the lines before are a commented-out copy).
  `MyFs.dfy` has the class `MyFs` with the superblock and the blocks of the image as fields, and every operation as a
  method with the loops, branches and block writes of the C function. Each method is proved against a function on a
  `Store`, which names the free list and the chain of every directory and file outright; `Represents`
  (`MyFsStore.dfy`) says that the links on disk spell exactly these. The theorems are about the functions on stores:
  conservation of blocks (`MyFsConservation.dfy`), what is read back (`MyFsContents.dfy`), what an operation does to other
  paths (`MyFsElsewhere.dfy`), lookups after `mkdir_myfs` and `myrm` (`MyFsMeaning.dfy`), directories without holes
  (`MyFsCompact.dfy`), and runs that show the conditions at work (`MyFsRuns.dfy`); `MyFsOnDisk.dfy` follows one session
  down to the bytes on the disk. `MyFsBlocks`, `MyFsDirectory`, `MyFsPaths`, `MyFsTree` and `MyFsOps` lie in between.
* **The bounded buffer**, `os_day6/circular_queue.c`: the ring as a class (`RingQueue.dfy`), its threads as a step system
  with sleeping, woken, running and absent threads (`Monitor.dfy`), and a bound on the steps by the items they move
  (`MonitorProgress.dfy`). Signals and waits follow POSIX.1-2017, System Interfaces, `pthread_cond_signal()` and
  `pthread_cond_wait()`: at least one waiter is unblocked if there is one, and a waiter may wake by itself.
* **The bitmap allocator**, `os_day7/fileblk.c`: `BitmapFile.dfy`.
* **The flat file store**, `os_day8/mymkfs.c`: `SlotStore.dfy`, an array of bytes that refines a map from names to bytes.
* **The 0-terminated chains** of `os_day9/sample.c`: `SampleChains.dfy`.
* **The two-lock hand-off**, `os_day6/prodcons2.c`: `Handoff.dfy`.
* **The two-flag handshake**, `os_day4/shared mem/test.c`: `Handshake.dfy`.
* **Selection by counting**, `os_day3/ithlargest_fork.c`: `IthLargest.dfy`.

## Where a promise fails

The code is modelled as it is. Where it does not do what one would expect, the exact condition is proved.

* Blocks are lost by removing or overwriting a non-empty folder and by a `mkdir_myfs` whose entry does not fit
  (`MyFsConservation.ApplyLeaks`, `RunLeaks`; runs in `MyFsRuns.RemovingFullFolderLeaks`, `MkdirWithoutSlotLeaks`).
* `find_entry` stops at the first empty slot of a block. So a removal hides the entries behind it in that block, an
  overwrite does so when its new entry goes to an earlier hole, and filling a hole shows hidden entries again
  (`MyFsDirectory.FindAfterClear`, `FindAfterWrite`, `MyFsElsewhere.Elsewhere`; runs in `MyFsRuns.FileVanishesAndReturns`,
  `OverwriteHides`). Operations that keep directories without
  holes, which `MyFsCompact.ApplyTidy` says exactly, do nothing of the kind (`MyFsCompact.TidySpares`).
* A name of 12 characters is stored without its NUL, and `strcmp` reads on into the block number. The new entry is found,
  by its own path or any other, if and only if the low byte of that number is 0 (`MyFsTree.SeenNew`,
  `MyFsElsewhere.CopyFoundIff`, `MyFsMeaning.MkdirFoundIff`). A walk through a folder compares the whole component, which was
  cut when it was stored: components of 12 characters and more lead through a folder exactly if they go on as the bytes of
  its block number do (`MyFsMeaning.MkdirWhole`; runs in `MyFsRuns.TwelveLettersLost`, `ThirteenLetters`).
* After `myrm` the path may lead to an older file, exactly if one of that name was visible in another block
  (`MyFsMeaning.RmForgets`; a run in `MyFsRuns.OlderFileReturns`).
* Names of 12 characters and more make `os_day8/mymkfs.c` keep several files that only the first one is found of
  (`SlotStore.StoredIsFound`, `StoredIsSeen`; a run in `SlotStore.StoredTwice`).
* The round trip of `os_day9/sample.c` fails for sizes that are multiples of 4088, because the link of the block
  allocated last is never written; removing such a file ties the free list into a circle
  (`SampleChains.RoundTripIff`, `SharedIff`, `FreedIff`, `SampleFs.CopyAndRemove`; runs in `SampleFs.WholeBlockFails`,
  `SampleFs.RemovedIntoCircle`).
* The child's clear of `parent_flag` in `os_day4/shared mem/test.c` can erase the next post, and nothing else can stop the
  two (`Handshake.LosesPost`, `LateClearLoses`, `OnlyLostIsStuck`).
* A comment in `os_day7/fileblk.c` (line 37) says the header takes 4096 bytes; the code writes 528 and puts the zeros
  right behind them, while blocks start at offset 4096. The model follows the code.

## How to read it

* A disk is a `seq` of blocks in a field: the C functions only ever read and write whole blocks by value through
  `readblock` and `writeblock`, and no two names for one block exist in memory.
* Loops that would make one method too long are methods of their own (`ScanBlock`, `WalkTo`, `EnterPrevious`,
  `WritePiece`, `TakeFirst`, `CopyPiece`, `CopyTurn`, `TurnLinks`, `Choose`); `Session` and `Menu` stand for the programs' command loops.
* `Seen` is a directory entry's name as `strcmp` reads it. The check `strlen(basename) > FILENAME_LEN` (lines 1227 and
  1284) never fires, because `find_parent_dir` has already cut the name to 12 characters.
* Byte offsets are kept within a C `int`: at most 0x7FFFF blocks in `os_day9/myfs_adv.c`, and
  `4096 + bsize * bno` in range in `os_day7/fileblk.c`.

## Model

| member | source | states |
|---|---|---|
| Bytes.WordBytes | os_day9/myfs_adv.c:878-881 | an int field is four bytes, the lowest first |
| MyFsBlocks.SlotBytes | os_day9/myfs_adv.c:876-881 | in numbers: slot i of a block, of 194, takes the bytes from 21 * i on, kind, name, first block and size in that order, and no other byte changes |
| MyFsBlocks.DecodeEncodeFd | os_day9/myfs_adv.c:876-881 | a directory entry of 1 + 12 + 4 + 4 bytes is read back as it was written |
| MyFsBlocks.EntryAtPut | os_day9/myfs_adv.c:1344-1345 | copying an entry into one slot of a block changes that slot to the entry and none of the other 193 |
| MyFsBlocks.SlotsOfPut | os_day9/myfs_adv.c:1316-1348 | the same over a whole directory chain: slot i is slot i mod 194 of block i div 194 |
| MyFsBlocks.SlotsOfGrow | os_day9/myfs_adv.c:1328-1342 | a directory that gets a zeroed block gains 194 empty slots and keeps the others |
| MyFsStore.CreateAccounted | os_day9/myfs_adv.c:1021-1043 | taking a block for a new object keeps every block free or owned exactly once, and its id names no object yet |
| MyFsStore.GrowAccounted | os_day9/myfs_adv.c:1328-1338 | linking a free block behind a chain keeps every block free or owned exactly once |
| MyFsStore.ReleaseAccounted | os_day9/myfs_adv.c:1481-1494 | giving a whole chain back keeps every block free or owned exactly once |
| MyFsStore.ReleaseStep | os_day9/myfs_adv.c:1485-1493 | freeing a chain block by block, while rewriting the links it is walked by, ends with the reversed chain in front of the free list |
| MyFsStore.CreateRepresents | os_day9/myfs_adv.c:1035-1042 | the superblock and block writes of an allocation leave a disk whose links spell exactly the new chains |
| MyFsStore.GrowRepresents | os_day9/myfs_adv.c:1328-1338 | the same when the new block is linked behind the last one of a chain |
| MyFsStore.SetBufRepresents | os_day9/myfs_adv.c:979-990 | writing one buffer back changes one block of one chain and no link |
| MyFsStore.DropHeadRepresents | os_day9/myfs_adv.c:1046-1058 | one free_block: the head goes in front of the free list on disk, the rest of its chain stays a chain |
| MyFsStore.ChainOnDisk | os_day9/myfs_adv.c:962-976 | readblock of the i-th block of a chain finds its buffer and the link to the next, -1 behind the last |
| MyFsStore.FreeIsErased | os_day9/myfs_adv.c:1046-1058 | every byte of every free block is 0 on the disk |
| MyFsDirectory.FindIdx | os_day9/myfs_adv.c:1061-1089 | the result is the first visible slot with the name in chain order, -1 exactly if no visible slot has it |
| MyFsDirectory.FirstMatchIsFindIdx | os_day9/myfs_adv.c:1061-1089 | that description determines the result |
| MyFsDirectory.FindInRest | os_day9/myfs_adv.c:1079-1086 | a result from the blocks behind, plus 194, is the result for the chain |
| MyFsDirectory.FirstHole | os_day9/myfs_adv.c:1320-1325 | the slot filled is the first empty one of the chain; all before it are used |
| MyFsDirectory.FindAfterAdd | os_day9/myfs_adv.c:1316-1348 | a name that was not visible is found in the slot it is put into, however many holes follow |
| MyFsDirectory.FindAfterReplace | os_day9/myfs_adv.c:1235-1264 | after clearing the slot of a name and adding it again, the new slot is not behind the old one and is the one found |
| MyFsDirectory.FoundAfterWrite | os_day9/myfs_adv.c:1235-1264 | new, replaced, or in a grown directory: find_entry returns the slot just written |
| MyFsDirectory.FindsNew | os_day9/myfs_adv.c:1061-1089 | under any name at all, an entry just added is the one found if and only if it is seen under that name and no entry of that name is found in front of it |
| MyFsDirectory.VisibleAfterRemove | os_day9/myfs_adv.c:1065 | clearing slot r hides a visible slot if and only if it lies behind r in r's own block |
| MyFsDirectory.CompactFind | os_day9/myfs_adv.c:1061-1089 | in a directory without holes -1 is returned if and only if no entry has the name |
| MyFsDirectory.FindInGrown | os_day9/myfs_adv.c:1328-1342 | growing a directory changes the result for no name |
| MyFsDirectory.FindAfterClear | os_day9/myfs_adv.c:1061-1089 | emptying slot i leaves what find_entry returns for a name unchanged if and only if that was nothing, or not from i on in the block of i |
| MyFsDirectory.FindAfterWrite | os_day9/myfs_adv.c:1235-1264 | in any directory, with holes or without: after a write under one name, new or replacing, another name is found in the same slot if and only if that slot is not cleared, not behind a cleared slot left empty in its block, and no earlier one with its name comes to light behind the hole filled |
| MyFsPaths.PathCut | os_day9/myfs_adv.c:1105-1107 | the components looked up are those of the path, or of its first 1023 characters if it is longer |
| MyFsPaths.OneToken | os_day9/myfs_adv.c:1109 | whatever contains no byte 47, however long, is one component |
| MyFsPaths.ComponentsOfJoin | os_day9/myfs_adv.c:1109-1157 | the components of a, the byte 47 and b are those of a followed by those of b |
| MyFsPaths.SlashesDoNotMatter | os_day9/myfs_adv.c:1109-1157 | repeated, leading and trailing slashes change no component |
| MyFsPaths.Strtok | os_day9/myfs_adv.c:1109-1156 | each call yields the next component and leaves exactly the later ones; none are left when it yields none |
| MyFsPaths.BaseNameIs | os_day9/myfs_adv.c:1158-1166 | the name stored is the last component, or its first 12 characters |
| MyFsTree.InitInv | os_day9/myfs_adv.c:913-959 | a new file system of n >= 1 blocks is accounted for and a tree: an empty root, blocks 2..n free |
| MyFs.InitRepresents | os_day9/myfs_adv.c:913-959 | the superblock and blocks written hold exactly that file system |
| MyFsTree.SeenNew | os_day9/myfs_adv.c:1077 | a name is read back as given if and only if it is shorter than its field, or the low byte of the block number behind it is 0 |
| MyFsTree.SeenWhole | os_day9/myfs_adv.c:1117-1119 | a whole component, as the path walk compares it, is what the entry stored under its first twelve characters is seen as, if and only if it has at most 11 characters or goes on behind the twelfth as the bytes of the block number do |
| MyFsTree.SeenInRecord | os_day9/myfs_adv.c:1072 | whatever entry of a tree strcmp reads, it stops inside the record |
| MyFsTree.CreateTree | os_day9/myfs_adv.c:1021-1043 | allocation keeps the tree |
| MyFsTree.GrowTree | os_day9/myfs_adv.c:1328-1338 | growing a directory or file keeps the tree |
| MyFsTree.PutSlotTree | os_day9/myfs_adv.c:1344-1347 | filling a slot with an entry made for it keeps the tree |
| MyFsTree.AddEntryTree | os_day9/myfs_adv.c:1316-1348 | add_dir_entry, with or without growth, keeps the tree |
| MyFsTree.RemoveAtTree | os_day9/myfs_adv.c:1533-1538 | removing an entry with its chain leaves no slot anywhere that names a freed block |
| MyFsTree.CreatedEntryOk | os_day9/myfs_adv.c:1284-1313 | the block just allocated is new, and its entry fits the first hole of the parent |
| MyFsTree.WriteDataTree | os_day9/myfs_adv.c:1351-1382 | writing file data of any size, also out of space, keeps the tree |
| MyFsOps.CreateRelease | os_day9/myfs_adv.c:1258-1264 | freeing the block again when the entry cannot be added gives the store back unchanged |
| MyFsOps.WriteDataKeeps | os_day9/myfs_adv.c:1351-1382 | writing one file changes no other object |
| MyFsOps.MkdirInv | os_day9/myfs_adv.c:1274-1313 | mkdir_myfs keeps accounting and tree |
| MyFsOps.RmInv | os_day9/myfs_adv.c:1497-1541 | myrm keeps accounting and tree |
| MyFsOps.CopyToInv | os_day9/myfs_adv.c:1178-1271 | mycopyto keeps accounting and tree, overwriting included |
| MyFsOps.ApplyInv | os_day9/myfs_adv.c:1178-1541 | every operation keeps the invariant and the number of blocks |
| MyFsOps.Run | os_day9/myfs_adv.c:1671-1782 | so does every run of operations, with names of any length |
| MyFsOps.ReadBytes | os_day9/myfs_adv.c:1385-1405 | byte k of what is read is byte k mod 4088 of block k div 4088 of the chain, for as many bytes as the size says or the chain has |
| MyFs.MyFs.InitFs | os_day9/myfs_adv.c:913-959 | the disk holds a new file system; what a longer file held behind it stays |
| MyFs.MyFs.AllocateZeroBlock | os_day9/myfs_adv.c:1021-1043 | -1 exactly if the free list is empty; else its head, zeroed and unlinked, and nothing else changes |
| MyFs.MyFs.FreeBlock | os_day9/myfs_adv.c:1046-1058 | the block is zeroed and becomes the head of the free list; no other block changes |
| MyFs.MyFs.FreeBlockChain | os_day9/myfs_adv.c:1481-1494 | the disk holds the store with that chain released: the walk ends although it rewrites the links |
| MyFs.MyFs.ScanBlock | os_day9/myfs_adv.c:1064-1076 | entries before the returned one are used and have other names; it has the name, is empty, or is past the end |
| MyFs.ScanMeans | os_day9/myfs_adv.c:1061-1089 | so the search from a block on ends there, or is the search from the next block on, 194 further |
| MyFs.MyFs.FindEntry | os_day9/myfs_adv.c:1061-1089 | the recursion over the chain returns the first visible match in it |
| MyFs.MyFs.WalkTo | os_day9/myfs_adv.c:1129-1142 | div and mod 194 and the pointer walk lead to the very slot the index means |
| MyFs.MyFs.StepDown | os_day9/myfs_adv.c:1117-1151 | one step of the path walk: none exactly if the name is not visible or not a folder |
| MyFs.WalkingStep | os_day9/myfs_adv.c:1112-1157 | looking each name up one token late amounts to the lookup of all components but the last |
| MyFs.MyFs.WalkTokens | os_day9/myfs_adv.c:1109-1157 | the token loop ends in the folder the recursive lookup from the root gives, or fails exactly with it |
| MyFs.MyFs.FindParentDir | os_day9/myfs_adv.c:1093-1169 | parent folder and last component of every path; -1 exactly if a component before the last is not a visible folder |
| MyFs.HoleInBlock | os_day9/myfs_adv.c:1320-1326 | where the scan of a block stops tells whether the first hole of the chain lies in it |
| MyFs.MyFs.AddDirEntry | os_day9/myfs_adv.c:1316-1348 | the first hole of the chain gets the entry, or of a new last block if there is none; -1 and no change without a free block |
| MyFs.MyFs.MkDir | os_day9/myfs_adv.c:1274-1313 | store and return value are those of the specification, on every path and in every state |
| MyFs.MyFs.WriteFileData | os_day9/myfs_adv.c:1351-1382 | the disk holds the store with the data written from the first block on |
| MyFs.MyFs.ReadFileData | os_day9/myfs_adv.c:1385-1405 | the first size bytes of the chain, or all there are |
| MyFs.MyFs.CountBlocks | os_day9/myfs_adv.c:1627-1643 | the length of the chain |
| MyFs.MyFs.Rm | os_day9/myfs_adv.c:1497-1541 | the disk holds the store without the entry found and its chain |
| MyFs.MyFs.CopyTo | os_day9/myfs_adv.c:1178-1271 | removal of a previous entry, allocation, entry and data, and the give-back when the entry does not fit |
| MyFs.MyFs.CopyFrom | os_day9/myfs_adv.c:1407-1455 | the contents of the file the path names; none exactly if it names no visible file |
| MyFs.MyFs.Session | os_day9/myfs_adv.c:1671-1782 | a new file system and any commands: the disk holds the store of the run, to the last link |
| MyFsConservation.LinksOnDisk | os_day9/myfs_adv.c:1021-1058 | following links on disk from the superblock gives exactly the free list, from a directory or file exactly its chain, which ends in -1 |
| MyFsConservation.EveryBlockOnce | os_day9/myfs_adv.c:913-1058 | free list and chains are acyclic, pairwise disjoint, within 1..nblocks-1, and cover all of it |
| MyFsConservation.NoLeakIsAllHeld | os_day9/myfs_adv.c:1316-1348 | everything is reachable from the root if and only if each object is still named by the slot it was made for |
| MyFsConservation.RemoveLeaks | os_day9/myfs_adv.c:1533-1538 | a removal leaves everything reachable if and only if it was before and the target is a file or an empty folder |
| MyFsConservation.EnterLeaks | os_day9/myfs_adv.c:1284-1313 | a new object is reachable if and only if the parent had a hole or a second free block |
| MyFsConservation.ApplyLeaks | os_day9/myfs_adv.c:1178-1541 | one operation ends without lost blocks if and only if none were lost before and it is neither a removal or overwrite of a non-empty folder nor a mkdir that takes the last block with the parent full |
| MyFsConservation.RunLeaks | os_day9/myfs_adv.c:1178-1541 | a run loses blocks if and only if one of its steps does |
| MyFsConservation.EveryRun | os_day9/myfs_adv.c:913-1541 | for every run from a new file system: all blocks accounted for; each free or reachable if and only if no step is a losing one |
| MyFsContents.BlocksForLeast | os_day9/myfs_adv.c:1351-1382 | the number of blocks counted for a size is the least that holds it at 4088 bytes each |
| MyFsContents.WriteMeaning | os_day9/myfs_adv.c:1351-1382 | a write of any size at any block of any chain: which free blocks are taken, and every byte of the chain afterwards, also when space runs out |
| MyFsContents.FreshWrite | os_day9/myfs_adv.c:1351-1405 | a new file has max(1, ceil(size/4088)) blocks and reads back as written; with only k blocks it reads back as (k-1)*4088 bytes of data and one block of zeros |
| MyFsContents.CopyToRefused | os_day9/myfs_adv.c:1244-1264 | a mycopyto that cannot enter its file has removed none and changes nothing |
| MyFsContents.CopyToParent | os_day9/myfs_adv.c:1178-1271 | the walk to the parent is the same after a mycopyto |
| MyFsContents.CopyToFound | os_day9/myfs_adv.c:1178-1271 | after a mycopyto that entered its file, the path leads to the new entry if and only if its name is read back: always for names up to 11 characters |
| MyFsContents.CopyRoundTrip | os_day9/myfs_adv.c:1178-1455 | where the name is read back, mycopyfrom after mycopyto returns exactly the data, whatever its length, if and only if the parent is found and the free blocks suffice, counting those of the file overwritten |
| MyFsContents.CopyShort | os_day9/myfs_adv.c:1370-1374 | when they do not suffice, under any name: the new file reads as the data of all blocks but the last, and a block of zeros; mycopyfrom of the path returns that if the name is read back |
| MyFsContents.CopyToBlocks | os_day9/myfs_adv.c:1178-1271 | a mycopyto that enters its file takes exactly the blocks for the data and for the directory if that grows, or all there are |
| MyFsContents.CopyBytes | os_day9/myfs_adv.c:1351-1382 | in numbers: with room for all, byte k of the data lies at k mod 4088 of block k div 4088 of the new file, which has max(1, ceil(size/4088)) blocks |
| MyFsContents.CopyToFrame | os_day9/myfs_adv.c:1178-1271 | no object but the parent and the overwritten one changes, and in the parent no slot but the cleared and the filled one |
| MyFsCompact.TidyWrite | os_day9/myfs_adv.c:1235-1264 | writing an entry, under any name, new or replaced, keeps a directory without holes and its names unique if and only if the name the entry is seen under was not there, or was in the very slot replaced |
| MyFsCompact.TidyRefill | os_day9/myfs_adv.c:1235-1264 | in such a directory an overwrite fills the slot it has cleared |
| MyFsCompact.TidyClear | os_day9/myfs_adv.c:1497-1541 | a removal keeps a directory so if and only if it takes the last entry, out of the last block |
| MyFsCompact.ApplyTidy | os_day9/myfs_adv.c:1178-1541 | exactly which operations, on any name, keep every directory without holes and its names unique |
| MyFsCompact.TidyUndisturbed | os_day9/myfs_adv.c:1235-1264 | in a directory without holes and with unique names a write disturbs the lookup of no other name |
| MyFsCompact.TidyFindOther | os_day9/myfs_adv.c:1235-1264 | there it changes neither place nor content of any other name that the new entry is not seen under; with holes see MyFsDirectory.FindAfterWrite |
| MyFsCompact.EveryRunTidy | os_day9/myfs_adv.c:1178-1541 | a run of any operations from a new file system goes only through such states if and only if each step meets that condition; all steps do in runs of mkdir_myfs and mycopyto under names of at most 11 characters |
| MyFsCompact.OverwriteHasRoom | os_day9/myfs_adv.c:1235-1264 | under any name, in any state: an overwrite can always allocate and never grows the directory; in one without holes only the one slot changes, to the new entry |
| MyFsCompact.TidyForgets | os_day9/myfs_adv.c:1497-1541 | in a directory without holes and with unique names, the path of a myrm leads nowhere afterwards |
| MyFsElsewhere.FileOrFolder | os_day9/myfs_adv.c:1407-1455 | a path is read as a file if and only if it leads to an object that is no folder; what is read are the bytes of its chain in order, as many as its entry says or there are |
| MyFsElsewhere.PathUnique | os_day9/myfs_adv.c:1093-1169 | in every tree, no folder is reached by two different sequences of names |
| MyFsElsewhere.Elsewhere | os_day9/myfs_adv.c:1178-1541 | in every state and for every operation: what another path leads to, and the file read there, is unchanged unless the operation disturbs its lookup in the directory changed; and a path that led somewhere, or ends in that directory, leads to the same as before if and only if it is not disturbed |
| MyFsElsewhere.CopyToElsewhere | os_day9/myfs_adv.c:1178-1271 | the same for a mycopyto: disturbed are the entries behind the overwritten slot in its block when the new entry goes to an earlier hole, and those that come to light behind the hole filled |
| MyFsElsewhere.RmElsewhere | os_day9/myfs_adv.c:1497-1541 | the same for myrm: disturbed are exactly the entries from the emptied slot on in its block |
| MyFsElsewhere.FailedElsewhere | os_day9/myfs_adv.c:1178-1541 | an operation that fails changes what no path leads to |
| MyFsElsewhere.FailedSame | os_day9/myfs_adv.c:1178-1541 | an operation that fails and loses no block leaves the store as it was, free blocks and all |
| MyFsElsewhere.MkdirThrough | os_day9/myfs_adv.c:1274-1313 | a path through the name a new folder is seen under leads to it, and to nothing in it; or where it led, if an entry of that name is found in front of the slot filled |
| MyFsElsewhere.CopyToThrough | os_day9/myfs_adv.c:1178-1271 | a path through the name a new file is seen under leads to it, and below it nowhere; or where it led, if an entry of that name is found in front of the slot filled |
| MyFsElsewhere.CopyFoundIff | os_day9/myfs_adv.c:1178-1271 | some path finds the file that a mycopyto entered if and only if its name is read back, and then its own path does |
| MyFsElsewhere.RunElsewhere | os_day9/myfs_adv.c:1178-1541 | a run of any operations, removals included, that each spare a path leaves its file unchanged |
| MyFsElsewhere.MkdirElsewhere | os_day9/myfs_adv.c:1274-1313 | the same for mkdir_myfs: disturbed are exactly the names that come to light behind the hole it fills |
| MyFsElsewhere.LastCopyStands | os_day9/myfs_adv.c:1178-1455 | in any state: what is read right after a copy is read after any further operations, removals included, of which each spares its path; where the name is read back, that is the data if and only if there was room |
| MyFsCompact.TidySpares | os_day9/myfs_adv.c:1178-1541 | where no directory has a hole, an operation on any name that keeps it so, removals included, spares every path that does not lead through its own; mkdir_myfs spares also those |
| MyFsCompact.TidyElsewhere | os_day9/myfs_adv.c:1178-1348 | so such an operation keeps the file of that path, and the tree without holes |
| MyFsCompact.LastCopyInTidy | os_day9/myfs_adv.c:1178-1541 | from a new file system, in runs whose steps meet the condition, on any names and with removals: what is read right after a copy is read after any number of operations on other paths |
| MyFsCompact.LastCopyInBuild | os_day9/myfs_adv.c:1178-1455 | in runs of mkdir_myfs and mycopyto under names of at most 11 characters nothing need be met: a copy that has room is what is read |
| MyFsMeaning.MkdirOpens | os_day9/myfs_adv.c:1274-1313 | 0 is returned if and only if there is room and the name is new; then there is a new empty folder, and the walk of the path with its last component cut to 12 characters ends there if and only if the name is read back |
| MyFsMeaning.MkdirFoundIff | os_day9/myfs_adv.c:1274-1313 | some path finds the new folder if and only if its name is read back, and then its own path does |
| MyFsMeaning.MkdirWalk | os_day9/myfs_adv.c:1117-1151 | a walk through the folder, by any component, comes through the new folder if and only if the component is what the new entry is seen as and no entry of that name is found in front of it |
| MyFsMeaning.MkdirWhole | os_day9/myfs_adv.c:1093-1157 | so paths that go on behind the path given lead through the new folder if and only if the last component has at most 11 characters, or goes on behind the twelfth as the number of the new block does and no entry of that name is in front |
| MyFsMeaning.RmFrees | os_day9/myfs_adv.c:1497-1541 | exactly the blocks of the target are freed and no other object or slot changes |
| MyFsMeaning.RmHides | os_day9/myfs_adv.c:1065 | after myrm a visible entry stays visible if and only if it is not behind the emptied slot in the same block |
| MyFsMeaning.RmLookup | os_day9/myfs_adv.c:1061-1089 | after myrm a lookup in that directory returns what it did if and only if that was nothing or not from the emptied slot on in its block |
| MyFsMeaning.RmForgets | os_day9/myfs_adv.c:1497-1541 | after myrm its path leads nowhere if and only if all visible entries of the name lay in the block of the one removed |
| MyFsMeaning.SameComponents | os_day9/myfs_adv.c:1093-1169 | paths with the same components are interchangeable in every operation |
| MyFsRuns.RemovingFullFolderLeaks | os_day9/myfs_adv.c:1533-1538 | concrete runs that lose a block: mkdir /a, mkdir /a/b, then rm /a, or a copy to /a |
| MyFsRuns.FullFolderLeaks | os_day9/myfs_adv.c:1533-1538 | the same runs with any two names, any file, on any file system of three blocks or more |
| MyFsRuns.MkdirWithoutSlotLeaks | os_day9/myfs_adv.c:1302-1312 | a run of 195 mkdirs on 196 blocks whose last one loses the last block |
| MyFsRuns.FileVanishesAndReturns | os_day9/myfs_adv.c:1065 | mkdir a, copy to b, rm a: b is not found; mkdir c: b is back with its contents; for any file that fits |
| MyFsRuns.OverwriteHides | os_day9/myfs_adv.c:1235-1264 | a run in which overwriting one entry makes the next one vanish |
| MyFsRuns.OlderFileReturns | os_day9/myfs_adv.c:1497-1541 | a run after whose myrm the path leads to an older file of the same name, for any two files that fit |
| MyFsRuns.TwelveLettersLost | os_day9/myfs_adv.c:1274-1313 | on any new file system, mkdir_myfs of any name of 12 characters in the root returns 0 and no path finds the folder |
| MyFsRuns.LongComponent | os_day9/myfs_adv.c:1117-1151 | there, after mkdir_myfs of any component of 12 characters or more, a mkdir_myfs inside it succeeds if and only if what follows the twelfth character is the byte 2 |
| MyFsRuns.ThirteenLetters | os_day9/myfs_adv.c:1117-1151 | mkdir /aaaaaaaaaaaaa returns 0, mkdir /aaaaaaaaaaaaa/b then -1; with the byte 2 as the thirteenth letter both return 0 |
| MyFsOnDisk.FolderInFolder | os_day9/myfs_adv.c:1093-1169 | mkdir_myfs of the bytes of /a and then of /a/b, on any new file system: both return 0, and the second folder, block 3, lies in the first, block 2 |
| MyFsOnDisk.MakeFolder | os_day9/myfs_adv.c:1274-1313 | mkdir /a: the objects and free blocks afterwards, by number, and the first 21 bytes of the root |
| MyFsOnDisk.MakeFile | os_day9/myfs_adv.c:1178-1271 | then a copy of two bytes to /a/f: the same, and the bytes of the block filled |
| MyFsOnDisk.RemoveFile | os_day9/myfs_adv.c:1497-1541 | then rm /a/f: what was there before the copy, the record erased |
| MyFsOnDisk.Session | os_day9/myfs_adv.c:913-1541 | the same through the methods, from a new image on: the return values, the file read back, and superblock, links and bytes on the disk after each change |
| RingQueue.LengthMeaning | os_day6/circular_queue.c:28-38 | isEmpty and isFull mean no items and four items; there are never more |
| RingQueue.EnqueueMeaning | os_day6/circular_queue.c:41-44 | one item is appended; on a full queue everything would be lost |
| RingQueue.DequeueMeaning | os_day6/circular_queue.c:46-50 | the first item is taken; on an empty queue four stale ones would appear |
| RingQueue.CircularQueue.IsFull | os_day6/circular_queue.c:28-30 | exactly at four items |
| RingQueue.CircularQueue.IsEmpty | os_day6/circular_queue.c:32-34 | exactly at none |
| RingQueue.CircularQueue.NoOfFreeSpacesQ | os_day6/circular_queue.c:36-38 | four minus the number of items |
| RingQueue.CircularQueue.Enqueue | os_day6/circular_queue.c:41-44 | the array now holds the items followed by the new one |
| RingQueue.CircularQueue.Dequeue | os_day6/circular_queue.c:46-50 | the returned item followed by what the array now holds is what it held |
| Monitor.WakeCount | os_day6/circular_queue.c:72-98 | a signal moves as many threads from asleep to woken as it unblocks, of one kind only |
| Monitor.SignalWakeups | os_day6/circular_queue.c:72-98 | one signal per operation keeps every available item or space promised |
| Monitor.StepInv | os_day6/circular_queue.c:57-101 | every step of every thread keeps mutual exclusion, the queue order and the promises |
| Monitor.BehaviourInv | os_day6/circular_queue.c:52-103 | these hold in every interleaving of any number of threads, spurious wake-ups included |
| Monitor.Fifo | os_day6/circular_queue.c:57-99 | the items the consumers read are, in the order of the steps, a prefix of those the producers brought along; the rest is the ring from front to rear, at most four |
| Monitor.NoLostWakeup | os_day6/circular_queue.c:61-74 | while the mutex is free, a sleeping consumer means at most as many items as woken consumers; the same for producers and spaces |
| Monitor.NeverAllAsleep | os_day6/circular_queue.c:61-91 | with a producer and a consumer, every thread is asleep at no point of any interleaving |
| Monitor.NoDeadlock | os_day6/circular_queue.c:57-101 | some thread can always take its next step without a spurious wake-up |
| Monitor.WhoMayGo | os_day6/circular_queue.c:57-101 | which threads can take their next step, whatever item a producer brings: those not asleep, unless another has the mutex |
| MonitorProgress.StepRank | os_day6/circular_queue.c:57-101 | every step but moving an item, starting a thread and a spurious wake-up lowers a rank, also the signal, which raises that of the threads it wakes |
| MonitorProgress.Throughput | os_day6/circular_queue.c:52-103 | every interleaving, with n threads at its end, has at most 2n+5 steps for each item put in or read and 3 for each thread started and each spurious wake-up |
| MonitorProgress.KeepsMoving | os_day6/circular_queue.c:57-101 | a stretch of steps without new threads and spurious wake-ups, anywhere in it, has at most 4n+4 steps and 2n+5 more for each item it moves |
| MonitorProgress.HandsOver | os_day6/circular_queue.c:57-101 | so in any long enough stretch the producers put in and the consumers read more than m items, whichever threads are scheduled, and what is read is a prefix of what was put in |
| MonitorProgress.RunsOn | os_day6/circular_queue.c:57-101 | with a producer and a consumer such stretches of any length exist from every point of every interleaving |
| MonitorProgress.Live | os_day6/circular_queue.c:57-101 | so from every point any number of further items can be consumed |
| MonitorProgress.FromTheStart | os_day6/circular_queue.c:52-103 | from the start there are interleavings in which more than m items are read, for every m |
| BitmapFile.BitIs | os_day7/fileblk.c:87 | the bit of a block in numbers: byte i div 8, mask 1, 2, 4, ... 128 |
| BitmapFile.BitAfter | os_day7/fileblk.c:87-89 | setting or clearing one bit changes no other bit of the bitmap |
| BitmapFile.SetBit | os_day7/fileblk.c:235-242 | as a set: one index more, or one less |
| BitmapFile.UsedAll | os_day7/fileblk.c:295-302 | counting below n misses nothing if and only if no bit at or above n is set |
| BitmapFile.OffsetsApart | os_day7/fileblk.c:114 | the byte ranges of two blocks do not meet, for any block size |
| BitmapFile.BlockBytes | os_day7/fileblk.c:114 | byte k of block i lies at 4096 + i * s + k of the file |
| BitmapFile.BlockAfterWrite | os_day7/fileblk.c:192-194 | writing one block leaves the bytes of every other block |
| BitmapFile.StandsAfter | os_day7/fileblk.c:82-119 | a flipped bit with its counters and its block written: one allocated block more or less, the others as before |
| BitmapFile.StepMeaning | os_day7/fileblk.c:17-273 | allocation gives the least free index, -1 exactly if none is free or the data is too long; get_freeblock makes every byte of it 1, write_to_freeblock puts the data in front and zeros behind; freeing succeeds exactly for allocated ones; initialisation leaves none allocated |
| BitmapFile.DataStays | os_day7/fileblk.c:127-273 | in every run without a new initialisation, a block keeps its bytes until it is itself freed |
| BitmapFile.FreeUndoesGet | os_day7/fileblk.c:206-273 | freeing what was allocated gives the state back, and the next allocation the same block |
| BitmapFile.BlockFile.InitFileDd | os_day7/fileblk.c:17-61 | no block allocated, n free, bitmap clear, zeros behind the header |
| BitmapFile.BlockFile.TakeFirst | os_day7/fileblk.c:82-94 | the scan marks and counts the least free block |
| BitmapFile.BlockFile.GetFreeBlock | os_day7/fileblk.c:63-124 | one more block, the least free one, and every byte of it is 1; or header and bytes are unchanged; all other blocks, allocated or not, byte for byte the same |
| BitmapFile.BlockFile.WriteToFreeBlock | os_day7/fileblk.c:127-204 | one more block, the least free one, which starts with the data and is zero behind it; or header and bytes are unchanged; all other blocks byte for byte the same |
| BitmapFile.BlockFile.FreeBlock | os_day7/fileblk.c:206-273 | one block less, every byte of it 0, all other blocks byte for byte the same; else header and bytes are unchanged |
| BitmapFile.BlockFile.CountUsed | os_day7/fileblk.c:295-302 | the number of set bits below n |
| BitmapFile.BlockFile.CheckFs | os_day7/fileblk.c:276-329 | 0 exactly if both counters agree with the bitmap, in any header; always in a consistent one |
| BitmapFile.BlockFile.Menu | os_day7/fileblk.c:331-428 | after any sequence of choices 1 to 4 the file stands for the run and check_fs returns 0 |
| SlotStore.SlotLayout | os_day8/mymkfs.c:189-201 | in numbers: records of 16 bytes from offset 0, name and size, blocks of 4096 bytes from 32768 on |
| SlotStore.PutBytesIs | os_day8/mymkfs.c:189-201 | the two writes in bytes: twelve of the name, zeros behind a shorter one, four of the size, the data, and no other byte |
| SlotStore.MetaWrite | os_day8/mymkfs.c:195-197 | a metadata record meets neither another record nor any data block |
| SlotStore.DataWrite | os_day8/mymkfs.c:199-201 | data meets neither the table nor another data block; a stale tail stays behind it |
| SlotStore.CopyWrites | os_day8/mymkfs.c:189-201 | the two writes change one slot of the table, to name, size and data |
| SlotStore.RemoveWrite | os_day8/mymkfs.c:275-277 | zeroing the record empties one slot |
| SlotStore.StoreFile | os_day8/mymkfs.c:189-201 | filling an empty slot adds exactly one file to the map; the stale tail is not part of it |
| SlotStore.RemoveFile | os_day8/mymkfs.c:275-277 | emptying a slot removes exactly its file |
| SlotStore.FullTable | os_day8/mymkfs.c:172-187 | no empty slot if and only if there are as many names as slots |
| SlotStore.StoredIsFound | os_day8/mymkfs.c:217-226 | any name, short or long: a file just stored is the one mycopyfrom finds if and only if no slot before it has the same first twelve characters |
| SlotStore.StoredIsSeen | os_day8/mymkfs.c:138-148 | and a second copy of that name is refused on its account if and only if the name has at most 11 characters, or goes on as the bytes of the size do |
| SlotStore.CopiedTwice | os_day8/mymkfs.c:130-248 | in an empty table a name of 12 characters or more is admitted again unless it goes on behind the twelfth as the bytes of the first size do, and mycopyfrom returns the first file |
| SlotStore.CopyToRefines | os_day8/mymkfs.c:130-208 | with names of 1 to 11 characters mycopyto adds one file to the map, exactly if the name is absent, the size fits and the table is not full |
| SlotStore.CopyFromRefines | os_day8/mymkfs.c:210-248 | mycopyfrom looks the name up in the map |
| SlotStore.RmRefines | os_day8/mymkfs.c:250-281 | myrm deletes exactly that name |
| SlotStore.RunRefines | os_day8/mymkfs.c:130-281 | every run with such names is a run on a finite map from names to bytes |
| SlotStore.SlotStore.constructor | os_day8/mymkfs.c:112-128 | every byte 0: the empty table, which stands for the empty map |
| SlotStore.SlotStore.Find | os_day8/mymkfs.c:217-226 | the first slot with the same first twelve characters, -1 exactly if none has them |
| SlotStore.SlotStore.FindSeen | os_day8/mymkfs.c:138-148 | whether strcmp finds the name in a used slot |
| SlotStore.SlotStore.FindEmpty | os_day8/mymkfs.c:172-180 | the first unused slot, -1 exactly if all are used |
| SlotStore.SlotStore.MyCopyTo | os_day8/mymkfs.c:130-208 | any name: refused with no change if it is seen, too large, or there is no slot; else name, size and data are in the first unused slot, byte by byte, and no other byte changes |
| SlotStore.SlotStore.MyCopyFrom | os_day8/mymkfs.c:210-248 | any name: the file in the first slot found, none exactly if there is none |
| SlotStore.SlotStore.MyRm | os_day8/mymkfs.c:250-281 | any name: the 16 bytes of the first slot found are zeroed and no other byte changes; nothing changes if there is none |
| SlotStore.SlotStore.StoredTwice | os_day8/mymkfs.c:112-248 | a new image, two copies under such a name, and mycopyfrom: the same |
| SlotStore.SlotStore.Session | os_day8/mymkfs.c:130-281 | any sequence of commands leaves the table of the run |
| SampleChains.ChainAt | os_day9/sample.c:839-846 | the k-th link of a 0-terminated chain leads to its k-th block, which is not an earlier one |
| SampleChains.TurnStep | os_day9/sample.c:510-520 | one turn of the free loop links one block to the one freed before it and changes no other |
| SampleChains.FullPiece | os_day9/sample.c:287-299 | a whole piece keeps the chain running through the rest of the free list |
| SampleChains.ShortPiece | os_day9/sample.c:286-299 | a short last piece ends the chain with 0 and holds all of the data |
| SampleChains.NoPiece | os_day9/sample.c:281-301 | without a short last piece the block allocated last is never written: its old link still leads on into the free list |
| SampleChains.OutputStarts | os_day9/sample.c:411-430 | what is copied out starts with the data the chain holds |
| SampleChains.RoundTripIff | os_day9/sample.c:281-430 | copying in and out gives the data back if and only if its size is not a multiple of 4088, or it is empty and took the only free block |
| SampleChains.SharedIff | os_day9/sample.c:281-301 | file and free list have no common block if and only if the last piece was short or nothing was left free |
| SampleChains.FreedIff | os_day9/sample.c:508-520 | once its links are turned, the free list ends if and only if the file had no block in common with it; then it is the chain in reverse in front of the old list |
| SampleChains.SampleFs.RoundTrip | os_day9/sample.c:276-430 | mycopyTo and then mycopyFrom: what comes out is the data if and only if the last piece was short, or there was none and only one free block |
| SampleChains.SampleFs.WholeBlockFails | os_day9/sample.c:45-430 | a new file system of four blocks and a file of one whole block: it comes back twice as long |
| SampleChains.SampleFs.CopyAndRemove | os_day9/sample.c:276-520 | mycopyTo and then myrm: the free list still ends if and only if the last piece was short or every free block was taken |
| SampleChains.SampleFs.RemovedIntoCircle | os_day9/sample.c:45-520 | a new file system of five blocks, a file of one whole block copied in and removed: the free list runs 4, 3, 2, 4, and never ends |
| SampleChains.SampleFs.MyMkfs | os_day9/sample.c:45-86 | blocks 2..n-1 form the free list in order, each with its number in it and zeros for data |
| SampleChains.SampleFs.GetFreeBlock | os_day9/sample.c:100-116 | the head of the free list, -1 exactly if it is empty |
| SampleChains.SampleFs.CopyTurn | os_day9/sample.c:281-301 | one turn of the copy loop takes the next piece and, if it is whole, the next block; no block outside the old free list changes |
| SampleChains.SampleFs.TurnLinks | os_day9/sample.c:508-520 | the loop ends for every chain, and every link is turned |
| SampleChains.SampleFs.FreeChain | os_day9/sample.c:508-520 | for every chain, also one that runs into the free list: the free list ends if and only if it does not; data and all other blocks stay |
| SampleChains.SampleFs.Walk | os_day9/sample.c:839-852 | the k-th block, 0 exactly if k is outside the chain |
| SampleChains.SampleFs.MyReadBlock | os_day9/sample.c:838-859 | the data of the k-th block, none exactly if k is outside the chain |
| SampleChains.SampleFs.MyWriteBlock | os_day9/sample.c:933-959 | the k-th block gets the data; every other block and every link stay; -1 and no change exactly if k is outside |
| SampleChains.SampleFs.CopyIn | os_day9/sample.c:276-301 | succeeds exactly if there are more free blocks than whole pieces, then the chain holds the data, behind a short last piece the end of the piece before it, and the rest of the free list stays; otherwise all free blocks are gone |
| SampleChains.SampleFs.CopyOut | os_day9/sample.c:411-430 | whole blocks, and of the last one as much as the size says |
| Handoff.StepInv | os_day6/prodcons2.c:159-172 | every step of every thread keeps exactly one token and the counts |
| Handoff.BehaviourInv | os_day6/prodcons2.c:55-202 | so does every interleaving of any number of threads |
| Handoff.Alternation | os_day6/prodcons2.c:159-202 | the steps that touch the data are in turn a production and a consumption, and the k-th value printed is k |
| Handoff.AnyRounds | os_day6/prodcons2.c:159-202 | any number of values can be handed over |
| Handoff.UnlockOfLocked | os_day6/prodcons2.c:170-200 | each unlock acts on a locked lock |
| Handoff.NoDeadlock | os_day6/prodcons2.c:159-202 | with a producer and a consumer some thread can always go on |
| Handshake.Factorial | os_day4/shared mem/test.c:28-35 | 1 below 2, then 2, 6, 24 and so on, as numbers up to that of 10; for any number, a multiple of all from 1 to it |
| Handshake.FactDivides | os_day4/shared mem/test.c:28-35 | every number from 1 to num divides the result |
| Handshake.StepInv | os_day4/shared mem/test.c:65-88 | every single access to the shared words keeps the relation between flags, number and result |
| Handshake.RunAnswers | os_day4/shared mem/test.c:65-88 | so from any state with that relation, what is read answers what is pending and posted, in order |
| Handshake.FactBound | os_day4/shared mem/test.c:28-35 | results for numbers up to 10 fit a 32-bit int |
| Handshake.EveryInterleaving | os_day4/shared mem/test.c:65-88 | in every interleaving the k-th value the parent reads is, in a table of the ten numbers, the factorial of the k-th number it posted; each post is taken at most once, and the parent is done only after ten |
| Handshake.LosesPost | os_day4/shared mem/test.c:67-84 | a step loses a post if and only if it is the child's clear of parent_flag after the parent has raised it for the next round |
| Handshake.LostForever | os_day4/shared mem/test.c:66-84 | once a post is lost nothing ever changes again |
| Handshake.OnlyLostIsStuck | os_day4/shared mem/test.c:65-88 | in a reachable state before the parent is done, nothing can change if and only if a post was lost |
| Handshake.LateClearLoses | os_day4/shared mem/test.c:65-88 | a schedule that loses the second post after one good round |
| IthLargest.AtLeastSplit | os_day3/ithlargest_fork.c:30-32 | how the running total grows by one counter |
| IthLargest.AtLeastPermuted | os_day3/ithlargest_fork.c:24-26 | the counts do not depend on the order of the array |
| IthLargest.IthOfSorted | os_day3/ithlargest_fork.c:7-40 | the element with fewer than i larger and at least i as large is the one at index i-1 of any descending order |
| IthLargest.Range | os_day3/ithlargest_fork.c:8-15 | minimum and maximum are elements and bound all others |
| IthLargest.Tally | os_day3/ithlargest_fork.c:24-26 | each counter is the number of elements of its value |
| IthLargest.FindIthLargest | os_day3/ithlargest_fork.c:7-40 | for 1 <= i <= n the i-th largest element of the array; for i > n the final -1; for i < 1 the largest |

## Left out

- Input and output, `open`, `read`, `write` and `malloc` failures, messages, `main` and its arguments: data comes in and goes out as byte sequences, random numbers as parameters.
- `os_day9/myfs_adv.c`, struct layout: entries are the packed record 1 + 12 + 4 + 4 that METADATA_SIZE intends, though a compiler pads the struct to 24 bytes; the superblock is its four fields, the rest of block 0 is not modelled.
- `os_day9/myfs_adv.c`, `mystat` and `count_entries`: they only read and print.
- MyFsContents.CopyRoundTrip: says nothing of a 12-character name that is not read back; the path then leads to no entry of that copy (MyFsContents.CopyToFound), and what is read is some other entry or none.
- MyFsElsewhere.Elsewhere: says nothing of a path through the name the new entry is seen under; for those see MkdirThrough and CopyToThrough. A disturbed path that led nowhere and goes on below the directory changed may lead somewhere or still nowhere.
- `os_day6/circular_queue.c`: cancellation and the manager menu (lines 105-166), and the limit of ten threads of a kind; any number may start.
- MonitorProgress.HandsOver: nothing is claimed for a single thread; without fairness one may never be scheduled again.
- Monitor.Fifo: items are any integers, not just `rand() % 100`.
- `os_day7/fileblk.c`: block counts beyond the 4096 the bitmap supports; the header is a record, and only the bytes behind it are modelled as bytes.
- SlotStore.CopyToRefines: names of 1 to 11 characters; for longer ones the table is no map (SlotStore.StoredIsFound, SlotStore.StoredIsSeen).
- SlotStore.SlotStore.MyCopyTo: a refused call returns false where the C function exits; the size is that of the data, so `stat` and `read` cannot disagree.
- `os_day9/sample.c`: directories and nested paths (entries are written with one stride and read with another), and fewer than 3 blocks.
- SampleChains.SampleFs.CopyIn: the descriptor that records size and first block in the directory is not modelled; both are results.
- `os_day6/prodcons2.c`: the locks are read as binary semaphores, because they are unlocked by threads that did not lock them; the unlocked read in the first message of a producer (line 160) and wrap-around of the shared integer are not modelled.
- `os_day4/shared mem/test.c`: sequentially consistent interleavings only; no fairness is assumed, so no claim that a post is ever answered.
- `os_day3/ithlargest_fork.c`: the fork around `find_ith_largest`; arrays whose value range overflows an `int`.
- `os_day9/myfs_adv2.c`, `os_day6/mycq.c`, `os_day3/ith_largest_fork2.c`: copies of the cores above.
