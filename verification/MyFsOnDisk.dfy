/** One short session of os_day9/myfs_adv.c, in numbers, down to the bytes on the disk. */
module MyFsOnDisk {
  import opened Bytes
  import opened MyFsBlocks
  import opened MyFsStore
  import opened MyFsDirectory
  import opened MyFsPaths
  import opened MyFsTree
  import opened MyFsOps
  import opened MyFsConservation
  import opened MyFsContents
  import opened MyFsElsewhere
  import opened MyFsMeaning
  import opened MyFsRuns
  import Image = MyFs

  /** The bytes of "/a" and "/a/f". */
  const FOLDER: cstring := [47, 97]
  const FILE: cstring := [47, 97, 47, 102]

  lemma LetterPaths(c: byte)
    requires c != 0 && c != 47
    ensures ParentComponents([47, 97]) == [] && BaseName([47, 97]) == [97] && Steps([47, 97]) == [[97]]
    ensures ParentComponents([47, 97, 47, c]) == [[97]] && BaseName([47, 97, 47, c]) == [c]
  {
    var outer: cstring, inner: cstring := [47, 97], [47, 97, 47, c];
    OneToken([97]);
    OneToken([c]);
    ComponentsOfJoin([], [97]);
    ComponentsOfJoin(outer, [c]);
    assert [] + [47] + [97] == outer && outer + [47] + [c] == inner;
    PathCut(outer);
    PathCut(inner);
    assert PathComponents(outer) == [[97]] && PathComponents(inner) == [[97], [c]];
    BaseNameIs(outer);
    BaseNameIs(inner);
  }

  lemma Paths()
    ensures ParentComponents(FOLDER) == [] && BaseName(FOLDER) == [97]
    ensures ParentComponents(FILE) == [[97]] && BaseName(FILE) == [102] && Steps(FOLDER) == [[97]]
  {
    LetterPaths(102);
  }

  /** The 21 bytes of an entry of kind with a name of one letter, for block b and size, both below 256. */
  function Record(kind: byte, letter: byte, b: byte, size: byte): seq<byte> {
    [kind] + ([letter] + [0, 0, 0, 0, 0, 0, 0, 0, 0, 0, 0]) + [b, 0, 0, 0] + [size, 0, 0, 0]
  }

  /** The first bytes of a buffer, and zeros behind them. */
  ghost predicate Starts(buf: seq<byte>, front: seq<byte>) {
    && |buf| == 4088 && |front| <= 4088 && buf[..|front|] == front
    && forall k :: |front| <= k < 4088 ==> buf[k] == 0
  }

  lemma LetterField(letter: byte)
    requires letter != 0
    ensures Pad([letter], FILENAME_LEN) == [letter] + [0, 0, 0, 0, 0, 0, 0, 0, 0, 0, 0]
  {
  }

  lemma RecordIs(kind: byte, letter: byte, b: byte, size: byte)
    requires letter != 0
    ensures Starts(PutEntry(Zeros(BUFFER_SIZE), 0, NewEntry(kind, [letter], b, size)), Record(kind, letter, b, size))
  {
    SlotBytes(Zeros(BUFFER_SIZE), 0, NewEntry(kind, [letter], b, size));
    LetterField(letter);
    assert EncodeWord(b) == [b, 0, 0, 0] && EncodeWord(size) == [size, 0, 0, 0];
  }

  /** The first entry of an empty directory of one block. */
  lemma FirstEntry(s: Store, d: int, kind: byte, name: cstring, size: int)
    requires s.free != [] && d in s.objs && s.objs[d].bufs == [Zeros(BUFFER_SIZE)] && s.free[0] !in s.objs
    requires 0 <= s.free[0] < WORD && |name| <= FILENAME_LEN && 0 <= size < WORD
    ensures var b, t := s.free[0], Enter(s, d, kind, name, size).0;
            && Enter(s, d, kind, name, size).1 && t.free == s.free[1..] && t.objs.Keys == s.objs.Keys + {b}
            && (forall h :: h in s.objs && h != d ==> t.objs[h] == s.objs[h])
            && t.objs[d].chain == s.objs[d].chain
            && t.objs[d].bufs == [PutEntry(Zeros(BUFFER_SIZE), 0, NewEntry(kind, name, b, size))]
            && t.objs[b].chain == [b] && t.objs[b].bufs == [Zeros(BUFFER_SIZE)]
  {
    BlankSlots(s, d);
    FirstHoleUnique(DirSlots(s, d), 0);
    CreateForIs(s, d, kind);
  }

  lemma NothingInBlank(s: Store, d: int, path: cstring)
    requires Ready(s) && Folder(s, d) && s.objs[d].bufs == [Zeros(BUFFER_SIZE)]
    ensures Lookup(s, d, path) < 0 && Vacated(s, d, path) == s && FirstHole(DirSlots(s, d)) == 0 && |DirSlots(s, d)| == 194
  {
    BlankSlots(s, d);
    FirstHoleUnique(DirSlots(s, d), 0);
    NothingInEmpty(s, d, BaseName(path));
  }

  lemma SmallWrite(s: Store, b: int, data: seq<byte>)
    requires b in s.objs && s.objs[b].chain == [b] && s.objs[b].bufs == [Zeros(BUFFER_SIZE)] && 0 < |data| <= BUFFER_SIZE
    ensures var t := WriteData(s, b, 0, data);
            && t.free == s.free && t.objs.Keys == s.objs.Keys
            && (forall h :: h in s.objs && h != b ==> t.objs[h] == s.objs[h])
            && t.objs[b].chain == [b] && |t.objs[b].bufs| == 1 && Starts(t.objs[b].bufs[0], data)
  {
  }

  /** mkdir_myfs in an empty directory. */
  lemma MkdirFirst(s: Store, path: cstring, d: int)
    requires Ready(s) && ParentOf(s, path) == Some(d) && s.free != [] && s.objs[d].bufs == [Zeros(BUFFER_SIZE)]
    ensures AfterMkdir(s, path).1 == 0 && Ready(AfterMkdir(s, path).0) && CanMkdir(s, path) && 1 <= s.free[0] < s.nblocks
    ensures var b, t := s.free[0], AfterMkdir(s, path).0;
            && t.nblocks == s.nblocks && t.free == s.free[1..] && t.objs.Keys == s.objs.Keys + {b} && b !in s.objs
            && (forall h :: h in s.objs && h != d ==> t.objs[h] == s.objs[h])
            && t.objs[d].chain == s.objs[d].chain
            && t.objs[d].bufs == [PutEntry(Zeros(BUFFER_SIZE), 0, NewEntry(MYFOLDER, BaseName(path), b, 0))]
            && t.objs[b].chain == [b] && t.objs[b].bufs == [Zeros(BUFFER_SIZE)]
  {
    MkdirInv(s, path);
    NothingInBlank(s, d, path);
    FreeHeadFresh(s);
    FirstEntry(s, d, MYFOLDER, BaseName(path), 0);
  }

  /** mycopyto of a small file into one. */
  lemma CopyFirst(s: Store, path: cstring, d: int, data: seq<byte>)
    requires Ready(s) && ParentOf(s, path) == Some(d) && s.free != [] && s.objs[d].bufs == [Zeros(BUFFER_SIZE)]
    requires 0 < |data| <= BUFFER_SIZE
    ensures Ready(AfterCopyTo(s, path, data)) && 1 <= s.free[0] < s.nblocks
    ensures var b, t := s.free[0], AfterCopyTo(s, path, data);
            && t.nblocks == s.nblocks && t.free == s.free[1..] && t.objs.Keys == s.objs.Keys + {b} && b !in s.objs
            && (forall h :: h in s.objs && h != d ==> t.objs[h] == s.objs[h])
            && t.objs[d].chain == s.objs[d].chain
            && t.objs[d].bufs == [PutEntry(Zeros(BUFFER_SIZE), 0, NewEntry(MYFILE, BaseName(path), b, |data|))]
            && t.objs[b].chain == [b] && |t.objs[b].bufs| == 1 && Starts(t.objs[b].bufs[0], data)
  {
    CopyToInv(s, path, data);
    NothingInBlank(s, d, path);
    FreeHeadFresh(s);
    EnterSmall(s, d, BaseName(path), data);
  }

  lemma EnterSmall(s: Store, d: int, name: cstring, data: seq<byte>)
    requires Ready(s) && Folder(s, d) && s.free != [] && s.objs[d].bufs == [Zeros(BUFFER_SIZE)]
    requires s.free[0] !in s.objs && 0 <= s.free[0] < WORD && |name| <= FILENAME_LEN && 0 < |data| <= BUFFER_SIZE
    ensures var b, t := s.free[0], PutFile(s, d, name, data);
            && t.free == s.free[1..] && t.objs.Keys == s.objs.Keys + {b}
            && (forall h :: h in s.objs && h != d ==> t.objs[h] == s.objs[h])
            && t.objs[d].chain == s.objs[d].chain
            && t.objs[d].bufs == [PutEntry(Zeros(BUFFER_SIZE), 0, NewEntry(MYFILE, name, b, |data|))]
            && t.objs[b].chain == [b] && |t.objs[b].bufs| == 1 && Starts(t.objs[b].bufs[0], data)
  {
    FirstEntry(s, d, MYFILE, name, |data|);
    SmallWrite(Enter(s, d, MYFILE, name, |data|).0, s.free[0], data);
  }

  // ----- the session

  /** The store after mkdir /a on n blocks: block 2 is the new folder, and the root's first record names it. */
  ghost predicate FolderMade(t: Store, n: int) {
    && t.nblocks == n + 1 && t.objs.Keys == {1, 2} && |t.free| == n - 2 && (forall i :: 0 <= i < n - 2 ==> t.free[i] == i + 3)
    && t.objs[1].chain == [1] && |t.objs[1].bufs| == 1 && Starts(t.objs[1].bufs[0], Record(2, 97, 2, 0))
    && t.objs[2].chain == [2] && t.objs[2].bufs == [Zeros(BUFFER_SIZE)]
  }

  lemma MakeFolder(n: int)
    requires 4 <= n <= MAX_BLOCKS
    ensures Ready(InitStore(n)) && AfterMkdir(InitStore(n), FOLDER).1 == 0 && Ready(AfterMkdir(InitStore(n), FOLDER).0)
    ensures FolderMade(AfterMkdir(InitStore(n), FOLDER).0, n) && ParentOf(AfterMkdir(InitStore(n), FOLDER).0, FILE) == Some(2)
  {
    Paths();
    MakeFolderAt(n, FOLDER, FILE);
  }

  lemma MakeFolderAt(n: int, path: cstring, below: cstring)
    requires 4 <= n <= MAX_BLOCKS && ParentComponents(path) == [] && BaseName(path) == [97]
    requires ParentComponents(below) == Steps(path)
    ensures Ready(InitStore(n)) && AfterMkdir(InitStore(n), path).1 == 0 && Ready(AfterMkdir(InitStore(n), path).0)
    ensures FolderMade(AfterMkdir(InitStore(n), path).0, n) && ParentOf(AfterMkdir(InitStore(n), path).0, below) == Some(2)
  {
    InitInv(n);
    MkdirFirst(InitStore(n), path, ROOT);
    FolderIsMade(InitStore(n), AfterMkdir(InitStore(n), path).0, n);
    MkdirOpens(InitStore(n), path);
  }

  lemma FolderIsMade(s: Store, t: Store, n: int)
    requires 4 <= n && s == InitStore(n) && t.nblocks == s.nblocks && t.free == s.free[1..]
    requires t.objs.Keys == s.objs.Keys + {2} && t.objs[1].chain == s.objs[1].chain
    requires t.objs[1].bufs == [PutEntry(Zeros(BUFFER_SIZE), 0, NewEntry(MYFOLDER, [97], 2, 0))]
    requires t.objs[2].chain == [2] && t.objs[2].bufs == [Zeros(BUFFER_SIZE)]
    ensures FolderMade(t, n)
  {
    RecordIs(2, 97, 2, 0);
  }

  /** After a copy of the bytes 104, 105 to /a/f: the folder's first record names block 3, which starts with them. */
  ghost predicate FileMade(t: Store, n: int) {
    && t.nblocks == n + 1 && t.objs.Keys == {1, 2, 3} && |t.free| == n - 3 && (forall i :: 0 <= i < n - 3 ==> t.free[i] == i + 4)
    && t.objs[1].chain == [1] && |t.objs[1].bufs| == 1 && Starts(t.objs[1].bufs[0], Record(2, 97, 2, 0))
    && t.objs[2].chain == [2] && |t.objs[2].bufs| == 1 && Starts(t.objs[2].bufs[0], Record(1, 102, 3, 2))
    && t.objs[3].chain == [3] && |t.objs[3].bufs| == 1 && Starts(t.objs[3].bufs[0], [104, 105])
  }

  lemma MakeFile(s: Store, n: int)
    requires 4 <= n <= MAX_BLOCKS && Ready(s) && FolderMade(s, n) && ParentOf(s, FILE) == Some(2)
    ensures Ready(AfterCopyTo(s, FILE, [104, 105])) && FileMade(AfterCopyTo(s, FILE, [104, 105]), n)
  {
    Paths();
    MakeFileAt(s, n, FILE, [104, 105]);
  }

  lemma MakeFileAt(s: Store, n: int, path: cstring, data: seq<byte>)
    requires 4 <= n <= MAX_BLOCKS && Ready(s) && FolderMade(s, n) && ParentOf(s, path) == Some(2)
    requires BaseName(path) == [102] && data == [104, 105]
    ensures Ready(AfterCopyTo(s, path, data)) && FileMade(AfterCopyTo(s, path, data), n)
  {
    assert s.free != [] && s.free[0] == 3;
    CopyFirst(s, path, 2, data);
    FileIsMade(s, AfterCopyTo(s, path, data), n);
  }

  lemma FileIsMade(s: Store, t: Store, n: int)
    requires 4 <= n && FolderMade(s, n) && t.nblocks == s.nblocks && t.free == s.free[1..]
    requires t.objs.Keys == s.objs.Keys + {3} && t.objs[1] == s.objs[1] && t.objs[2].chain == s.objs[2].chain
    requires t.objs[2].bufs == [PutEntry(Zeros(BUFFER_SIZE), 0, NewEntry(MYFILE, [102], 3, 2))]
    requires t.objs[3].chain == [3] && |t.objs[3].bufs| == 1 && Starts(t.objs[3].bufs[0], [104, 105])
    ensures FileMade(t, n)
  {
    RecordIs(1, 102, 3, 2);
  }

  /** It reads back, and is found in the first slot of the folder. */
  lemma FileReads(s: Store, n: int)
    requires 4 <= n <= MAX_BLOCKS && Ready(s) && FolderMade(s, n) && ParentOf(s, FILE) == Some(2)
    ensures var t := AfterCopyTo(s, FILE, [104, 105]);
            && Ready(t) && FileAt(t, FILE) == Some([104, 105]) && ParentOf(t, FILE) == Some(2) && Lookup(t, 2, FILE) == 0
            && Used(DirSlots(t, 2)[0]) && DirSlots(t, 2)[0].firstblock == 3
  {
    Paths();
    FileReadsAt(s, n, FILE, [104, 105]);
  }

  lemma FileReadsAt(s: Store, n: int, path: cstring, data: seq<byte>)
    requires 4 <= n <= MAX_BLOCKS && Ready(s) && FolderMade(s, n) && ParentOf(s, path) == Some(2)
    requires BaseName(path) == [102] && 0 < |data| <= BUFFER_SIZE
    ensures var t := AfterCopyTo(s, path, data);
            && Ready(t) && FileAt(t, path) == Some(data) && ParentOf(t, path) == Some(2) && Lookup(t, 2, path) == 0
            && Used(DirSlots(t, 2)[0]) && DirSlots(t, 2)[0].firstblock == 3
  {
    assert Needed(Vacated(s, 2, path), 2, |data|) <= |Vacated(s, 2, path).free| by { NothingInBlank(s, 2, path); }
    CopyRoundTrip(s, path, data);
    FileSlot(s, n, path, data);
  }

  lemma FileSlot(s: Store, n: int, path: cstring, data: seq<byte>)
    requires 4 <= n <= MAX_BLOCKS && Ready(s) && FolderMade(s, n) && ParentOf(s, path) == Some(2)
    requires BaseName(path) == [102] && 0 < |data| <= BUFFER_SIZE
    ensures var t := AfterCopyTo(s, path, data);
            && Ready(t) && ParentOf(t, path) == Some(2) && Lookup(t, 2, path) == 0
            && Used(DirSlots(t, 2)[0]) && DirSlots(t, 2)[0].firstblock == 3
  {
    NothingInBlank(s, 2, path);
    CopyToParent(s, path, data, 2);
    CopyToFound(s, path, data, 2);
  }

  /** A buffer with one record, once the record is zeroed. */
  lemma RecordErased(buf: buffer, kind: byte, letter: byte, b: byte, size: byte)
    requires Starts(buf, Record(kind, letter, b, size)) && EMPTY_FD.Valid()
    ensures PutEntry(buf, 0, EMPTY_FD) == Zeros(BUFFER_SIZE)
  {
    EncodeEmpty();
    SlotBytes(buf, 0, EMPTY_FD);
  }

  /** myrm of an object of one block, the only one in its folder. */
  lemma RemoveOnly(t: Store, d: int, x: int)
    requires Ready(t) && Folder(t, d) && 0 < |DirSlots(t, d)| && Used(DirSlots(t, d)[0]) && DirSlots(t, d)[0].firstblock == x
    requires x in t.objs && t.objs[x].chain == [x] && |t.objs[d].bufs| == 1
    ensures EMPTY_FD.Valid()
    ensures var u := RemoveAt(t, d, 0);
            && u.nblocks == t.nblocks && u.free == [x] + t.free && u.objs.Keys == t.objs.Keys - {x} && d in u.objs
            && (forall h :: h in u.objs && h != d ==> u.objs[h] == t.objs[h])
            && u.objs[d].chain == t.objs[d].chain && u.objs[d].bufs == [PutEntry(t.objs[d].bufs[0], 0, EMPTY_FD)]
  {
    EncodeEmpty();
    RemoveAtKeeps(t, d, 0);
    assert Reverse([x]) == [x];
  }

  /** After rm of that file everything is as before it was made: block 3 is the first free one, the record is erased. */
  lemma RemoveFile(t: Store, n: int, path: cstring)
    requires 4 <= n <= MAX_BLOCKS && Ready(t) && FileMade(t, n) && ParentOf(t, path) == Some(2) && Lookup(t, 2, path) == 0
    requires Used(DirSlots(t, 2)[0]) && DirSlots(t, 2)[0].firstblock == 3
    ensures Ready(AfterRm(t, path)) && FolderMade(AfterRm(t, path), n)
  {
    RmInv(t, path);
    RemoveOnly(t, 2, 3);
    RecordErased(t.objs[2].bufs[0], 1, 102, 3, 2);
  }

  lemma FileGone(t: Store, n: int, path: cstring)
    requires 4 <= n <= MAX_BLOCKS && Ready(t) && FileMade(t, n) && ParentOf(t, path) == Some(2) && Lookup(t, 2, path) == 0
    requires Used(DirSlots(t, 2)[0]) && DirSlots(t, 2)[0].firstblock == 3
    ensures Ready(AfterRm(t, path)) && FileAt(AfterRm(t, path), path) == None
  {
    RemoveFile(t, n, path);
    RmForgets(t, path, 2);
    NothingInBlank(AfterRm(t, path), 2, path);
  }

  /** mkdir with the bytes of "/a" and then of "/a/b": both return 0, and the second folder, block 3, lies in the first,
      block 2. */
  lemma FolderInFolder(n: int, outer: cstring, inner: cstring)
    requires 4 <= n <= MAX_BLOCKS && outer == [47, 97] && inner == [47, 97, 47, 98]
    ensures Ready(InitStore(n)) && AfterMkdir(InitStore(n), outer).1 == 0 && Ready(AfterMkdir(InitStore(n), outer).0)
    ensures var u := AfterMkdir(AfterMkdir(InitStore(n), outer).0, inner);
            u.1 == 0 && Ready(u.0) && ParentOf(u.0, inner) == Some(2) && Found(u.0, inner) == Some(3)
  {
    LetterPaths(98);
    MakeFolderAt(n, outer, inner);
    InnerFolder(AfterMkdir(InitStore(n), outer).0, n, inner);
  }

  lemma InnerFolder(t: Store, n: int, path: cstring)
    requires 4 <= n <= MAX_BLOCKS && Ready(t) && FolderMade(t, n) && ParentOf(t, path) == Some(2) && BaseName(path) == [98]
    ensures var u := AfterMkdir(t, path);
            u.1 == 0 && Ready(u.0) && ParentOf(u.0, path) == Some(2) && Found(u.0, path) == Some(3)
  {
    assert t.free != [] && t.free[0] == 3;
    MkdirFirst(t, path, 2);
    MkdirFoundIff(t, path);
    ParentStays(t, path, 2);
  }

  lemma ParentStays(t: Store, path: cstring, d: int)
    requires Ready(t) && ParentOf(t, path) == Some(d) && CanMkdir(t, path)
    ensures Ready(AfterMkdir(t, path).0) && ParentOf(AfterMkdir(t, path).0, path) == Some(d)
  {
    MkdirWrites(t, path, d);
    WalkSame(t, AfterMkdir(t, path).0, d, FREE, ParentComponents(path), ParentComponents(path));
  }

  // ----- on the disk

  /** The disk after mkdir /a: superblock, root, folder, and the free list from block 3 on. */
  ghost predicate FolderOnDisk(sb: Superblock, disk: seq<Block>, n: int) {
    && 4 <= n < |disk| && sb == Superblock(4096, n + 1, 3, 1)
    && disk[1].id == 1 && disk[1].nextblock == -1 && Starts(disk[1].buffer, Record(2, 97, 2, 0))
    && disk[2].id == 2 && disk[2].nextblock == -1 && Starts(disk[2].buffer, [])
    && forall b :: 3 <= b <= n ==> FreeOnDisk(disk[b], b, n)
  }

  /** The disk after the copy to /a/f. */
  ghost predicate FileOnDisk(sb: Superblock, disk: seq<Block>, n: int) {
    && 4 <= n < |disk| && sb == Superblock(4096, n + 1, 4, 1)
    && disk[1].id == 1 && disk[1].nextblock == -1 && Starts(disk[1].buffer, Record(2, 97, 2, 0))
    && disk[2].id == 2 && disk[2].nextblock == -1 && Starts(disk[2].buffer, Record(1, 102, 3, 2))
    && disk[3].id == 3 && disk[3].nextblock == -1 && Starts(disk[3].buffer, [104, 105])
    && forall b :: 4 <= b <= n ==> FreeOnDisk(disk[b], b, n)
  }

  ghost predicate FreeOnDisk(blk: Block, b: int, n: int) {
    && blk.id == b && Starts(blk.buffer, [])
    && if b < n then blk.nextblock == b + 1 else blk.nextblock <= 0 || blk.nextblock > n
  }

  lemma FreeBlocks(s: Store, sb: Superblock, disk: seq<Block>, first: int, n: int)
    requires Accounted(s) && Represents(s, sb, disk) && s.nblocks == n + 1 && 1 <= first <= n
    requires |s.free| == n + 1 - first && forall i :: 0 <= i < |s.free| ==> s.free[i] == i + first
    ensures sb.freeblock == first && forall b :: first <= b <= n ==> FreeOnDisk(disk[b], b, n)
  {
    forall b | first <= b <= n
      ensures FreeOnDisk(disk[b], b, n)
    {
      assert s.free[b - first] == b;
      assert b in s.spot && s.spot[b] == Spot(FREE, n - b);
      assert BlockRepresents(s, disk[b], b);
    }
  }

  lemma FolderBlocks(s: Store, sb: Superblock, disk: seq<Block>, n: int)
    requires 4 <= n && Accounted(s) && Represents(s, sb, disk) && FolderMade(s, n)
    ensures FolderOnDisk(sb, disk, n)
  {
    ChainOnDisk(s, sb, disk, 1, 0);
    ChainOnDisk(s, sb, disk, 2, 0);
    FreeBlocks(s, sb, disk, 3, n);
  }

  lemma FileBlocks(s: Store, sb: Superblock, disk: seq<Block>, n: int)
    requires 4 <= n && Accounted(s) && Represents(s, sb, disk) && FileMade(s, n)
    ensures FileOnDisk(sb, disk, n)
  {
    ChainOnDisk(s, sb, disk, 1, 0);
    ChainOnDisk(s, sb, disk, 2, 0);
    ChainOnDisk(s, sb, disk, 3, 0);
    FreeBlocks(s, sb, disk, 4, n);
  }

  method NewFolder(n: int) returns (image: Image.MyFs, made: int)
    requires 4 <= n <= 0x7_FFFF
    ensures fresh(image) && image.Valid() && made == 0 && FolderOnDisk(image.sb, image.disk, n)
    ensures Ready(image.fs) && FolderMade(image.fs, n) && ParentOf(image.fs, FILE) == Some(2)
  {
    image := new Image.MyFs();
    image.InitFs(n);
    MakeFolder(n);
    made := image.MkDir(FOLDER);
    FolderBlocks(image.fs, image.sb, image.disk, n);
  }

  method AddFile(image: Image.MyFs, n: int)
    requires 4 <= n <= 0x7_FFFF && image.Valid() && Ready(image.fs)
    requires FolderMade(image.fs, n) && ParentOf(image.fs, FILE) == Some(2)
    modifies image
    ensures image.Valid() && FileOnDisk(image.sb, image.disk, n)
    ensures Ready(image.fs) && FileMade(image.fs, n) && FileAt(image.fs, FILE) == Some([104, 105])
    ensures ParentOf(image.fs, FILE) == Some(2) && Lookup(image.fs, 2, FILE) == 0
    ensures Used(DirSlots(image.fs, 2)[0]) && DirSlots(image.fs, 2)[0].firstblock == 3
  {
    MakeFile(image.fs, n);
    FileReads(image.fs, n);
    image.CopyTo(FILE, [104, 105]);
    FileBlocks(image.fs, image.sb, image.disk, n);
  }

  method DropFile(image: Image.MyFs, n: int)
    requires 4 <= n <= 0x7_FFFF && image.Valid() && Ready(image.fs) && FileMade(image.fs, n)
    requires ParentOf(image.fs, FILE) == Some(2) && Lookup(image.fs, 2, FILE) == 0
    requires Used(DirSlots(image.fs, 2)[0]) && DirSlots(image.fs, 2)[0].firstblock == 3
    modifies image
    ensures image.Valid() && FolderOnDisk(image.sb, image.disk, n) && FileAt(image.fs, FILE) == None
  {
    RemoveFile(image.fs, n, FILE);
    FileGone(image.fs, n, FILE);
    image.Rm(FILE);
    FolderBlocks(image.fs, image.sb, image.disk, n);
  }

  method FileSession(image: Image.MyFs, n: int) returns (got: Option<seq<byte>>, after: (Superblock, seq<Block>))
    requires 4 <= n <= 0x7_FFFF && image.Valid() && Ready(image.fs)
    requires FolderMade(image.fs, n) && ParentOf(image.fs, FILE) == Some(2)
    modifies image
    ensures image.Valid() && Ready(image.fs) && FileMade(image.fs, n)
    ensures ParentOf(image.fs, FILE) == Some(2) && Lookup(image.fs, 2, FILE) == 0
    ensures Used(DirSlots(image.fs, 2)[0]) && DirSlots(image.fs, 2)[0].firstblock == 3
    ensures got == Some([104, 105]) && FileOnDisk(after.0, after.1, n)
  {
    AddFile(image, n);
    after := (image.sb, image.disk);
    got := image.CopyFrom(FILE);
  }

  method RemovalSession(image: Image.MyFs, n: int) returns (gone: Option<seq<byte>>, after: (Superblock, seq<Block>))
    requires 4 <= n <= 0x7_FFFF && image.Valid() && Ready(image.fs) && FileMade(image.fs, n)
    requires ParentOf(image.fs, FILE) == Some(2) && Lookup(image.fs, 2, FILE) == 0
    requires Used(DirSlots(image.fs, 2)[0]) && DirSlots(image.fs, 2)[0].firstblock == 3
    modifies image
    ensures gone == None && FolderOnDisk(after.0, after.1, n)
  {
    DropFile(image, n);
    after := (image.sb, image.disk);
    gone := image.CopyFrom(FILE);
  }

  /** A new image of n blocks, mkdir /a, a copy of two bytes to /a/f, reading it back, rm /a/f, reading again: what the calls
      return, and the superblock and the blocks after each change. */
  method Session(n: int) returns (made: int, got: Option<seq<byte>>, gone: Option<seq<byte>>,
                                  first: (Superblock, seq<Block>), second: (Superblock, seq<Block>),
                                  third: (Superblock, seq<Block>))
    requires 4 <= n <= 0x7_FFFF
    ensures made == 0 && FolderOnDisk(first.0, first.1, n)
    ensures got == Some([104, 105]) && FileOnDisk(second.0, second.1, n)
    ensures gone == None && FolderOnDisk(third.0, third.1, n)
  {
    var image;
    image, made := NewFolder(n);
    first := (image.sb, image.disk);
    got, second := FileSession(image, n);
    gone, third := RemovalSession(image, n);
  }
}
