/** The file system of os_day9/myfs_adv.c: one disk image rewritten in place. */
module MyFs {
  import opened Bytes
  import opened MyFsBlocks
  import opened MyFsStore
  import opened MyFsDirectory
  import opened MyFsPaths
  import opened MyFsTree
  import opened MyFsOps

  /** Concat grows by the next buffer. */
  lemma {:induction false} ConcatTake(bufs: seq<buffer>, i: nat)
    requires i < |bufs|
    ensures Concat(bufs)[..BUFFER_SIZE * i] + bufs[i] == Concat(bufs)[..BUFFER_SIZE * (i + 1)]
  {
    if i > 0 {
      ConcatTake(bufs[1..], i - 1);
      var c, r := Concat(bufs), Concat(bufs[1..]);
      assert c[..BUFFER_SIZE * i] == bufs[0] + r[..BUFFER_SIZE * (i - 1)];
      assert c[..BUFFER_SIZE * (i + 1)] == bufs[0] + r[..BUFFER_SIZE * i];
      assert bufs[1..][i - 1] == bufs[i];
      assert bufs[0] + r[..BUFFER_SIZE * (i - 1)] + bufs[i] == bufs[0] + (r[..BUFFER_SIZE * (i - 1)] + bufs[i]);
    }
  }

  /** With no hole left, adding after growing is adding. */
  lemma AddAfterGrow(s: Store, d: int, e: Fd)
    requires d in s.objs && e.Valid() && s.free != [] && FirstHole(DirSlots(s, d)) == |DirSlots(s, d)|
    ensures AddEntry(Grow(s, d), d, e) == AddEntry(s, d, e)
    ensures FirstHole(DirSlots(Grow(s, d), d)) == |DirSlots(s, d)|
  {
  }

  /** The slots of block k. */
  lemma SlotInBlock(bufs: seq<buffer>, k: nat)
    requires k < |bufs|
    ensures forall j :: 0 <= j < SLOTS ==> Slots(bufs)[SLOTS * k..][j] == EntryAt(bufs[k], j)
  {
  }

  lemma FolderInRange(s: Store, d: int)
    requires Inv(s) && Folder(s, d)
    ensures 1 <= d < s.nblocks
  {
  }

  /** What the delayed walk still has to do in dir amounts to walking cs from the root; prev is looked up late. */
  ghost predicate Walking(s: Store, cs: seq<cstring>, dir: int, prev: Option<cstring>, more: seq<cstring>)
    requires Tree(s) && Folder(s, dir)
  {
    match prev
    case None => more == cs && dir == ROOT
    case Some(p) =>
      && cs != [] && cs[|cs| - 1] == ([p] + more)[|more|]
      && Resolve(s, ROOT, cs[..|cs| - 1]) == Resolve(s, dir, ([p] + more)[..|more|])
  }

  lemma ResolveCons(s: Store, dir: int, p: cstring, rest: seq<cstring>)
    requires Tree(s) && Folder(s, dir)
    ensures Resolve(s, dir, [p] + rest) ==
            match Descend(s, dir, p)
            case None => None
            case Some(e) => Resolve(s, e, rest)
  {
    assert ([p] + rest)[1..] == rest;
  }

  lemma WalkingNext(s: Store, cs: seq<cstring>, dir: int, p: cstring, more: seq<cstring>)
    requires Tree(s) && Folder(s, dir) && Walking(s, cs, dir, Some(p), more) && more != []
    ensures match Descend(s, dir, p)
            case None => cs != [] && Resolve(s, ROOT, cs[..|cs| - 1]) == None
            case Some(e) => Walking(s, cs, e, Some(more[0]), more[1..])
  {
    assert [more[0]] + more[1..] == more;
    assert ([p] + more)[..|more|] == [p] + more[..|more| - 1];
    ResolveCons(s, dir, p, more[..|more| - 1]);
  }

  lemma WalkingStep(s: Store, cs: seq<cstring>, dir: int, prev: Option<cstring>, more: seq<cstring>)
    requires Tree(s) && Folder(s, dir) && Walking(s, cs, dir, prev, more) && more != []
    ensures prev == None ==> Walking(s, cs, dir, Some(more[0]), more[1..])
    ensures prev.Some? ==>
              match Descend(s, dir, prev.value)
              case None => cs != [] && Resolve(s, ROOT, cs[..|cs| - 1]) == None
              case Some(e) => Walking(s, cs, e, Some(more[0]), more[1..])
  {
    match prev
    case None => assert [cs[0]] + cs[1..] == cs;
    case Some(p) => WalkingNext(s, cs, dir, p, more);
  }

  lemma ParentIs(s: Store, path: cstring)
    requires Tree(s)
    ensures var cs := Components(PathCopy(path));
            ParentOf(s, path) == if cs == [] then Some(ROOT) else Resolve(s, ROOT, cs[..|cs| - 1])
  {
  }

  lemma AddAfterGrowIfFree(s: Store, d: int, e: Fd)
    requires d in s.objs && e.Valid() && FirstHole(DirSlots(s, d)) == |DirSlots(s, d)|
    ensures s.free == [] ==> AddEntry(s, d, e) == (s, false)
    ensures s.free != [] ==>
              && AddEntry(Grow(s, d), d, e) == AddEntry(s, d, e)
              && FirstHole(DirSlots(Grow(s, d), d)) == |DirSlots(s, d)|
  {
    if s.free != [] {
      AddAfterGrow(s, d, e);
    }
  }

  /** Where the scan of block k stops tells whether the directory's first hole is there. */
  lemma HoleInBlock(bufs: seq<buffer>, k: nat, e: int)
    requires k < |bufs| && 0 <= e <= SLOTS && SLOTS * k <= FirstHole(Slots(bufs))
    requires forall j :: 0 <= j < e ==> Used(EntryAt(bufs[k], j))
    requires e < SLOTS ==> !Used(EntryAt(bufs[k], e))
    ensures if e < SLOTS then FirstHole(Slots(bufs)) == SLOTS * k + e else SLOTS * (k + 1) <= FirstHole(Slots(bufs))
  {
    var slots := Slots(bufs);
    SlotInBlock(bufs, k);
    var rest := slots[SLOTS * k..];
    forall j | SLOTS * k <= j < SLOTS * k + e
      ensures Used(slots[j])
    {
      assert rest[j - SLOTS * k] == slots[j];
    }
    if e < SLOTS {
      assert rest[e] == slots[SLOTS * k + e];
    }
  }

  /** Overlay looks only at the next piece. */
  lemma OverlayPiece(buf: buffer, data: seq<byte>)
    ensures Overlay(buf, data[..Min(|data|, BUFFER_SIZE)]) == Overlay(buf, data)
  {
  }

  lemma TargetIs(s: Store, d: int, i: int)
    requires Tree(s) && Folder(s, d) && 0 <= i < |DirSlots(s, d)| && Used(DirSlots(s, d)[i])
    ensures DirSlots(s, d)[i].firstblock in s.objs && DirSlots(s, d)[i].firstblock != d
  {
  }

  lemma FoundHere(slots: seq<Fd>, name: cstring, e: int)
    requires 0 <= e < SLOTS <= |slots|
    requires forall j :: 0 <= j < e ==> Used(slots[j]) && Seen(slots[j]) != name
    requires Used(slots[e]) && Seen(slots[e]) == name
    ensures FindIdx(slots, name) == e
  {
    assert e % SLOTS == e;
    FirstMatchIsFindIdx(slots, name, e);
  }

  lemma NotFoundHere(slots: seq<Fd>, name: cstring, e: int)
    requires 0 <= e <= SLOTS == |slots|
    requires forall j :: 0 <= j < e ==> Used(slots[j]) && Seen(slots[j]) != name
    requires e < SLOTS ==> !Used(slots[e])
    ensures FindIdx(slots, name) == -1
  {
  }

  /** The slots of block k and the blocks behind it. */
  function From(slots: seq<Fd>, k: nat): seq<Fd> {
    if SLOTS * k <= |slots| then slots[SLOTS * k..] else []
  }

  /** A result found in the blocks behind, counted from this block on. */
  function Shifted(r: int): int {
    if r >= 0 then SLOTS + r else -1
  }

  lemma NothingBehind(slots: seq<Fd>, k: nat, name: cstring)
    requires |slots| <= SLOTS * k
    ensures FindIdx(From(slots, k), name) == -1
  {
  }

  /** What the scan of block k says about the search from there on. */
  lemma ScanMeans(bufs: seq<buffer>, k: nat, name: cstring, e: int, found: bool)
    requires k < |bufs| && 0 <= e <= SLOTS
    requires forall j :: 0 <= j < e ==> Used(EntryAt(bufs[k], j)) && Seen(EntryAt(bufs[k], j)) != name
    requires found ==> e < SLOTS && Used(EntryAt(bufs[k], e)) && Seen(EntryAt(bufs[k], e)) == name
    requires !found && e < SLOTS ==> !Used(EntryAt(bufs[k], e))
    ensures FindIdx(From(Slots(bufs), k), name) ==
            if found then e else Shifted(FindIdx(From(Slots(bufs), k + 1), name))
  {
    var slots := From(Slots(bufs), k);
    SlotInBlock(bufs, k);
    assert forall j :: 0 <= j < e ==> Used(slots[j]) && Seen(slots[j]) != name;
    if found {
      FoundHere(slots, name, e);
    } else if k + 1 < |bufs| {
      assert slots[SLOTS..] == From(Slots(bufs), k + 1);
      FindInRest(slots, name, e, FindIdx(slots[SLOTS..], name));
    } else {
      NothingBehind(Slots(bufs), k + 1, name);
      NotFoundHere(slots, name, e);
    }
  }

  /** The superblock and blocks init_fs writes hold the new store. */
  lemma InitRepresents(n: int, sb: Superblock, disk: seq<Block>)
    requires 1 <= n <= MAX_BLOCKS && |disk| > n && sb == Superblock(BLOCK_SIZE, n + 1, 2, ROOT)
    requires disk[ROOT] == Block(ROOT, Zeros(BUFFER_SIZE), -1)
    requires forall b :: 2 <= b <= n ==> disk[b] == Block(b, Zeros(BUFFER_SIZE), if b < n then b + 1 else -1)
    requires Accounted(InitStore(n))
    ensures Represents(InitStore(n), sb, disk)
  {
    var s := InitStore(n);
    forall b | 1 <= b < s.nblocks
      ensures BlockRepresents(s, disk[b], b)
    {
      if b != ROOT {
        assert s.spot[b] == Spot(FREE, n - b);
        assert disk[b].nextblock == (if b < n then b + 1 else -1);
      }
    }
  }

  /** A block of an object that stays is on disk as it was. */
  lemma SameBlock(s: Store, sb: Superblock, disk: seq<Block>, t: Store, sb': Superblock, disk': seq<Block>, d: int, k: nat)
    requires Accounted(s) && Represents(s, sb, disk) && Accounted(t) && Represents(t, sb', disk')
    requires d in s.objs && d in t.objs && s.objs[d] == t.objs[d] && k < |s.objs[d].chain| && s.nblocks == t.nblocks
    ensures 1 <= s.objs[d].chain[k] < s.nblocks && disk[s.objs[d].chain[k]] == disk'[s.objs[d].chain[k]]
  {
    ChainOnDisk(s, sb, disk, d, k);
    ChainOnDisk(t, sb', disk', d, k);
  }

  class MyFs {
    /** The superblock, stored in block 0 of the image. */
    var sb: Superblock
    /** The image, block by block; entry 0 stands for the superblock's bytes. */
    var disk: seq<Block>
    /** The chains on the disk. */
    ghost var fs: Store

    ghost predicate Linked()
      reads this
    {
      Accounted(fs) && Represents(fs, sb, disk)
    }

    ghost predicate Valid()
      reads this
    {
      Linked() && Inv(fs)
    }

    constructor ()
      ensures disk == []
    {
      sb := Superblock(0, 0, 0, 0);
      disk := [];
      fs := Store(0, [], map[], map[]);
    }

    /** Whatever the file held before, the first nblocks + 1 blocks are rewritten; a longer tail stays. */
    method InitFs(nblocks: int)
      requires 1 <= nblocks <= MAX_BLOCKS
      modifies this
      ensures Valid() && fs == InitStore(nblocks)
      ensures |old(disk)| > nblocks + 1 ==> disk[nblocks + 1..] == old(disk)[nblocks + 1..]
    {
      sb := Superblock(BLOCK_SIZE, nblocks + 1, 2, ROOT);
      var image := [Block(0, Zeros(BUFFER_SIZE), 0), Block(ROOT, Zeros(BUFFER_SIZE), -1)];
      var i := 2;
      while i <= nblocks
        invariant 2 <= i && |image| == i && i <= nblocks + 1
        invariant image[1] == Block(ROOT, Zeros(BUFFER_SIZE), -1)
        invariant forall b :: 2 <= b < i ==>
          image[b] == Block(b, Zeros(BUFFER_SIZE), if b < nblocks then b + 1 else -1)
      {
        image := image + [Block(i, Zeros(BUFFER_SIZE), if i < nblocks then i + 1 else -1)];
        i := i + 1;
      }
      disk := if |disk| > |image| then image + disk[|image|..] else image;
      assert |old(disk)| > |image| ==> disk[|image|..] == old(disk)[|image|..];
      fs := InitStore(nblocks);
      InitInv(nblocks);
      InitRepresents(nblocks, sb, disk);
    }

    method ReadBlock(blocknum: int) returns (b: Block)
      requires 0 <= blocknum < |disk|
      ensures b == disk[blocknum]
    {
      b := disk[blocknum];
    }

    method WriteBlock(blocknum: int, b: Block)
      requires 0 <= blocknum < |disk|
      modifies this`disk
      ensures disk == old(disk)[blocknum := b]
    {
      disk := disk[blocknum := b];
    }

    /** Unlinks the first free block and hands it out zeroed, or returns -1 and changes nothing. */
    method AllocateZeroBlock() returns (r: int)
      requires sb.nblocks <= |disk|
      modifies this`sb, this`disk
      ensures r == -1 <==> old(sb).freeblock <= 0 || old(sb).freeblock >= old(sb).nblocks
      ensures r == -1 ==> sb == old(sb) && disk == old(disk)
      ensures r != -1 ==>
                && r == old(sb).freeblock
                && sb == old(sb).(freeblock := old(disk)[r].nextblock)
                && disk == old(disk)[r := old(disk)[r].(buffer := Zeros(BUFFER_SIZE), nextblock := -1)]
    {
      var freeBlock := sb.freeblock;
      if freeBlock <= 0 || freeBlock >= sb.nblocks {
        return -1;
      }
      var b := ReadBlock(freeBlock);
      sb := sb.(freeblock := b.nextblock);
      b := b.(buffer := Zeros(BUFFER_SIZE));
      b := b.(nextblock := -1);
      WriteBlock(freeBlock, b);
      r := freeBlock;
    }

    /** Puts a block in front of the free list, zeroed. */
    method FreeBlock(blocknum: int)
      requires 0 <= blocknum < |disk|
      modifies this`sb, this`disk
      ensures sb == old(sb).(freeblock := blocknum)
      ensures disk == DiskOfFree(old(sb), old(disk), blocknum)
    {
      var b := ReadBlock(blocknum);
      b := b.(buffer := Zeros(BUFFER_SIZE));
      b := b.(nextblock := sb.freeblock);
      WriteBlock(blocknum, b);
      sb := sb.(freeblock := blocknum);
    }

    /** Frees a whole chain while rewriting the links it walks. */
    method FreeBlockChain(start: int)
      requires Linked() && (start == -1 || start in fs.objs)
      modifies this
      ensures Linked()
      ensures fs == if start == -1 then old(fs) else Release(old(fs), start)
    {
      var currentBlock := start;
      while currentBlock != -1
        invariant Linked()
        invariant currentBlock != -1 ==>
          currentBlock in fs.objs && start != -1 && Release(fs, currentBlock) == Release(old(fs), start)
        invariant currentBlock == -1 ==> fs == if start == -1 then old(fs) else Release(old(fs), start)
        decreases if currentBlock in fs.objs then |fs.objs[currentBlock].chain| else 0
      {
        ChainOnDisk(fs, sb, disk, currentBlock, 0) by { assert ChainAccounted(fs, currentBlock); }
        ReleaseStep(fs, currentBlock);
        DropHeadRepresents(fs, sb, disk, currentBlock);
        ghost var o := fs.objs[currentBlock];
        assert o.chain[0] == currentBlock by { assert ChainAccounted(fs, currentBlock); }
        var b := ReadBlock(currentBlock);
        var nextBlock := b.nextblock;
        FreeBlock(currentBlock);
        fs := DropHead(fs, currentBlock);
        if |o.chain| > 1 {
          assert nextBlock == o.chain[1] && nextBlock != -1;
          assert fs.objs[nextBlock].chain == o.chain[1..];
        }
        currentBlock := nextBlock;
      }
    }

    /** The loop of find_entry over the entries of one block. */
    static method ScanBlock(buf: buffer, name: cstring) returns (entries: int, found: bool)
      ensures 0 <= entries <= SLOTS
      ensures forall j :: 0 <= j < entries ==> Used(EntryAt(buf, j)) && Seen(EntryAt(buf, j)) != name
      ensures found ==> entries < SLOTS && Used(EntryAt(buf, entries)) && Seen(EntryAt(buf, entries)) == name
      ensures !found && entries < SLOTS ==> !Used(EntryAt(buf, entries))
    {
      entries := 0;
      while buf[entries * METADATA_SIZE] != 0 && entries < SLOTS
        invariant 0 <= entries <= SLOTS
        invariant forall j :: 0 <= j < entries ==> Used(EntryAt(buf, j)) && Seen(EntryAt(buf, j)) != name
        decreases SLOTS - entries
      {
        var entry := EntryAt(buf, entries);
        if Seen(entry) == name {
          return entries, true;
        }
        entries := entries + 1;
      }
      found := false;
    }

    /** Reads block k of directory d and scans it; the link says whether more blocks follow. */
    method ScanAt(dirBlock: int, name: cstring, ghost d: int, ghost k: nat)
      returns (entries: int, found: bool, nextblock: int)
      requires Linked() && d in fs.objs && k < |fs.objs[d].chain| && fs.objs[d].chain[k] == dirBlock
      ensures nextblock == if k + 1 < |fs.objs[d].chain| then fs.objs[d].chain[k + 1] else -1
      ensures nextblock == -1 <==> k + 1 == |fs.objs[d].chain|
      ensures FindIdx(From(DirSlots(fs, d), k), name) ==
              if found then entries else Shifted(FindIdx(From(DirSlots(fs, d), k + 1), name))
    {
      ChainOnDisk(fs, sb, disk, d, k);
      if k + 1 < |fs.objs[d].chain| {
        ChainOnDisk(fs, sb, disk, d, k + 1);
      }
      var dir := ReadBlock(dirBlock);
      entries, found := ScanBlock(dir.buffer, name);
      ScanMeans(fs.objs[d].bufs, k, name, entries, found);
      nextblock := dir.nextblock;
    }

    /** Searches block k of directory d and, recursively, the blocks behind it. */
    method FindEntry(dirBlock: int, name: cstring, ghost d: int, ghost k: nat) returns (r: int)
      requires Linked() && d in fs.objs && k < |fs.objs[d].chain| && fs.objs[d].chain[k] == dirBlock
      ensures r == FindIdx(From(DirSlots(fs, d), k), name)
      decreases if d in fs.objs then |fs.objs[d].chain| - k else 0
    {
      var entries, found, nextblock := ScanAt(dirBlock, name, d, k);
      if found {
        return entries;
      }
      if nextblock != -1 {
        var nextResult := FindEntry(nextblock, name, d, k + 1);
        if nextResult >= 0 {
          return SLOTS + nextResult;
        }
      } else {
        NothingBehind(DirSlots(fs, d), k + 1, name) by { DirSlotsCount(d); }
      }
      return -1;
    }

    lemma DirSlotsCount(d: int)
      requires Linked() && d in fs.objs
      ensures |DirSlots(fs, d)| == SLOTS * |fs.objs[d].chain|
    {
    }

    /** The callers' walk: block_idx links forward from the directory's first block. */
    method WalkTo(dirBlock: int, entryIdx: int, ghost d: int) returns (currentBlock: int, dir: Block)
      requires Linked() && d in fs.objs && fs.objs[d].chain != [] && fs.objs[d].chain[0] == dirBlock
      requires 0 <= entryIdx < |DirSlots(fs, d)|
      ensures entryIdx / SLOTS < |fs.objs[d].chain| && currentBlock == fs.objs[d].chain[entryIdx / SLOTS]
      ensures 0 <= currentBlock < |disk| && dir == disk[currentBlock]
      ensures EntryAt(dir.buffer, entryIdx % SLOTS) == DirSlots(fs, d)[entryIdx]
    {
      DirSlotsCount(d);
      ghost var k := 0;
      ChainOnDisk(fs, sb, disk, d, k);
      currentBlock := dirBlock;
      dir := ReadBlock(currentBlock);
      var blockIdx := entryIdx / SLOTS;
      while blockIdx > 0 && dir.nextblock != -1
        invariant 0 <= blockIdx && k + blockIdx == entryIdx / SLOTS
        invariant currentBlock == fs.objs[d].chain[k] && 0 <= currentBlock < |disk| && dir == disk[currentBlock]
      {
        ChainOnDisk(fs, sb, disk, d, k);
        ChainOnDisk(fs, sb, disk, d, k + 1);
        currentBlock := dir.nextblock;
        dir := ReadBlock(currentBlock);
        blockIdx := blockIdx - 1;
        k := k + 1;
      }
      ChainOnDisk(fs, sb, disk, d, k);
    }

    /** One step of the path walk: find the entry, read it where it lies, follow it if it is a folder. */
    method StepDown(dir: int, name: cstring) returns (next: Option<int>)
      requires Valid() && Folder(fs, dir)
      ensures next == Descend(fs, dir, name)
    {
      assert fs.objs[dir].chain[0] == dir by { assert ChainAccounted(fs, dir); }
      var entryIdx := FindEntry(dir, name, dir, 0);
      assert From(DirSlots(fs, dir), 0) == DirSlots(fs, dir);
      if entryIdx < 0 {
        return None;
      }
      assert Match(DirSlots(fs, dir), entryIdx, name);
      var _, dirBlock := WalkTo(dir, entryIdx, dir);
      var dirEntry := EntryAt(dirBlock.buffer, entryIdx % SLOTS);
      if dirEntry.kind != MYFOLDER {
        return None;
      }
      next := Some(dirEntry.firstblock);
    }

    /** The lookup that the walk owes for the token before this one; None if it fails. */
    method EnterPrevious(dir: int, prev: Option<cstring>, ghost cs: seq<cstring>, ghost more: seq<cstring>)
      returns (next: Option<int>)
      requires Valid() && Folder(fs, dir) && Walking(fs, cs, dir, prev, more) && more != []
      ensures match next
              case None => cs != [] && Resolve(fs, ROOT, cs[..|cs| - 1]) == None
              case Some(e) => Folder(fs, e) && Walking(fs, cs, e, Some(more[0]), more[1..])
    {
      WalkingStep(fs, cs, dir, prev, more);
      next := Some(dir);
      if prev.Some? {
        next := StepDown(dir, prev.value);
      }
    }

    /** The loop of find_parent_dir, which runs one token behind strtok to leave the last component for the caller. */
    method WalkTokens(pathCopy: cstring) returns (parent: int, lastToken: Option<cstring>)
      requires Valid()
      ensures var cs := Components(pathCopy);
              if cs == [] then parent == ROOT && lastToken == None
              else if parent < 0 then parent == -1 && Resolve(fs, ROOT, cs[..|cs| - 1]) == None
              else Resolve(fs, ROOT, cs[..|cs| - 1]) == Some(parent) && lastToken == Some(cs[|cs| - 1])
    {
      var currentDir := sb.rootblock;
      ghost var cs := Components(pathCopy);
      assert pathCopy[0..] == pathCopy;
      var token, pos := Strtok(pathCopy, 0);
      var prevToken: Option<cstring> := None;
      lastToken := None;
      ghost var more := cs;
      while token.Some?
        invariant pos <= |pathCopy|
        invariant Folder(fs, currentDir) && lastToken == prevToken
        invariant more == if token.Some? then [token.value] + Components(pathCopy[pos..]) else []
        invariant Walking(fs, cs, currentDir, prevToken, more)
        decreases if token.Some? then |pathCopy| - pos + 1 else 0
      {
        lastToken := token;
        var next := EnterPrevious(currentDir, prevToken, cs, more);
        if next.None? {
          return -1, lastToken;
        }
        currentDir := next.value;
        prevToken := token;
        more := Components(pathCopy[pos..]);
        token, pos := Strtok(pathCopy, pos);
      }
      FolderInRange(fs, currentDir);
      parent := currentDir;
    }

    /** The folder that holds, or would hold, the last component of path; -1 if the walk there fails. */
    method FindParentDir(path: cstring) returns (parent: int, base: cstring)
      requires Valid()
      ensures parent >= 0 ==> ParentOf(fs, path) == Some(parent) && base == BaseName(path)
      ensures parent < 0 ==> parent == -1 && ParentOf(fs, path) == None
    {
      if path == [SLASH] {
        SlashIsRoot();
        return sb.rootblock, [];
      }
      ParentIs(fs, path);
      var lastToken;
      parent, lastToken := WalkTokens(PathCopy(path));
      base := if lastToken.Some? then lastToken.value[..Min(|lastToken.value|, FILENAME_LEN)] else [];
    }

    /** Allocates and names the block as a new object of the store. */
    method AllocateFor(kind: byte, ghost d: int) returns (r: int)
      requires Linked() && d in fs.objs
      modifies this
      ensures Linked()
      ensures old(fs).free == [] ==> r == -1 && fs == old(fs)
      ensures old(fs).free != [] ==> r == old(fs).free[0] && 1 <= r < fs.nblocks && fs == CreateFor(old(fs), d, kind)
    {
      ghost var slot, depth := FirstHole(DirSlots(fs, d)), fs.objs[d].depth + 1;
      if fs.free != [] {
        CreateRepresents(fs, sb, disk, kind, d, slot, depth);
      }
      r := AllocateZeroBlock();
      if r != -1 {
        fs := CreateFor(fs, d, kind);
      }
    }

    /** Fills the first empty slot from block k of d on, growing the directory by one block if there is none. */
    method AddDirEntry(dirBlock: int, entry: Fd, ghost d: int, ghost k: nat) returns (r: int)
      requires Linked() && entry.Valid()
      requires d in fs.objs && k < |fs.objs[d].chain| && fs.objs[d].chain[k] == dirBlock
      requires SLOTS * k <= FirstHole(DirSlots(fs, d))
      modifies this
      ensures Linked()
      ensures fs == AddEntry(old(fs), d, entry).0
      ensures r == if AddEntry(old(fs), d, entry).1 then 0 else -1
      decreases if d in fs.objs then FirstHole(DirSlots(fs, d)) - SLOTS * k else 0
    {
      ChainOnDisk(fs, sb, disk, d, k);
      DirSlotsCount(d);
      var dir := ReadBlock(dirBlock);
      var entries := CountUsed(dir.buffer);
      HoleInBlock(fs.objs[d].bufs, k, entries);
      if entries >= SLOTS {
        if dir.nextblock == -1 {
          AddAfterGrowIfFree(fs, d, entry);
          var b := GrowDir(dirBlock, dir, d);
          if b == -1 {
            return -1;
          }
          dir := dir.(nextblock := b);
        } else {
          ChainOnDisk(fs, sb, disk, d, k + 1);
        }
        r := AddDirEntry(dir.nextblock, entry, d, k + 1);
        return r;
      }
      PutInBlock(dirBlock, dir, entries, entry, d, k);
      r := 0;
    }

    /** Copies an entry into one slot of the directory block just read and writes the block back. */
    method PutInBlock(dirBlock: int, dir: Block, offset: int, entry: Fd, ghost d: int, ghost k: nat)
      requires Linked() && entry.Valid() && 0 <= offset < SLOTS
      requires d in fs.objs && k < |fs.objs[d].chain| && fs.objs[d].chain[k] == dirBlock
      requires 0 <= dirBlock < |disk| && dir == disk[dirBlock]
      modifies this
      ensures Linked()
      ensures SLOTS * k + offset < SLOTS * |old(fs).objs[d].bufs|
      ensures fs == PutSlot(old(fs), d, SLOTS * k + offset, entry)
    {
      ChainOnDisk(fs, sb, disk, d, k);
      SetBufRepresents(fs, sb, disk, d, k, PutEntry(dir.buffer, offset, entry));
      WriteBlock(dirBlock, dir.(buffer := PutEntry(dir.buffer, offset, entry)));
      assert (SLOTS * k + offset) / SLOTS == k && (SLOTS * k + offset) % SLOTS == offset;
      fs := PutSlot(fs, d, SLOTS * k + offset, entry);
    }

    /** The loop of add_dir_entry over the slots of one block. */
    static method CountUsed(buf: buffer) returns (entries: int)
      ensures 0 <= entries <= SLOTS
      ensures forall j :: 0 <= j < entries ==> Used(EntryAt(buf, j))
      ensures entries < SLOTS ==> !Used(EntryAt(buf, entries))
    {
      entries := 0;
      while buf[entries * METADATA_SIZE] != 0 && entries < SLOTS
        invariant 0 <= entries <= SLOTS
        invariant forall j :: 0 <= j < entries ==> Used(EntryAt(buf, j))
        decreases SLOTS - entries
      {
        assert EntryAt(buf, entries).kind != 0;
        entries := entries + 1;
      }
    }

    /** Links a new zeroed block behind the last block of d. */
    method GrowDir(lastBlock: int, dir: Block, ghost d: int) returns (b: int)
      requires Linked() && d in fs.objs && fs.objs[d].chain != []
      requires lastBlock == fs.objs[d].chain[|fs.objs[d].chain| - 1]
      requires 0 <= lastBlock < |disk| && dir == disk[lastBlock]
      modifies this
      ensures Linked()
      ensures old(fs).free == [] ==> b == -1 && fs == old(fs)
      ensures old(fs).free != [] ==> b == old(fs).free[0] && b != -1 && fs == Grow(old(fs), d)
    {
      if fs.free != [] {
        GrowLast(fs, d);
        GrowRepresents(fs, sb, disk, d);
      }
      b := AllocateZeroBlock();
      if b == -1 {
        return;
      }
      WriteBlock(lastBlock, dir.(nextblock := b));
      assert disk == DiskOfGrow(old(fs), old(disk), d);
      fs := Grow(fs, d);
    }

    method MkDir(path: cstring) returns (r: int)
      requires Valid()
      modifies this
      ensures Valid()
      ensures (fs, r) == AfterMkdir(old(fs), path)
    {
      MkdirInv(fs, path);
      var parentDir, base := FindParentDir(path);
      if parentDir < 0 {
        return -1;
      }
      ghost var d := parentDir;
      assert fs.objs[d].chain[0] == d by { assert ChainAccounted(fs, d); }
      var existing := FindEntry(parentDir, base, d, 0);
      assert From(DirSlots(fs, d), 0) == DirSlots(fs, d);
      if existing >= 0 {
        return -1;
      }
      if fs.free != [] {
        CreatedEntryOk(fs, d, MYFOLDER, base, 0);
        CreateForIs(fs, d, MYFOLDER);
      }
      var newDirBlock := AllocateFor(MYFOLDER, d);
      if newDirBlock < 0 {
        return -1;
      }
      r := AddDirEntry(parentDir, NewEntry(MYFOLDER, base, newDirBlock, 0), d, 0);
    }

    /** One block of write_file_data: the piece over the buffer just read, and the link to a successor if more is left. */
    method WritePiece(currentBlock: int, piece: seq<byte>, more: bool, ghost h: int, ghost i: nat) returns (next: int, ok: bool)
      requires Linked() && h in fs.objs && i < |fs.objs[h].chain| == |fs.objs[h].bufs|
      requires fs.objs[h].chain[i] == currentBlock && |piece| <= BUFFER_SIZE
      modifies this
      ensures Linked()
      ensures ok <==> !(more && i + 1 == |old(fs).objs[h].chain| && old(fs).free == [])
      ensures !ok ==> fs == old(fs)
      ensures ok ==> fs == SetBuf(if more && i + 1 == |old(fs).objs[h].chain| then Grow(old(fs), h) else old(fs), h, i,
                                  Overlay(old(fs).objs[h].bufs[i], piece))
      ensures ok && more ==> i + 1 < |fs.objs[h].chain| && next == fs.objs[h].chain[i + 1]
    {
      ChainOnDisk(fs, sb, disk, h, i);
      var b := ReadBlock(currentBlock);
      ghost var was := b.buffer;
      b := b.(buffer := piece + b.buffer[|piece|..]);
      assert b.buffer == Overlay(was, piece);
      ok := true;
      if more && b.nextblock == -1 {
        next := GrowDir(currentBlock, disk[currentBlock], h);
        if next == -1 {
          return next, false;
        }
        b := b.(nextblock := next);
        ChainOnDisk(fs, sb, disk, h, i);
      }
      SetBufRepresents(fs, sb, disk, h, i, b.buffer);
      if i + 1 < |fs.objs[h].chain| {
        ChainOnDisk(fs, sb, disk, h, i + 1);
      }
      assert b == disk[currentBlock].(buffer := b.buffer);
      WriteBlock(currentBlock, b);
      fs := SetBuf(fs, h, i, b.buffer);
      next := b.nextblock;
    }

    method WriteFileData(start: int, data: seq<byte>)
      requires Linked() && start in fs.objs && |fs.objs[start].chain| == |fs.objs[start].bufs| > 0
      modifies this
      ensures Linked() && fs == WriteData(old(fs), start, 0, data)
    {
      var currentBlock := start;
      var remaining, offset := |data|, 0;
      ghost var i := 0;
      assert fs.objs[start].chain[0] == start by { assert ChainAccounted(fs, start); }
      assert data[0..] == data;
      while remaining > 0
        invariant 0 <= offset <= |data| && offset + remaining == |data|
        invariant Linked() && start in fs.objs && |fs.objs[start].chain| == |fs.objs[start].bufs|
        invariant i < |fs.objs[start].chain|
        invariant remaining > 0 ==> fs.objs[start].chain[i] == currentBlock
        invariant WriteData(fs, start, i, data[offset..]) == WriteData(old(fs), start, 0, data)
      {
        var writeSize := if remaining > BUFFER_SIZE then BUFFER_SIZE else remaining;
        ghost var s, rest := fs, data[offset..];
        OverlayPiece(s.objs[start].bufs[i], rest);
        assert data[offset..offset + writeSize] == rest[..writeSize];
        var next, ok := WritePiece(currentBlock, data[offset..offset + writeSize], remaining > BUFFER_SIZE, start, i);
        if !ok {
          return;
        }
        remaining := remaining - writeSize;
        offset := offset + writeSize;
        if remaining > 0 {
          assert rest[BUFFER_SIZE..] == data[offset..];
          currentBlock := next;
          i := i + 1;
        } else {
          assert data[offset..] == [];
        }
      }
    }

    method ReadFileData(start: int, size: nat) returns (data: seq<byte>)
      requires Linked() && start in fs.objs
      ensures data == ReadData(fs.objs[start].bufs, size)
    {
      ghost var o := fs.objs[start];
      assert o.chain[0] == start && |o.chain| == |o.bufs| by { assert ChainAccounted(fs, start); }
      var currentBlock := start;
      var remaining := size;
      data := [];
      ghost var i := 0;
      while remaining > 0 && currentBlock != -1
        invariant 0 <= i <= |o.chain| && remaining >= 0 && |data| + remaining == size
        invariant currentBlock == if i < |o.chain| then o.chain[i] else -1
        invariant |data| <= |Concat(o.bufs)| && data == Concat(o.bufs)[..|data|]
        invariant remaining > 0 ==> |data| == BUFFER_SIZE * i
        decreases |o.chain| - i
      {
        ChainOnDisk(fs, sb, disk, start, i);
        var b := ReadBlock(currentBlock);
        var readSize := if remaining > BUFFER_SIZE then BUFFER_SIZE else remaining;
        ConcatTake(o.bufs, i);
        assert Concat(o.bufs)[..BUFFER_SIZE * (i + 1)][..BUFFER_SIZE * i + readSize] == Concat(o.bufs)[..BUFFER_SIZE * i + readSize];
        assert (data + b.buffer)[..BUFFER_SIZE * i + readSize] == data + b.buffer[..readSize];
        data := data + b.buffer[..readSize];
        remaining := remaining - readSize;
        currentBlock := b.nextblock;
        if i + 1 < |o.chain| {
          ChainOnDisk(fs, sb, disk, start, i + 1);
        }
        i := i + 1;
      }
      if i < |o.chain| {
        ChainOnDisk(fs, sb, disk, start, i);
      }
    }

    method CountBlocks(start: int) returns (count: int)
      requires Linked() && (start < 0 || start in fs.objs)
      ensures count == if start < 0 then 0 else |fs.objs[start].chain|
    {
      if start < 0 {
        return 0;
      }
      ghost var chain := fs.objs[start].chain;
      assert chain[0] == start by { assert ChainAccounted(fs, start); }
      count := 0;
      var currentBlock := start;
      while currentBlock != -1
        invariant 0 <= count <= |chain|
        invariant currentBlock == if count < |chain| then chain[count] else -1
        decreases |chain| - count
      {
        ChainOnDisk(fs, sb, disk, start, count);
        count := count + 1;
        var b := ReadBlock(currentBlock);
        currentBlock := b.nextblock;
        if count < |chain| {
          ChainOnDisk(fs, sb, disk, start, count);
        }
      }
    }

    /** Frees the chain first, then clears the slot in the directory block read before. */
    method Rm(path: cstring)
      requires Valid()
      modifies this
      ensures Valid()
      ensures fs == AfterRm(old(fs), path)
    {
      RmInv(fs, path);
      var parentDir, base := FindParentDir(path);
      if parentDir < 0 {
        return;
      }
      ghost var d := parentDir;
      assert fs.objs[d].chain[0] == d by { assert ChainAccounted(fs, d); }
      var entryIdx := FindEntry(parentDir, base, d, 0);
      assert From(DirSlots(fs, d), 0) == DirSlots(fs, d);
      if entryIdx < 0 {
        return;
      }
      RemoveSlot(parentDir, entryIdx, d);
    }

    method RemoveSlot(parentDir: int, entryIdx: int, ghost d: int)
      requires Linked() && Inv(fs) && Folder(fs, d) && fs.objs[d].chain != [] && fs.objs[d].chain[0] == parentDir
      requires 0 <= entryIdx < |DirSlots(fs, d)| && Used(DirSlots(fs, d)[entryIdx])
      modifies this
      ensures Linked() && fs == RemoveAt(old(fs), d, entryIdx)
    {
      TargetIs(fs, d, entryIdx);
      ghost var k := entryIdx / SLOTS;
      var currentBlock, dirBlock := WalkTo(parentDir, entryIdx, d);
      var entryOffset := entryIdx % SLOTS;
      var entry := EntryAt(dirBlock.buffer, entryOffset);
      ghost var s, superblock, image := fs, sb, disk;
      FreeBlockChain(entry.firstblock);
      SameBlock(s, superblock, image, fs, sb, disk, d, k);
      EncodeEmpty();
      PutInBlock(currentBlock, dirBlock, entryOffset, EMPTY_FD, d, k);
    }

    method CopyTo(path: cstring, data: seq<byte>)
      requires Valid() && |data| <= MAX_SIZE
      modifies this
      ensures Valid()
      ensures fs == AfterCopyTo(old(fs), path, data)
    {
      CopyToInv(fs, path, data);
      var parentDir, base := FindParentDir(path);
      if parentDir < 0 {
        return;
      }
      ghost var d := parentDir;
      assert fs.objs[d].chain[0] == d by { assert ChainAccounted(fs, d); }
      var existing := FindEntry(parentDir, base, d, 0);
      assert From(DirSlots(fs, d), 0) == DirSlots(fs, d);
      if existing >= 0 {
        Rm(path);
      }
      assert fs == Vacated(old(fs), d, path);
      assert fs.objs[d].chain[0] == d by { assert ChainAccounted(fs, d); }
      PutFileAt(parentDir, base, data);
    }

    /** free_block of an object of one block. */
    method FreeSingle(b: int)
      requires Linked() && b in fs.objs && |fs.objs[b].chain| == 1
      modifies this
      ensures Linked() && fs == Release(old(fs), b)
    {
      ReleaseStep(fs, b);
      DropHeadRepresents(fs, sb, disk, b);
      FreeBlock(b);
      fs := DropHead(fs, b);
    }

    method PutFileAt(parentDir: int, base: cstring, data: seq<byte>)
      requires Valid() && Folder(fs, parentDir) && |base| <= FILENAME_LEN && |data| <= MAX_SIZE
      modifies this
      ensures Linked() && fs == PutFile(old(fs), parentDir, base, data)
    {
      ghost var d := parentDir;
      assert fs.objs[d].chain[0] == d by { assert ChainAccounted(fs, d); }
      if fs.free != [] {
        EnteredIs(fs, d, base, |data|);
        CreateForIs(fs, d, MYFILE);
      }
      var firstBlock := AllocateFor(MYFILE, d);
      if firstBlock < 0 {
        return;
      }
      var added := AddDirEntry(parentDir, NewEntry(MYFILE, base, firstBlock, |data|), d, 0);
      if added < 0 {
        FreeSingle(firstBlock);
        return;
      }
      WriteFileData(firstBlock, data);
    }

    method CopyFrom(path: cstring) returns (data: Option<seq<byte>>)
      requires Valid()
      ensures data == FileAt(fs, path)
    {
      var parentDir, base := FindParentDir(path);
      if parentDir < 0 {
        return None;
      }
      ghost var d := parentDir;
      assert fs.objs[d].chain[0] == d by { assert ChainAccounted(fs, d); }
      var entryIdx := FindEntry(parentDir, base, d, 0);
      assert From(DirSlots(fs, d), 0) == DirSlots(fs, d);
      if entryIdx < 0 {
        return None;
      }
      var _, dirBlock := WalkTo(parentDir, entryIdx, d);
      var fileEntry := EntryAt(dirBlock.buffer, entryIdx % SLOTS);
      if fileEntry.kind != MYFILE {
        return None;
      }
      var bytes := ReadFileData(fileEntry.firstblock, fileEntry.fsize);
      data := Some(bytes);
    }

    /** A new file system, then any commands: the disk holds the run's store, to the last link. */
    method Session(nblocks: int, ops: seq<Op>)
      requires 1 <= nblocks <= MAX_BLOCKS && ValidOps(ops)
      modifies this
      ensures Valid() && Ready(InitStore(nblocks)) && fs == Run(InitStore(nblocks), ops)
    {
      InitFs(nblocks);
      var k := 0;
      assert ops[0..] == ops;
      while k < |ops|
        invariant 0 <= k <= |ops| && Valid()
        invariant Ready(InitStore(nblocks)) && ValidOps(ops[k..])
        invariant Run(fs, ops[k..]) == Run(InitStore(nblocks), ops)
      {
        assert ops[k..][1..] == ops[k + 1..] && ops[k..][0] == ops[k];
        ApplyInv(fs, ops[k]);
        Execute(ops[k]);
        k := k + 1;
      }
    }

    method Execute(op: Op)
      requires Valid() && op.Valid()
      modifies this
      ensures Valid() && fs == Apply(old(fs), op)
    {
      match op
      case OpMkdir(path) => var _ := MkDir(path);
      case OpCopyTo(path, data) => CopyTo(path, data);
      case OpRm(path) => Rm(path);
    }
  }
}
