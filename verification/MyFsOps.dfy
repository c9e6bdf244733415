/** mycopyto and mycopyfrom as functions on stores, runs of operations, and the invariant of every run. */
module MyFsOps {
  import opened Bytes
  import opened MyFsBlocks
  import opened MyFsStore
  import opened MyFsDirectory
  import opened MyFsPaths
  import opened MyFsTree

  /** Largest C int. */
  const MAX_SIZE := 0x7FFF_FFFF

  /** The buffers of a chain end to end. */
  function Concat(bufs: seq<buffer>): (data: seq<byte>)
    ensures |data| == BUFFER_SIZE * |bufs|
  {
    if bufs == [] then [] else bufs[0] + Concat(bufs[1..])
  }

  /** Byte k of a chain is byte k mod 4088 of its block k div 4088. */
  lemma {:induction false} ConcatAt(bufs: seq<buffer>, k: nat)
    requires k < 4088 * |bufs|
    ensures |Concat(bufs)| == 4088 * |bufs| && Concat(bufs)[k] == bufs[k / 4088][k % 4088]
  {
    if k >= 4088 {
      ConcatAt(bufs[1..], k - 4088);
      assert (k - 4088) / 4088 == k / 4088 - 1 && (k - 4088) % 4088 == k % 4088;
    }
  }

  /** read_file_data: at most size bytes of what the chain holds. */
  function ReadData(bufs: seq<buffer>, size: nat): seq<byte> {
    Concat(bufs)[..Min(size, |Concat(bufs)|)]
  }

  /** mycopyfrom hands out exactly these bytes, at most size of them. */
  lemma ReadBytes(bufs: seq<buffer>, size: nat, k: nat)
    ensures |ReadData(bufs, size)| == if size <= 4088 * |bufs| then size else 4088 * |bufs|
    ensures k < |ReadData(bufs, size)| ==> k / 4088 < |bufs| && ReadData(bufs, size)[k] == bufs[k / 4088][k % 4088]
  {
    if k < |ReadData(bufs, size)| {
      ConcatAt(bufs, k);
    }
  }

  /** The store after the removal that precedes an overwrite. */
  ghost function Vacated(s: Store, d: int, path: cstring): (t: Store)
    requires Inv(s) && Folder(s, d)
    ensures Inv(t) && Folder(t, d) && t.nblocks == s.nblocks
  {
    var i := Lookup(s, d, path);
    if i < 0 then s
    else
      RemoveAtTree(s, d, i);
      RemoveAtKeeps(s, d, i);
      RemoveAt(s, d, i)
  }

  ghost function AfterCopyTo(s: Store, path: cstring, data: seq<byte>): Store
    requires Inv(s) && SmallStore(s) && |data| <= MAX_SIZE
  {
    match ParentOf(s, path)
    case None => s
    case Some(d) => PutFile(Vacated(s, d, path), d, BaseName(path), data)
  }

  ghost function FileAt(s: Store, path: cstring): Option<seq<byte>>
    requires Inv(s)
  {
    match ParentOf(s, path)
    case None => None
    case Some(d) =>
      var i := Lookup(s, d, path);
      if i < 0 || DirSlots(s, d)[i].kind != MYFILE then None
      else Some(ReadData(s.objs[DirSlots(s, d)[i].firstblock].bufs, DirSlots(s, d)[i].fsize))
  }

  /** Adding an entry to d leaves every other object alone, and d's name and place. */
  lemma AddEntryKeeps(s: Store, d: int, e: Fd)
    requires d in s.objs && e.Valid()
    ensures var t := AddEntry(s, d, e).0;
            && t.nblocks == s.nblocks && t.objs.Keys == s.objs.Keys
            && (forall h :: h in s.objs && h != d ==> t.objs[h] == s.objs[h])
            && t.objs[d].kind == s.objs[d].kind && t.objs[d].depth == s.objs[d].depth
            && t.objs[d].parent == s.objs[d].parent && t.objs[d].slot == s.objs[d].slot
  {
  }

  lemma RemoveAtKeeps(s: Store, d: int, i: int)
    requires Tree(s) && Folder(s, d) && 0 <= i < |DirSlots(s, d)| && Used(DirSlots(s, d)[i])
    ensures var x := DirSlots(s, d)[i].firstblock;
            var t := RemoveAt(s, d, i);
            && x in s.objs && x != d && x != ROOT
            && t.nblocks == s.nblocks && t.objs.Keys == s.objs.Keys - {x}
            && t.free == Reverse(s.objs[x].chain) + s.free
            && (forall h :: h in t.objs && h != d ==> t.objs[h] == s.objs[h])
            && t.objs[d] == s.objs[d].(bufs := t.objs[d].bufs) && |t.objs[d].bufs| == |s.objs[d].bufs|
            && DirSlots(t, d) == DirSlots(s, d)[i := EMPTY_FD]
  {
    var x := DirSlots(s, d)[i].firstblock;
    assert SlotsOk(s, d) && EntryOk(s, d, i, DirSlots(s, d)[i]);
    EncodeEmpty();
    PutSlotIs(Release(s, x), d, i, EMPTY_FD);
  }

  lemma CreateReleaseSpots(s: Store, kind: byte, parent: int, slot: int, depth: nat)
    requires Accounted(s) && s.free != [] && s.free[0] !in s.objs
    ensures Release(Create(s, kind, parent, slot, depth), s.free[0]).spot == s.spot
  {
    var t := Release(Create(s, kind, parent, slot, depth), s.free[0]);
    assert s.free[0] in s.spot;
    forall c | c in s.spot
      ensures c in t.spot && t.spot[c] == s.spot[c]
    {
      assert SpotAccounted(s, c);
    }
  }

  lemma CreateReleaseObjs(s: Store, kind: byte, parent: int, slot: int, depth: nat)
    requires s.free != [] && s.free[0] !in s.objs
    ensures var t := Release(Create(s, kind, parent, slot, depth), s.free[0]);
            t.free == s.free && t.objs == s.objs && t.nblocks == s.nblocks
  {
    assert Reverse([s.free[0]]) == [s.free[0]];
  }

  /** Freeing a block just allocated puts the store back as it was. */
  lemma CreateRelease(s: Store, kind: byte, parent: int, slot: int, depth: nat)
    requires Accounted(s) && s.free != []
    ensures Release(Create(s, kind, parent, slot, depth), s.free[0]) == s
  {
    CreateAccounted(s, kind, parent, slot, depth);
    CreateReleaseObjs(s, kind, parent, slot, depth);
    CreateReleaseSpots(s, kind, parent, slot, depth);
  }

  lemma EnteredIs(s: Store, d: int, name: cstring, size: nat)
    requires Inv(s) && SmallStore(s) && Folder(s, d) && |name| <= FILENAME_LEN && size <= MAX_SIZE && s.free != []
    ensures 1 <= s.free[0] < s.nblocks && s.free[0] !in s.objs
    ensures var b, t := s.free[0], Enter(s, d, MYFILE, name, size);
            && Folder(t.0, d) && t.0.nblocks == s.nblocks
            && b in t.0.objs && t.0.objs[b].kind == MYFILE
            && t.0.objs[b].chain == [b] && t.0.objs[b].bufs == [Zeros(BUFFER_SIZE)]
            && (!t.1 ==> Release(t.0, b) == s)
  {
    CreatedEntryOk(s, d, MYFILE, name, size);
    CreateForIs(s, d, MYFILE);
    var c := CreateFor(s, d, MYFILE);
    AddEntryKeeps(c, d, NewEntry(MYFILE, name, s.free[0], size));
    CreateRelease(s, MYFILE, d, FirstHole(DirSlots(s, d)), s.objs[d].depth + 1);
  }

  lemma EnteredInv(s: Store, d: int, name: cstring, size: nat)
    requires Inv(s) && SmallStore(s) && Folder(s, d) && |name| <= FILENAME_LEN && size <= MAX_SIZE && s.free != []
    requires 1 <= s.free[0] < s.nblocks
    ensures Inv(Enter(s, d, MYFILE, name, size).0)
  {
    CreatedEntryOk(s, d, MYFILE, name, size);
    AddEntryTree(CreateFor(s, d, MYFILE), d, NewEntry(MYFILE, name, s.free[0], size));
  }

  /** mycopyto below the overwrite: allocate, enter into d, write; free the block again if d cannot take the entry. */
  ghost function PutFile(s: Store, d: int, name: cstring, data: seq<byte>): Store
    requires Inv(s) && SmallStore(s) && Folder(s, d) && |name| <= FILENAME_LEN && |data| <= MAX_SIZE
  {
    if s.free == [] then s
    else
      EnteredIs(s, d, name, |data|);
      var t := Enter(s, d, MYFILE, name, |data|);
      if t.1 then WriteData(t.0, s.free[0], 0, data) else Release(t.0, s.free[0])
  }

  lemma PutFileInv(s: Store, d: int, name: cstring, data: seq<byte>)
    requires Inv(s) && SmallStore(s) && Folder(s, d) && |name| <= FILENAME_LEN && |data| <= MAX_SIZE
    ensures Inv(PutFile(s, d, name, data))
    ensures PutFile(s, d, name, data).nblocks == s.nblocks
  {
    if s.free != [] {
      EnteredIs(s, d, name, |data|);
      EnteredInv(s, d, name, |data|);
      var t := Enter(s, d, MYFILE, name, |data|);
      if t.1 {
        WriteDataTree(t.0, s.free[0], 0, data);
        WriteDataKeeps(t.0, s.free[0], 0, data);
      }
    }
  }

  /** Writing a file touches only that file and the free list. */
  lemma {:induction false} WriteDataKeeps(s: Store, h: int, i: nat, data: seq<byte>)
    requires h in s.objs && i < |s.objs[h].chain| == |s.objs[h].bufs|
    ensures var t := WriteData(s, h, i, data);
            && t.nblocks == s.nblocks && t.objs.Keys == s.objs.Keys
            && (forall g :: g in s.objs && g != h ==> t.objs[g] == s.objs[g])
            && t.objs[h].kind == s.objs[h].kind && t.objs[h].depth == s.objs[h].depth
            && t.objs[h].parent == s.objs[h].parent && t.objs[h].slot == s.objs[h].slot
    decreases |data|
  {
    if data != [] {
      var buf := Overlay(s.objs[h].bufs[i], data);
      if |data| <= BUFFER_SIZE {
      } else if i + 1 < |s.objs[h].chain| {
        WriteDataKeeps(SetBuf(s, h, i, buf), h, i + 1, data[BUFFER_SIZE..]);
      } else if s.free != [] {
        WriteDataKeeps(SetBuf(Grow(s, h), h, i, buf), h, i + 1, data[BUFFER_SIZE..]);
      }
    }
  }

  // ----- runs

  datatype Op = OpMkdir(path: cstring) | OpCopyTo(path: cstring, data: seq<byte>) | OpRm(path: cstring)
  {
    /** File sizes are C ints. */
    predicate Valid() {
      OpCopyTo? ==> |data| <= MAX_SIZE
    }
  }

  ghost predicate Ready(s: Store) {
    Inv(s) && SmallStore(s)
  }

  ghost function Apply(s: Store, op: Op): Store
    requires Ready(s) && op.Valid()
  {
    match op
    case OpMkdir(p) => AfterMkdir(s, p).0
    case OpCopyTo(p, data) => AfterCopyTo(s, p, data)
    case OpRm(p) => AfterRm(s, p)
  }

  lemma MkdirInv(s: Store, path: cstring)
    requires Ready(s)
    ensures Ready(AfterMkdir(s, path).0) && AfterMkdir(s, path).0.nblocks == s.nblocks
  {
    var p := ParentOf(s, path);
    if p.Some? && Lookup(s, p.value, path) < 0 && s.free != [] {
      var d := p.value;
      CreatedEntryOk(s, d, MYFOLDER, BaseName(path), 0);
      var c, e := CreateFor(s, d, MYFOLDER), NewEntry(MYFOLDER, BaseName(path), s.free[0], 0);
      AddEntryTree(c, d, e);
      AddEntryKeeps(c, d, e);
    }
  }

  lemma RmInv(s: Store, path: cstring)
    requires Ready(s)
    ensures Ready(AfterRm(s, path)) && AfterRm(s, path).nblocks == s.nblocks
  {
    var p := ParentOf(s, path);
    if p.Some? && Lookup(s, p.value, path) >= 0 {
      RemoveAtTree(s, p.value, Lookup(s, p.value, path));
      RemoveAtKeeps(s, p.value, Lookup(s, p.value, path));
    }
  }

  lemma CopyToInv(s: Store, path: cstring, data: seq<byte>)
    requires Ready(s) && |data| <= MAX_SIZE
    ensures Ready(AfterCopyTo(s, path, data)) && AfterCopyTo(s, path, data).nblocks == s.nblocks
  {
    var p := ParentOf(s, path);
    if p.Some? {
      PutFileInv(Vacated(s, p.value, path), p.value, BaseName(path), data);
    }
  }

  /** Every operation keeps the accounting of blocks and the tree. */
  lemma ApplyInv(s: Store, op: Op)
    requires Ready(s) && op.Valid()
    ensures Ready(Apply(s, op)) && Apply(s, op).nblocks == s.nblocks
  {
    match op
    case OpMkdir(p) => MkdirInv(s, p);
    case OpCopyTo(p, data) => CopyToInv(s, p, data);
    case OpRm(p) => RmInv(s, p);
  }

  ghost predicate ValidOps(ops: seq<Op>) {
    forall k :: 0 <= k < |ops| ==> ops[k].Valid()
  }

  /** A run of operations, one after the other. */
  ghost function {:induction false} Run(s: Store, ops: seq<Op>): (t: Store)
    requires Ready(s) && ValidOps(ops)
    ensures Ready(t) && t.nblocks == s.nblocks
    decreases |ops|
  {
    if ops == [] then s
    else
      ApplyInv(s, ops[0]);
      Run(Apply(s, ops[0]), ops[1..])
  }
}
