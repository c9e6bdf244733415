/**
 The directory tree of os_day9/myfs_adv.c over a Store, the operations as
 functions on stores, and the proof that each keeps the tree well formed.
 */
module MyFsTree {
  import opened Bytes
  import opened MyFsBlocks
  import opened MyFsStore
  import opened MyFsDirectory
  import opened MyFsPaths

  ghost predicate Folder(s: Store, d: int) {
    d in s.objs && s.objs[d].kind == MYFOLDER
  }

  function DirSlots(s: Store, d: int): (slots: seq<Fd>)
    requires d in s.objs
    ensures |slots| == SLOTS * |s.objs[d].bufs|
    ensures forall i :: 0 <= i < |slots| ==> slots[i].Valid()
  {
    Slots(s.objs[d].bufs)
  }

  lemma WholeBlocks(slots: seq<Fd>, n: nat)
    requires |slots| == SLOTS * n
    ensures |slots| % SLOTS == 0
  {
  }

  /** The entry in slot i of d names an object of its own kind that was created for this slot and no other. */
  ghost predicate EntryOk(s: Store, d: int, i: int, e: Fd)
    requires d in s.objs
  {
    && |e.name| == FILENAME_LEN
    && e.firstblock in s.objs && e.firstblock != ROOT
    && var o := s.objs[e.firstblock];
       o.kind == e.kind && o.parent == d && o.slot == i && o.depth == s.objs[d].depth + 1
  }

  ghost predicate SlotsOk(s: Store, d: int)
    requires d in s.objs
  {
    var slots := DirSlots(s, d);
    forall i :: 0 <= i < |slots| && Used(slots[i]) ==> EntryOk(s, d, i, slots[i])
  }

  ghost predicate Tree(s: Store) {
    && Folder(s, ROOT) && s.objs[ROOT].depth == 0
    && (forall h :: h in s.objs ==> s.objs[h].kind == MYFILE || s.objs[h].kind == MYFOLDER)
    && (forall d :: Folder(s, d) ==> SlotsOk(s, d))
  }

  ghost predicate Inv(s: Store) {
    Accounted(s) && Tree(s)
  }

  // ----- lookup

  /** The folder that name leads to from d: none if name is not visible there or not a folder. */
  ghost function Descend(s: Store, d: int, name: cstring): (r: Option<int>)
    requires Tree(s) && Folder(s, d)
    ensures r.Some? ==> Folder(s, r.value)
  {
    var slots := DirSlots(s, d);
    var i := FindIdx(slots, name);
    if i < 0 then None
    else
      assert Match(slots, i, name) && SlotsOk(s, d) && Used(slots[i]);
      if slots[i].kind != MYFOLDER then None else Some(slots[i].firstblock)
  }

  /** Walk down from folder d; fails at the first component that is not visible or not a folder. */
  ghost function Resolve(s: Store, d: int, cs: seq<cstring>): (r: Option<int>)
    requires Tree(s) && Folder(s, d)
    ensures r.Some? ==> Folder(s, r.value)
    decreases |cs|
  {
    if cs == [] then Some(d)
    else
      match Descend(s, d, cs[0])
      case None => None
      case Some(e) => Resolve(s, e, cs[1..])
  }

  ghost function ParentOf(s: Store, path: cstring): (r: Option<int>)
    requires Tree(s)
    ensures r.Some? ==> Folder(s, r.value)
  {
    Resolve(s, ROOT, ParentComponents(path))
  }

  /** The slot find_entry returns for the last component of path in folder d. */
  ghost function Lookup(s: Store, d: int, path: cstring): (i: int)
    requires Tree(s) && Folder(s, d)
    ensures -1 <= i < |DirSlots(s, d)|
    ensures i >= 0 ==> EntryOk(s, d, i, DirSlots(s, d)[i]) && Used(DirSlots(s, d)[i])
  {
    var i := FindIdx(DirSlots(s, d), BaseName(path));
    assert i >= 0 ==> Match(DirSlots(s, d), i, BaseName(path)) && SlotsOk(s, d) && Used(DirSlots(s, d)[i]);
    i
  }

  // ----- operations

  /** The store init_fs builds: an empty root in block 1, blocks 2..n free in ascending order. */
  function InitStore(n: int): Store
    requires 1 <= n
  {
    Store(n + 1, seq(n - 1, i => i + 2),
          map[ROOT := Obj(MYFOLDER, [ROOT], [Zeros(BUFFER_SIZE)], 0, 0, 0)],
          map b | 1 <= b <= n :: InitSpot(n, b))
  }

  function InitSpot(n: int, b: int): Spot {
    if b == ROOT then Spot(ROOT, 0) else Spot(FREE, n - b)
  }

  function PutSlot(s: Store, d: int, i: int, e: Fd): Store
    requires d in s.objs && 0 <= i < SLOTS * |s.objs[d].bufs| && e.Valid()
  {
    SetBuf(s, d, i / SLOTS, PutEntry(s.objs[d].bufs[i / SLOTS], i % SLOTS, e))
  }

  /** add_dir_entry: fill the first hole, or grow the directory by one block when there is none. */
  ghost function AddEntry(s: Store, d: int, e: Fd): (r: (Store, bool))
    requires d in s.objs && e.Valid()
  {
    var i := FirstHole(DirSlots(s, d));
    if i < |DirSlots(s, d)| then (PutSlot(s, d, i, e), true)
    else if s.free == [] then (s, false)
    else (PutSlot(Grow(s, d), d, i, e), true)
  }

  function NewEntry(kind: byte, name: cstring, b: int, size: int): (e: Fd)
    requires |name| <= FILENAME_LEN && 0 <= b < WORD && 0 <= size < WORD
    ensures e.Valid()
  {
    Fd(kind, Pad(name, FILENAME_LEN), b, size)
  }

  /** allocate_zero_block for an entry about to be added to d. */
  ghost function CreateFor(s: Store, d: int, kind: byte): Store
    requires s.free != [] && d in s.objs
  {
    Create(s, kind, d, FirstHole(DirSlots(s, d)), s.objs[d].depth + 1)
  }

  /** A new object of one block with its entry in d; the flag says whether d could take the entry. */
  ghost function Enter(s: Store, d: int, kind: byte, name: cstring, size: int): (Store, bool)
    requires s.free != [] && d in s.objs && |name| <= FILENAME_LEN && 0 <= size < WORD && 0 <= s.free[0] < WORD
  {
    AddEntry(CreateFor(s, d, kind), d, NewEntry(kind, name, s.free[0], size))
  }

  /** A name is read back as it was given exactly if it leaves room for its NUL, or the low byte of the block number
      that follows it happens to be one. */
  predicate ReadBack(name: cstring, b: int) {
    |name| < FILENAME_LEN || b % 256 == 0
  }

  /** What strcmp reads behind a name of FILENAME_LEN characters: the bytes of block number and size up to a NUL. */
  function Behind(b: int, size: int): (tail: cstring)
    ensures tail == [] <==> b % 256 == 0
  {
    var word := EncodeWord(b);
    assert (word + EncodeWord(size))[0] == b % 256;
    CStr(word + EncodeWord(size))
  }

  lemma SeenIs(kind: byte, name: cstring, b: int, size: int)
    requires |name| <= FILENAME_LEN && 0 <= b < WORD && 0 <= size < WORD
    ensures Seen(NewEntry(kind, name, b, size)) == if |name| < FILENAME_LEN then name else name + Behind(b, size)
  {
    var tail := EncodeWord(b) + EncodeWord(size);
    assert Pad(name, FILENAME_LEN) + EncodeWord(b) + EncodeWord(size) == Pad(name, FILENAME_LEN) + tail;
    CStrOfPad(name, FILENAME_LEN);
    CStrJoin(Pad(name, FILENAME_LEN), tail);
    assert |name| == FILENAME_LEN ==> Pad(name, FILENAME_LEN) == name;
  }

  lemma SeenNew(kind: byte, name: cstring, b: int, size: int)
    requires |name| <= FILENAME_LEN && 0 <= b < WORD && 0 <= size < WORD
    ensures Seen(NewEntry(kind, name, b, size)) == name <==> ReadBack(name, b)
  {
    SeenIs(kind, name, b, size);
  }

  /** find_parent_dir compares a folder's name with a whole component, not with the cut one: they agree exactly if the
      component is short, or goes on behind its twelfth character as the block number does. */
  lemma SeenWhole(kind: byte, c: cstring, b: int, size: int)
    requires 0 <= b < WORD && 0 <= size < WORD
    ensures Seen(NewEntry(kind, CutName(c), b, size)) == c <==> |c| < FILENAME_LEN || c[FILENAME_LEN..] == Behind(b, size)
  {
    SeenIs(kind, CutName(c), b, size);
    if |c| >= FILENAME_LEN {
      assert c == CutName(c) + c[FILENAME_LEN..];
      assert (CutName(c) + Behind(b, size))[FILENAME_LEN..] == Behind(b, size);
    }
  }

  /** Whatever a directory entry holds, strcmp stops inside its record: no block number needs its fourth byte. */
  lemma SeenInRecord(s: Store, d: int, i: int)
    requires Inv(s) && SmallStore(s) && Folder(s, d) && 0 <= i < |DirSlots(s, d)| && Used(DirSlots(s, d)[i])
    ensures |Seen(DirSlots(s, d)[i])| < FILENAME_LEN + 4
  {
    var e := DirSlots(s, d)[i];
    assert SlotsOk(s, d) && EntryOk(s, d, i, e);
    HeadSpot(s, e.firstblock);
    var field := e.name + EncodeWord(e.firstblock) + EncodeWord(e.fsize);
    assert field[FILENAME_LEN + 3] == EncodeWord(e.firstblock)[3] == 0;
    CStrStops(field, FILENAME_LEN + 3);
  }

  ghost predicate SmallStore(s: Store) {
    s.nblocks <= MAX_BLOCKS + 1
  }

  lemma FreeHeadInRange(s: Store)
    requires Accounted(s) && s.free != []
    ensures 1 <= s.free[0] < s.nblocks
  {
  }

  ghost function AfterMkdir(s: Store, path: cstring): (r: (Store, int))
    requires Inv(s) && SmallStore(s)
  {
    match ParentOf(s, path)
    case None => (s, -1)
    case Some(d) =>
      if Lookup(s, d, path) >= 0 || s.free == [] then (s, -1)
      else
        FreeHeadInRange(s);
        var r := Enter(s, d, MYFOLDER, BaseName(path), 0);
        (r.0, if r.1 then 0 else -1)
  }

  /** myrm below the lookup: free the target's chain, then clear the slot. */
  ghost function RemoveAt(s: Store, d: int, i: int): Store
    requires Tree(s) && Folder(s, d) && 0 <= i < |DirSlots(s, d)| && Used(DirSlots(s, d)[i])
  {
    var t := DirSlots(s, d)[i].firstblock;
    assert SlotsOk(s, d) && EntryOk(s, d, i, DirSlots(s, d)[i]);
    EncodeEmpty();
    PutSlot(Release(s, t), d, i, EMPTY_FD)
  }

  ghost function AfterRm(s: Store, path: cstring): Store
    requires Inv(s)
  {
    match ParentOf(s, path)
    case None => s
    case Some(d) =>
      var i := Lookup(s, d, path);
      if i < 0 then s else RemoveAt(s, d, i)
  }

  /** The buffer after memcpy of the next piece of data over its front. */
  function Overlay(buf: buffer, data: seq<byte>): buffer {
    data[..Min(|data|, BUFFER_SIZE)] + buf[Min(|data|, BUFFER_SIZE)..]
  }

  /** write_file_data from the i-th block of h on: fill a block, allocate a successor if more is left. */
  function WriteData(s: Store, h: int, i: nat, data: seq<byte>): Store
    requires h in s.objs && i < |s.objs[h].chain| == |s.objs[h].bufs|
    decreases |data|
  {
    if data == [] then s
    else
      var buf := Overlay(s.objs[h].bufs[i], data);
      if |data| <= BUFFER_SIZE then SetBuf(s, h, i, buf)
      else if i + 1 < |s.objs[h].chain| then WriteData(SetBuf(s, h, i, buf), h, i + 1, data[BUFFER_SIZE..])
      else if s.free == [] then s
      else WriteData(SetBuf(Grow(s, h), h, i, buf), h, i + 1, data[BUFFER_SIZE..])
  }

  lemma PutSlotIs(s: Store, d: int, i: int, e: Fd)
    requires d in s.objs && 0 <= i < SLOTS * |s.objs[d].bufs| && e.Valid()
    ensures var t := PutSlot(s, d, i, e);
            && t.free == s.free && t.nblocks == s.nblocks && t.spot == s.spot && t.objs.Keys == s.objs.Keys
            && (forall h :: h in s.objs && h != d ==> t.objs[h] == s.objs[h])
            && t.objs[d] == s.objs[d].(bufs := t.objs[d].bufs)
            && |t.objs[d].bufs| == |s.objs[d].bufs|
            && DirSlots(t, d) == DirSlots(s, d)[i := e]
  {
    SlotsOfPut(s.objs[d].bufs, i, e);
  }

  lemma GrowIs(s: Store, d: int)
    requires d in s.objs && s.free != []
    ensures var t := Grow(s, d);
            DirSlots(t, d) == DirSlots(s, d) + seq(SLOTS, _ => EMPTY_FD)
  {
    SlotsOfGrow(s.objs[d].bufs);
  }

  // ----- the tree is kept

  lemma InitInv(n: int)
    requires 1 <= n
    ensures Inv(InitStore(n))
  {
  }

  lemma CreateTree(s: Store, kind: byte, parent: int, slot: int, depth: nat)
    requires Inv(s) && s.free != [] && (kind == MYFILE || kind == MYFOLDER)
    ensures Inv(Create(s, kind, parent, slot, depth))
  {
    CreateAccounted(s, kind, parent, slot, depth);
    var b, t := s.free[0], Create(s, kind, parent, slot, depth);
    forall d | Folder(t, d)
      ensures SlotsOk(t, d)
    {
      var slots := DirSlots(t, d);
      forall i | 0 <= i < |slots| && Used(slots[i])
        ensures EntryOk(t, d, i, slots[i])
      {
        if d == b {
          EntryAtZeros(i % SLOTS);
        } else {
          assert Folder(s, d) && SlotsOk(s, d) && slots == DirSlots(s, d);
          assert EntryOk(s, d, i, slots[i]);
        }
      }
    }
  }

  lemma GrowTree(s: Store, h: int)
    requires Inv(s) && s.free != [] && h in s.objs
    ensures Inv(Grow(s, h))
  {
    GrowAccounted(s, h);
    var t := Grow(s, h);
    forall d | Folder(t, d)
      ensures SlotsOk(t, d)
    {
      GrowIs(s, h);
      assert SlotsOk(s, d);
      var slots := DirSlots(t, d);
      forall i | 0 <= i < |slots| && Used(slots[i])
        ensures EntryOk(t, d, i, slots[i])
      {
        assert EntryOk(s, d, i, DirSlots(s, d)[i]);
      }
    }
  }

  lemma SetFileBufTree(s: Store, h: int, i: int, buf: buffer)
    requires Inv(s) && h in s.objs && s.objs[h].kind == MYFILE && 0 <= i < |s.objs[h].bufs|
    ensures Inv(SetBuf(s, h, i, buf))
  {
    SetBufAccounted(s, h, i, buf);
    var t := SetBuf(s, h, i, buf);
    forall d | Folder(t, d)
      ensures SlotsOk(t, d)
    {
      assert SlotsOk(s, d) && DirSlots(t, d) == DirSlots(s, d);
      forall j | 0 <= j < |DirSlots(t, d)| && Used(DirSlots(t, d)[j])
        ensures EntryOk(t, d, j, DirSlots(t, d)[j])
      {
        assert EntryOk(s, d, j, DirSlots(s, d)[j]);
      }
    }
  }

  lemma PutSlotsOk(s: Store, t: Store, d: int, i: int, e: Fd, c: int)
    requires Folder(s, d) && 0 <= i < |DirSlots(s, d)| && (Used(e) ==> EntryOk(s, d, i, e))
    requires Folder(s, c) && SlotsOk(s, c) && Folder(t, c) && t.objs.Keys == s.objs.Keys
    requires forall h :: h in s.objs && h != d ==> t.objs[h] == s.objs[h]
    requires t.objs[d] == s.objs[d].(bufs := t.objs[d].bufs) && DirSlots(t, d) == DirSlots(s, d)[i := e]
    ensures SlotsOk(t, c)
  {
    forall j | 0 <= j < |DirSlots(t, c)| && Used(DirSlots(t, c)[j])
      ensures EntryOk(t, c, j, DirSlots(t, c)[j])
    {
      if c != d {
        assert DirSlots(t, c) == DirSlots(s, c);
      }
      if c != d || j != i {
        assert EntryOk(s, c, j, DirSlots(s, c)[j]);
      }
    }
  }

  lemma PutSlotTree(s: Store, d: int, i: int, e: Fd)
    requires Inv(s) && Folder(s, d) && 0 <= i < |DirSlots(s, d)| && e.Valid()
    requires Used(e) ==> EntryOk(s, d, i, e)
    ensures Inv(PutSlot(s, d, i, e))
  {
    var t := PutSlot(s, d, i, e);
    SetBufAccounted(s, d, i / SLOTS, PutEntry(s.objs[d].bufs[i / SLOTS], i % SLOTS, e));
    PutSlotIs(s, d, i, e);
    forall c | Folder(t, c)
      ensures SlotsOk(t, c)
    {
      PutSlotsOk(s, t, d, i, e, c);
    }
  }

  lemma AddEntryTree(s: Store, d: int, e: Fd)
    requires Inv(s) && Folder(s, d) && e.Valid()
    requires Used(e) ==> EntryOk(s, d, FirstHole(DirSlots(s, d)), e)
    ensures Inv(AddEntry(s, d, e).0)
  {
    var i := FirstHole(DirSlots(s, d));
    if i < |DirSlots(s, d)| {
      PutSlotTree(s, d, i, e);
    } else if s.free != [] {
      GrowTree(s, d);
      GrowIs(s, d);
      PutSlotTree(Grow(s, d), d, i, e);
    }
  }

  /** No other slot names x, so the slots that stay name what they named. */
  lemma RemovedSlotsOk(s: Store, t: Store, x: int, d: int, i: int, c: int)
    requires Folder(s, d) && 0 <= i < |DirSlots(s, d)| && EntryOk(s, d, i, DirSlots(s, d)[i]) && DirSlots(s, d)[i].firstblock == x
    requires Folder(s, c) && SlotsOk(s, c) && Folder(t, c) && x != d && t.objs.Keys == s.objs.Keys - {x}
    requires forall h :: h in t.objs && h != d ==> t.objs[h] == s.objs[h]
    requires t.objs[d] == s.objs[d].(bufs := t.objs[d].bufs) && DirSlots(t, d) == DirSlots(s, d)[i := EMPTY_FD]
    ensures SlotsOk(t, c)
  {
    forall j | 0 <= j < |DirSlots(t, c)| && Used(DirSlots(t, c)[j])
      ensures EntryOk(t, c, j, DirSlots(t, c)[j])
    {
      if c != d {
        assert DirSlots(t, c) == DirSlots(s, c);
      }
      assert EntryOk(s, c, j, DirSlots(s, c)[j]);
    }
  }

  /** A block chain leaves the tree together with the one slot that names it. */
  lemma RemoveAtTree(s: Store, d: int, i: int)
    requires Inv(s) && Folder(s, d) && 0 <= i < |DirSlots(s, d)| && Used(DirSlots(s, d)[i])
    ensures Inv(RemoveAt(s, d, i))
  {
    var x := DirSlots(s, d)[i].firstblock;
    assert SlotsOk(s, d) && EntryOk(s, d, i, DirSlots(s, d)[i]);
    EncodeEmpty();
    var r := Release(s, x);
    var t := PutSlot(r, d, i, EMPTY_FD);
    ReleaseAccounted(s, x);
    SetBufAccounted(r, d, i / SLOTS, PutEntry(r.objs[d].bufs[i / SLOTS], i % SLOTS, EMPTY_FD));
    PutSlotIs(r, d, i, EMPTY_FD);
    forall c | Folder(t, c)
      ensures SlotsOk(t, c)
    {
      RemovedSlotsOk(s, t, x, d, i, c);
    }
  }

  lemma CreateForIs(s: Store, d: int, kind: byte)
    requires s.free != [] && d in s.objs && s.free[0] !in s.objs
    ensures var b := s.free[0];
            var t := CreateFor(s, d, kind);
            && t.nblocks == s.nblocks && t.free == s.free[1..] && t.objs.Keys == s.objs.Keys + {b}
            && (forall h :: h in s.objs ==> t.objs[h] == s.objs[h])
            && t.objs[b] == Obj(kind, [b], [Zeros(BUFFER_SIZE)], d, FirstHole(DirSlots(s, d)), s.objs[d].depth + 1)
            && DirSlots(t, d) == DirSlots(s, d)
  {
  }

  /** The block just allocated for d can be entered into d's first hole. */
  lemma CreatedEntryOk(s: Store, d: int, kind: byte, name: cstring, size: int)
    requires Inv(s) && SmallStore(s) && s.free != [] && Folder(s, d) && (kind == MYFILE || kind == MYFOLDER)
    requires |name| <= FILENAME_LEN && 0 <= size < WORD
    ensures 1 <= s.free[0] < s.nblocks && s.free[0] !in s.objs
    ensures var t := CreateFor(s, d, kind);
            && Inv(t) && Folder(t, d) && DirSlots(t, d) == DirSlots(s, d)
            && EntryOk(t, d, FirstHole(DirSlots(t, d)), NewEntry(kind, name, s.free[0], size))
  {
    FreeHeadInRange(s);
    assert s.free[0] !in s.objs by {
      CreateAccounted(s, kind, d, FirstHole(DirSlots(s, d)), s.objs[d].depth + 1);
    }
    CreateForIs(s, d, kind);
    assert Inv(CreateFor(s, d, kind)) by {
      CreateTree(s, kind, d, FirstHole(DirSlots(s, d)), s.objs[d].depth + 1);
    }
    assert s.free[0] != ROOT by { assert Folder(s, ROOT); }
  }

  lemma {:induction false} WriteDataTree(s: Store, h: int, i: nat, data: seq<byte>)
    requires Inv(s) && h in s.objs && s.objs[h].kind == MYFILE && i < |s.objs[h].chain| == |s.objs[h].bufs|
    ensures Inv(WriteData(s, h, i, data))
    decreases |data|
  {
    if data != [] {
      var buf := Overlay(s.objs[h].bufs[i], data);
      if |data| <= BUFFER_SIZE {
        SetFileBufTree(s, h, i, buf);
      } else if i + 1 < |s.objs[h].chain| {
        SetFileBufTree(s, h, i, buf);
        WriteDataTree(SetBuf(s, h, i, buf), h, i + 1, data[BUFFER_SIZE..]);
      } else if s.free != [] {
        GrowTree(s, h);
        SetFileBufTree(Grow(s, h), h, i, buf);
        WriteDataTree(SetBuf(Grow(s, h), h, i, buf), h, i + 1, data[BUFFER_SIZE..]);
      }
    }
  }
}
