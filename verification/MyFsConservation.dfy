/**
 Over every run of mkdir_myfs, mycopyto and myrm: the chains on disk are disjoint
 and acyclic, no block is lost or owned twice, and blocks become unreachable
 exactly by the two kinds of step Leaks describes.
 */
module MyFsConservation {
  import opened Bytes
  import opened MyFsBlocks
  import opened MyFsStore
  import opened MyFsDirectory
  import opened MyFsPaths
  import opened MyFsTree
  import opened MyFsOps

  /** Following nextblock from b while it stays a block id, at most fuel blocks far. */
  function Follow(disk: seq<Block>, n: int, b: int, fuel: nat): seq<int>
    requires n <= |disk|
    decreases fuel
  {
    if fuel == 0 || b <= 0 || b >= n then [] else [b] + Follow(disk, n, disk[b].nextblock, fuel - 1)
  }

  lemma {:induction false} FollowChain(s: Store, sb: Superblock, disk: seq<Block>, h: int, i: nat, fuel: nat)
    requires Accounted(s) && Represents(s, sb, disk) && h in s.objs
    requires i <= |s.objs[h].chain| && |s.objs[h].chain| - i <= fuel
    ensures var chain := s.objs[h].chain;
            Follow(disk, s.nblocks, if i < |chain| then chain[i] else -1, fuel) == chain[i..]
    decreases |s.objs[h].chain| - i
  {
    var chain := s.objs[h].chain;
    if i < |chain| {
      ChainOnDisk(s, sb, disk, h, i);
      FollowChain(s, sb, disk, h, i + 1, fuel - 1);
      assert chain[i..] == [chain[i]] + chain[i + 1..];
    }
  }

  lemma {:induction false} FollowFree(s: Store, sb: Superblock, disk: seq<Block>, link: int, k: nat, fuel: nat)
    requires Accounted(s) && Represents(s, sb, disk)
    requires k <= |s.free| && k <= fuel && FreeLink(s, link, k)
    ensures Follow(disk, s.nblocks, link, fuel) == s.free[|s.free| - k..]
    decreases k
  {
    if k > 0 {
      var b := s.free[|s.free| - k];
      assert b in s.spot && s.spot[b] == Spot(FREE, k - 1);
      assert BlockRepresents(s, disk[b], b);
      FollowFree(s, sb, disk, disk[b].nextblock, k - 1, fuel - 1);
      assert s.free[|s.free| - k..] == [b] + s.free[|s.free| - (k - 1)..];
    }
  }

  /**
   The links on the disk: from any directory or file they spell out its chain and
   stop, from the superblock they spell out the free list and stop.
   */
  lemma LinksOnDisk(s: Store, sb: Superblock, disk: seq<Block>, fuel: nat)
    requires Accounted(s) && Represents(s, sb, disk) && s.nblocks <= fuel
    ensures Follow(disk, s.nblocks, sb.freeblock, fuel) == s.free
    ensures forall h :: h in s.objs ==>
              && Follow(disk, s.nblocks, h, fuel) == s.objs[h].chain
              && s.objs[h].chain != []
              && var last := s.objs[h].chain[|s.objs[h].chain| - 1];
                 0 <= last < |disk| && disk[last].nextblock == -1
  {
    ShortEnough(s.free, s.nblocks) by {
      assert FreeAccounted(s);
    }
    FollowFree(s, sb, disk, sb.freeblock, |s.free|, fuel);
    forall h | h in s.objs
      ensures Follow(disk, s.nblocks, h, fuel) == s.objs[h].chain
      ensures s.objs[h].chain != []
      ensures var last := s.objs[h].chain[|s.objs[h].chain| - 1];
              0 <= last < |disk| && disk[last].nextblock == -1
    {
      assert ChainAccounted(s, h);
      ShortEnough(s.objs[h].chain, s.nblocks);
      FollowChain(s, sb, disk, h, 0, fuel);
      ChainOnDisk(s, sb, disk, h, |s.objs[h].chain| - 1);
    }
  }

  function IdsBelow(n: nat): (ids: set<int>)
    ensures forall i :: i in ids <==> 1 <= i < n
    ensures |ids| == if n == 0 then 0 else n - 1
  {
    if n <= 1 then {} else IdsBelow(n - 1) + {n - 1}
  }

  /** Distinct ids below n: fewer than n of them. */
  lemma ShortEnough(ids: seq<int>, n: int)
    requires forall i :: 0 <= i < |ids| ==> 1 <= ids[i] < n
    requires forall i, j :: 0 <= i < j < |ids| ==> ids[i] != ids[j]
    ensures ids != [] ==> |ids| < n
  {
    if ids != [] {
      assert 1 <= ids[0] < n;
      DistinctSubset(ids, IdsBelow(n));
    }
  }

  lemma {:induction false} DistinctSubset(ids: seq<int>, all: set<int>)
    requires forall i :: 0 <= i < |ids| ==> ids[i] in all
    requires forall i, j :: 0 <= i < j < |ids| ==> ids[i] != ids[j]
    ensures |ids| <= |all|
  {
    if ids != [] {
      DistinctSubset(ids[1..], all - {ids[0]});
    }
  }

  /** Accounted, without the spots: no id twice, no id shared, no id out of range, no id missing. */
  lemma EveryBlockOnce(s: Store)
    requires Accounted(s)
    ensures forall i, j :: 0 <= i < j < |s.free| ==> s.free[i] != s.free[j]
    ensures forall h, i, j :: h in s.objs && 0 <= i < j < |s.objs[h].chain| ==>
              s.objs[h].chain[i] != s.objs[h].chain[j]
    ensures forall g, h, i, j ::
              (g in s.objs && h in s.objs && g != h && 0 <= i < |s.objs[g].chain| && 0 <= j < |s.objs[h].chain|) ==>
                s.objs[g].chain[i] != s.objs[h].chain[j]
    ensures forall h, i, j :: h in s.objs && 0 <= i < |s.objs[h].chain| && 0 <= j < |s.free| ==>
              s.objs[h].chain[i] != s.free[j]
    ensures forall b :: b in s.free ==> 1 <= b < s.nblocks
    ensures forall h, i :: h in s.objs && 0 <= i < |s.objs[h].chain| ==> 1 <= s.objs[h].chain[i] < s.nblocks
    ensures forall b :: 1 <= b < s.nblocks ==> b in s.free || exists h :: h in s.objs && b in s.objs[h].chain
  {
    assert forall h :: h in s.objs ==> ChainAccounted(s, h);
    forall b | 1 <= b < s.nblocks
      ensures b in s.free || exists h :: h in s.objs && b in s.objs[h].chain
    {
      assert b in s.spot && SpotAccounted(s, b);
    }
  }

  // ----- reachability

  ghost predicate Names(s: Store, d: int, h: int) {
    Folder(s, d) && exists i :: 0 <= i < |DirSlots(s, d)| && Used(DirSlots(s, d)[i]) && DirSlots(s, d)[i].firstblock == h
  }

  ghost predicate IsPath(s: Store, path: seq<int>, h: int) {
    && path != [] && path[0] == ROOT && path[|path| - 1] == h
    && forall i :: 0 <= i < |path| - 1 ==> Names(s, path[i], path[i + 1])
  }

  ghost predicate Reachable(s: Store, h: int) {
    exists path :: IsPath(s, path, h)
  }

  /** Every block is free or in the chain of something reachable from the root through non-empty slots. */
  ghost predicate NoLeak(s: Store) {
    forall h :: h in s.objs ==> Reachable(s, h)
  }

  /** The slot h was created for still names it. */
  ghost predicate Held(s: Store, h: int)
    requires h in s.objs
  {
    h == ROOT ||
    (var o := s.objs[h];
     && Folder(s, o.parent) && 0 <= o.slot < |DirSlots(s, o.parent)|
     && Used(DirSlots(s, o.parent)[o.slot]) && DirSlots(s, o.parent)[o.slot].firstblock == h)
  }

  ghost predicate AllHeld(s: Store) {
    forall h :: h in s.objs ==> Held(s, h)
  }

  lemma NamedIsHeld(s: Store, d: int, h: int)
    requires Tree(s) && Names(s, d, h)
    ensures h in s.objs && h != ROOT && Held(s, h) && s.objs[h].parent == d && s.objs[h].depth == s.objs[d].depth + 1
  {
  }

  lemma {:induction false} HeldIsReachable(s: Store, h: int) returns (path: seq<int>)
    requires Tree(s) && AllHeld(s) && h in s.objs
    ensures IsPath(s, path, h)
    decreases s.objs[h].depth
  {
    if h == ROOT {
      return [ROOT];
    }
    assert Held(s, h);
    var p := s.objs[h].parent;
    assert Names(s, p, h);
    NamedIsHeld(s, p, h);
    var q := HeldIsReachable(s, p);
    path := q + [h];
  }

  /** Without leaks every object is named by its slot, and conversely. */
  lemma NoLeakIsAllHeld(s: Store)
    requires Tree(s)
    ensures NoLeak(s) <==> AllHeld(s)
  {
    if AllHeld(s) {
      forall h | h in s.objs
        ensures Reachable(s, h)
      {
        var path := HeldIsReachable(s, h);
      }
    }
    if NoLeak(s) {
      forall h | h in s.objs
        ensures Held(s, h)
      {
        var path :| IsPath(s, path, h);
        if |path| > 1 {
          assert Names(s, path[|path| - 2], path[|path| - 2 + 1]);
          NamedIsHeld(s, path[|path| - 2], h);
        }
      }
    }
  }

  // ----- when an operation leaks

  ghost predicate IsLeaf(s: Store, h: int)
    requires h in s.objs
  {
    s.objs[h].kind == MYFOLDER ==> forall j :: 0 <= j < |DirSlots(s, h)| ==> !Used(DirSlots(s, h)[j])
  }

  /** path names a folder that still has entries. */
  ghost predicate HitsFullFolder(s: Store, path: cstring)
    requires Tree(s)
  {
    var p := ParentOf(s, path);
    p.Some? && Lookup(s, p.value, path) >= 0 && !IsLeaf(s, DirSlots(s, p.value)[Lookup(s, p.value, path)].firstblock)
  }

  /** The steps that lose blocks: removing or overwriting a non-empty folder, and a mkdir that takes the last free block
      for the new folder when the parent has no empty slot. */
  ghost predicate Leaks(s: Store, op: Op)
    requires Ready(s)
  {
    match op
    case OpMkdir(path) =>
      var p := ParentOf(s, path);
      p.Some? && Lookup(s, p.value, path) < 0 && |s.free| == 1
      && forall i :: 0 <= i < |DirSlots(s, p.value)| ==> Used(DirSlots(s, p.value)[i])
    case OpCopyTo(path, _) => HitsFullFolder(s, path)
    case OpRm(path) => HitsFullFolder(s, path)
  }

  /** Removing a leaf takes no other object's slot away. */
  lemma RemoveLeafKeepsHeld(s: Store, d: int, i: int, h: int)
    requires Inv(s) && Folder(s, d) && 0 <= i < |DirSlots(s, d)| && Used(DirSlots(s, d)[i])
    requires DirSlots(s, d)[i].firstblock in s.objs && IsLeaf(s, DirSlots(s, d)[i].firstblock)
    requires h in RemoveAt(s, d, i).objs && h in s.objs && Held(s, h)
    ensures Held(RemoveAt(s, d, i), h)
  {
    RemoveAtKeeps(s, d, i);
    if h != ROOT {
      assert SlotsOk(s, d) && EntryOk(s, d, i, DirSlots(s, d)[i]);
    }
  }

  lemma RemoveHeldBefore(s: Store, d: int, i: int, h: int)
    requires Inv(s) && Folder(s, d) && 0 <= i < |DirSlots(s, d)| && Used(DirSlots(s, d)[i])
    requires h in RemoveAt(s, d, i).objs && Held(RemoveAt(s, d, i), h)
    ensures h in s.objs && Held(s, h)
  {
    RemoveAtKeeps(s, d, i);
  }

  /** What a removed folder still named is left without a holder. */
  lemma RemoveOrphans(s: Store, d: int, i: int, j: int)
    requires Inv(s) && Folder(s, d) && 0 <= i < |DirSlots(s, d)| && Used(DirSlots(s, d)[i])
    requires var x := DirSlots(s, d)[i].firstblock;
             Folder(s, x) && 0 <= j < |DirSlots(s, x)| && Used(DirSlots(s, x)[j])
    ensures var t := RemoveAt(s, d, i);
            var c := DirSlots(s, DirSlots(s, d)[i].firstblock)[j].firstblock;
            c in t.objs && !Held(t, c)
  {
  }

  lemma RemoveLeaks(s: Store, d: int, i: int)
    requires Inv(s) && Folder(s, d) && 0 <= i < |DirSlots(s, d)| && Used(DirSlots(s, d)[i])
    ensures DirSlots(s, d)[i].firstblock in s.objs
    ensures AllHeld(RemoveAt(s, d, i)) <==> AllHeld(s) && IsLeaf(s, DirSlots(s, d)[i].firstblock)
  {
    var x := DirSlots(s, d)[i].firstblock;
    var t := RemoveAt(s, d, i);
    assert x in s.objs && Held(s, x) && t.objs.Keys == s.objs.Keys - {x} by {
      assert Names(s, d, x);
      NamedIsHeld(s, d, x);
      RemoveAtKeeps(s, d, i);
    }
    if AllHeld(s) && IsLeaf(s, x) {
      forall h | h in t.objs
        ensures Held(t, h)
      {
        RemoveLeafKeepsHeld(s, d, i, h);
      }
    }
    if AllHeld(t) {
      forall h | h in s.objs
        ensures Held(s, h)
      {
        if h != x {
          RemoveHeldBefore(s, d, i, h);
        }
      }
    }
    if !IsLeaf(s, x) {
      var j :| 0 <= j < |DirSlots(s, x)| && Used(DirSlots(s, x)[j]);
      RemoveOrphans(s, d, i, j);
    }
  }

  /** AddEntry seen from the slots: the hole, in the old slots or in a grown block, now names b. */
  lemma AddEntrySlots(s: Store, d: int, e: Fd)
    requires d in s.objs && e.Valid()
    ensures var t := AddEntry(s, d, e);
            var slots := DirSlots(s, d);
            var f := FirstHole(slots);
            && (t.1 <==> f < |slots| || s.free != [])
            && (t.1 ==> DirSlots(t.0, d) == WithEntry(slots, e))
            && t.0.free == (if t.1 && f == |slots| then s.free[1..] else s.free)
            && (!t.1 ==> t.0 == s)
  {
    var f := FirstHole(DirSlots(s, d));
    if f < |DirSlots(s, d)| {
      PutSlotIs(s, d, f, e);
    } else if s.free != [] {
      GrowIs(s, d);
      PutSlotIs(Grow(s, d), d, f, e);
    }
  }

  /** A new object entered into d, or left without an entry, seen from the objects and slots. */
  lemma EnterIs(s: Store, d: int, kind: byte, name: cstring, size: int)
    requires s.free != [] && d in s.objs && s.free[0] !in s.objs && 0 <= s.free[0] < WORD
    requires |name| <= FILENAME_LEN && 0 <= size < WORD
    ensures var b, slots := s.free[0], DirSlots(s, d);
            var e := NewEntry(kind, name, b, size);
            var r := Enter(s, d, kind, name, size);
            var t := r.0;
            && (r.1 <==> FirstHole(slots) < |slots| || |s.free| > 1)
            && t.nblocks == s.nblocks && t.objs.Keys == s.objs.Keys + {b}
            && (forall h :: h in s.objs && h != d ==> t.objs[h] == s.objs[h])
            && t.objs[d].kind == s.objs[d].kind && t.objs[d].depth == s.objs[d].depth
            && t.objs[d].parent == s.objs[d].parent && t.objs[d].slot == s.objs[d].slot
            && t.objs[b] == Obj(kind, [b], [Zeros(BUFFER_SIZE)], d, FirstHole(slots), s.objs[d].depth + 1)
            && DirSlots(t, d) == (if r.1 then WithEntry(slots, e) else slots)
            && |t.free| == |s.free| - 1 - (if r.1 && FirstHole(slots) == |slots| then 1 else 0)
  {
    CreateForIs(s, d, kind);
    AddEntrySlots(CreateFor(s, d, kind), d, NewEntry(kind, name, s.free[0], size));
    AddEntryKeeps(CreateFor(s, d, kind), d, NewEntry(kind, name, s.free[0], size));
  }

  lemma FreeHeadFresh(s: Store)
    requires Inv(s) && s.free != []
    ensures 1 <= s.free[0] < s.nblocks && s.free[0] !in s.objs && s.free[0] != ROOT
  {
  }

  /** A new object changes nothing about the others; it is itself held exactly if it could be entered. */
  lemma EnterLeaks(s: Store, d: int, kind: byte, name: cstring, size: int)
    requires Ready(s) && s.free != [] && Folder(s, d) && (kind == MYFILE || kind == MYFOLDER)
    requires |name| <= FILENAME_LEN && 0 <= size < WORD
    ensures 1 <= s.free[0] < s.nblocks
    ensures var r := Enter(s, d, kind, name, size);
            && (r.1 <==> FirstHole(DirSlots(s, d)) < |DirSlots(s, d)| || |s.free| > 1)
            && (AllHeld(r.0) <==> AllHeld(s) && r.1)
  {
    FreeHeadFresh(s);
    EnterHeld(s, d, kind, name, size);
  }

  lemma EnterHeld(s: Store, d: int, kind: byte, name: cstring, size: int)
    requires s.free != [] && Folder(s, d) && s.free[0] !in s.objs && 1 <= s.free[0] < WORD && s.free[0] != ROOT
    requires |name| <= FILENAME_LEN && 0 <= size < WORD && (kind == MYFILE || kind == MYFOLDER)
    ensures var r := Enter(s, d, kind, name, size);
            && (r.1 <==> FirstHole(DirSlots(s, d)) < |DirSlots(s, d)| || |s.free| > 1)
            && (AllHeld(r.0) <==> AllHeld(s) && r.1)
  {
    EnterIs(s, d, kind, name, size);
    var b, e := s.free[0], NewEntry(kind, name, s.free[0], size);
    var r := Enter(s, d, kind, name, size);
    forall h | h in s.objs
      ensures Held(r.0, h) <==> Held(s, h)
    {
      EnterKeepsHeld(s, r.0, d, b, e, h);
    }
    assert Held(r.0, b) <==> r.1;
  }

  lemma EnterKeepsHeld(s: Store, t: Store, d: int, b: int, e: Fd, h: int)
    requires h in s.objs && Folder(s, d) && b !in s.objs && b != ROOT && t.objs.Keys == s.objs.Keys + {b}
    requires forall g :: g in s.objs && g != d ==> t.objs[g] == s.objs[g]
    requires t.objs[d].kind == s.objs[d].kind && t.objs[d].parent == s.objs[d].parent && t.objs[d].slot == s.objs[d].slot
    requires t.objs[b].bufs == [Zeros(BUFFER_SIZE)] && e.firstblock == b
    requires DirSlots(t, d) == DirSlots(s, d) || DirSlots(t, d) == WithEntry(DirSlots(s, d), e)
    ensures Held(t, h) <==> Held(s, h)
  {
    var o := s.objs[h];
    if o.parent == b {
      BlankSlots(t, b);
    } else if o.parent == d {
      var slots, f := DirSlots(s, d), FirstHole(DirSlots(s, d));
      assert o.slot == f ==> !(0 <= o.slot < |slots| && Used(slots[o.slot]));
      assert |slots| <= o.slot < |WithEntry(slots, e)| && o.slot != f ==> !Used(WithEntry(slots, e)[o.slot]);
    }
  }

  lemma BlankSlots(t: Store, b: int)
    requires b in t.objs && t.objs[b].bufs == [Zeros(BUFFER_SIZE)]
    ensures forall i :: 0 <= i < |DirSlots(t, b)| ==> !Used(DirSlots(t, b)[i])
  {
  }

  /** Writing file contents moves no directory slot. */
  lemma WriteKeepsHeld(s: Store, b: int, data: seq<byte>)
    requires b in s.objs && s.objs[b].kind == MYFILE && |s.objs[b].chain| == |s.objs[b].bufs| > 0
    ensures AllHeld(WriteData(s, b, 0, data)) <==> AllHeld(s)
  {
    var t := WriteData(s, b, 0, data);
    WriteDataKeeps(s, b, 0, data);
    forall h | h in s.objs
      ensures Held(t, h) <==> Held(s, h)
    {
      var p := s.objs[h].parent;
      assert t.objs[h].parent == p && t.objs[h].slot == s.objs[h].slot;
      assert Folder(t, p) <==> Folder(s, p);
    }
  }

  lemma PutFileKeepsHeld(s: Store, d: int, name: cstring, data: seq<byte>)
    requires Ready(s) && Folder(s, d) && |name| <= FILENAME_LEN && |data| <= MAX_SIZE
    ensures AllHeld(PutFile(s, d, name, data)) <==> AllHeld(s)
  {
    if s.free != [] {
      EnteredIs(s, d, name, |data|);
      EnterLeaks(s, d, MYFILE, name, |data|);
      var t := Enter(s, d, MYFILE, name, |data|);
      if t.1 {
        WriteKeepsHeld(t.0, s.free[0], data);
      }
    }
  }

  lemma MkdirLeaks(s: Store, path: cstring)
    requires Ready(s)
    ensures AllHeld(AfterMkdir(s, path).0) <==> AllHeld(s) && !Leaks(s, OpMkdir(path))
  {
    var p := ParentOf(s, path);
    if p.Some? && Lookup(s, p.value, path) < 0 && s.free != [] {
      EnterLeaks(s, p.value, MYFOLDER, BaseName(path), 0);
      var slots := DirSlots(s, p.value);
      assert FirstHole(slots) == |slots| <==> forall i :: 0 <= i < |slots| ==> Used(slots[i]);
    }
  }

  lemma RmLeaks(s: Store, path: cstring)
    requires Ready(s)
    ensures AllHeld(AfterRm(s, path)) <==> AllHeld(s) && !Leaks(s, OpRm(path))
  {
    var p := ParentOf(s, path);
    if p.Some? && Lookup(s, p.value, path) >= 0 {
      RemoveLeaks(s, p.value, Lookup(s, p.value, path));
    }
  }

  lemma VacatedLeaks(s: Store, d: int, path: cstring)
    requires Ready(s) && ParentOf(s, path) == Some(d)
    ensures AllHeld(Vacated(s, d, path)) <==> AllHeld(s) && !HitsFullFolder(s, path)
  {
    if Lookup(s, d, path) >= 0 {
      RemoveLeaks(s, d, Lookup(s, d, path));
    }
  }

  lemma CopyToLeaks(s: Store, path: cstring, data: seq<byte>)
    requires Ready(s) && |data| <= MAX_SIZE
    ensures AllHeld(AfterCopyTo(s, path, data)) <==> AllHeld(s) && !Leaks(s, OpCopyTo(path, data))
  {
    var p := ParentOf(s, path);
    if p.Some? {
      VacatedLeaks(s, p.value, path);
      PutFileKeepsHeld(Vacated(s, p.value, path), p.value, BaseName(path), data);
    }
  }

  /** One operation ends without leaked blocks if and only if it starts without any and is not one of those that Leaks. */
  lemma ApplyLeaks(s: Store, op: Op)
    requires Ready(s) && op.Valid()
    ensures Ready(Apply(s, op))
    ensures NoLeak(Apply(s, op)) <==> NoLeak(s) && !Leaks(s, op)
  {
    ApplyInv(s, op);
    NoLeakIsAllHeld(s);
    NoLeakIsAllHeld(Apply(s, op));
    match op
    case OpMkdir(path) => MkdirLeaks(s, path);
    case OpRm(path) => RmLeaks(s, path);
    case OpCopyTo(path, data) => CopyToLeaks(s, path, data);
  }

  ghost predicate SomeStepLeaks(s: Store, ops: seq<Op>)
    requires Ready(s) && ValidOps(ops)
    decreases |ops|
  {
    ops != [] &&
    (ApplyInv(s, ops[0]);
     Leaks(s, ops[0]) || SomeStepLeaks(Apply(s, ops[0]), ops[1..]))
  }

  /** A run loses blocks if and only if one of its steps does: what is lost is never found again. */
  lemma {:induction false} RunLeaks(s: Store, ops: seq<Op>)
    requires Ready(s) && ValidOps(ops)
    ensures NoLeak(Run(s, ops)) <==> NoLeak(s) && !SomeStepLeaks(s, ops)
    decreases |ops|
  {
    if ops != [] {
      ApplyLeaks(s, ops[0]);
      RunLeaks(Apply(s, ops[0]), ops[1..]);
    }
  }

  /** From a new file system: whatever is done, every block stays accounted for, and without a leaking step
      every block is on the free list or reachable, exactly once. */
  lemma EveryRun(n: int, ops: seq<Op>)
    requires 1 <= n <= MAX_BLOCKS && ValidOps(ops)
    ensures Ready(InitStore(n)) && Inv(Run(InitStore(n), ops))
    ensures NoLeak(Run(InitStore(n), ops)) <==> !SomeStepLeaks(InitStore(n), ops)
    ensures !SomeStepLeaks(InitStore(n), ops) ==>
              var t := Run(InitStore(n), ops);
              forall b :: 1 <= b <= n && b !in t.free ==> exists h :: h in t.objs && b in t.objs[h].chain && Reachable(t, h)
  {
    InitInv(n);
    var s := InitStore(n);
    assert AllHeld(s);
    NoLeakIsAllHeld(s);
    RunLeaks(s, ops);
    EveryBlockOnce(Run(s, ops));
  }
}
