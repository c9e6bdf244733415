/** What mycopyto leaves for mycopyfrom to read, with enough blocks and without, and what it leaves alone. */
module MyFsContents {
  import opened Bytes
  import opened MyFsBlocks
  import opened MyFsStore
  import opened MyFsDirectory
  import opened MyFsPaths
  import opened MyFsTree
  import opened MyFsOps
  import opened MyFsConservation

  /** Blocks that hold n bytes. */
  function BlocksFor(n: nat): nat {
    (n + BUFFER_SIZE - 1) / BUFFER_SIZE
  }

  /** The least number of blocks of 4088 bytes that do. */
  lemma BlocksForLeast(n: nat, k: nat)
    ensures BlocksFor(n) <= k <==> n <= 4088 * k
  {
  }

  function Blank(n: nat): (bufs: seq<buffer>)
    ensures |bufs| == n
  {
    seq(n, _ => Zeros(BUFFER_SIZE))
  }

  function Max(a: int, b: int): int {
    if a >= b then a else b
  }

  /** data over the front of what was there. */
  function Over(data: seq<byte>, was: seq<byte>): seq<byte>
    requires |data| <= |was|
  {
    data + was[|data|..]
  }

  ghost predicate EnoughFor(s: Store, h: int, i: nat, size: nat)
    requires h in s.objs
  {
    i + BlocksFor(size) <= |s.objs[h].chain| + |s.free|
  }

  /** How many free blocks a write of size bytes from block i on takes: as many as it needs, or all there are. */
  ghost function Got(s: Store, h: int, i: nat, size: nat): (got: nat)
    requires h in s.objs
    ensures got <= |s.free|
  {
    if EnoughFor(s, h, i, size) then Max(0, i + BlocksFor(size) - |s.objs[h].chain|) else |s.free|
  }

  /** How many bytes arrive: all, or those before the last block that could be had. */
  ghost function WrittenBytes(s: Store, h: int, i: nat, size: nat): int
    requires h in s.objs
  {
    if EnoughFor(s, h, i, size) then size else BUFFER_SIZE * (|s.objs[h].chain| + |s.free| - 1 - i)
  }

  /** The blocks of was with data written over their front, block by block. */
  function Pieces(was: seq<buffer>, data: seq<byte>): (now: seq<buffer>)
    requires |data| <= BUFFER_SIZE * |was|
    ensures |now| == |was|
    decreases |was|
  {
    if data == [] then was
    else [Overlay(was[0], data)] + Pieces(was[1..], data[Min(|data|, BUFFER_SIZE)..])
  }

  lemma {:induction false} PiecesConcat(was: seq<buffer>, data: seq<byte>)
    requires |data| <= BUFFER_SIZE * |was|
    ensures Concat(Pieces(was, data)) == Over(data, Concat(was))
    decreases |was|
  {
    if data != [] {
      var n := Min(|data|, BUFFER_SIZE);
      PiecesConcat(was[1..], data[n..]);
      assert Pieces(was, data)[1..] == Pieces(was[1..], data[n..]);
      OverSplit(data, was[0], Concat(was[1..]), n);
    }
  }

  lemma OverSplit(data: seq<byte>, front: seq<byte>, rest: seq<byte>, n: nat)
    requires n <= |data| <= |front| + |rest| && n == Min(|data|, |front|)
    ensures (data[..n] + front[n..]) + Over(data[n..], rest) == Over(data, front + rest)
  {
    assert data == data[..n] + data[n..];
    if n < |data| {
      assert (front + rest)[|data|..] == rest[|data| - n..];
    } else {
      assert (front + rest)[|data|..] == front[n..] + rest;
    }
  }

  /** o once got blocks of free are linked to it and the first w bytes of data written from block i on. */
  ghost function Filled(o: Obj, free: seq<int>, i: nat, data: seq<byte>, got: nat, w: nat): Obj
    requires i <= |o.bufs| && got <= |free| && w <= |data| && w <= BUFFER_SIZE * (|o.bufs| + got - i)
  {
    var full := o.bufs + Blank(got);
    o.(chain := o.chain + free[..got], bufs := full[..i] + Pieces(full[i..], data[..w]))
  }

  /** Got and WrittenBytes without division, for a chain of len blocks and as many free blocks. */
  ghost predicate Counts(len: nat, free: nat, i: nat, size: nat, got: nat, w: nat) {
    && got <= free && w <= size && w <= BUFFER_SIZE * (len + got - i)
    && if size <= BUFFER_SIZE * (len + free - i)
       then w == size && (got == 0 || BUFFER_SIZE * (len + got - 1 - i) < size)
       else w == BUFFER_SIZE * (len + free - 1 - i) && got == free
  }

  lemma GotCounts(s: Store, h: int, i: nat, size: nat)
    requires h in s.objs && i < |s.objs[h].chain|
    ensures WrittenBytes(s, h, i, size) >= 0
    ensures Counts(|s.objs[h].chain|, |s.free|, i, size, Got(s, h, i, size), WrittenBytes(s, h, i, size))
  {
  }

  lemma CountsAtEnd(len: nat, free: nat, i: nat, size: nat, got: nat, w: nat)
    requires i < len && Counts(len, free, i, size, got, w)
    requires size <= BUFFER_SIZE || (i + 1 == len && free == 0)
    ensures got == 0 && w == if size <= BUFFER_SIZE then size else 0
  {
  }

  /** One block further, in a chain that had to grow first if grown is 1. */
  lemma CountsNext(len: nat, free: nat, i: nat, size: nat, grown: nat, got: nat, w: nat)
    requires i < len && size > BUFFER_SIZE && grown <= free && grown == (if i + 1 < len then 0 else 1)
    requires Counts(len, free, i, size, got, w)
    ensures grown <= got && BUFFER_SIZE <= w
    ensures Counts(len + grown, free - grown, i + 1, size - BUFFER_SIZE, got - grown, w - BUFFER_SIZE)
  {
  }

  /** The last turn of the loop. */
  lemma FilledLast(o: Obj, free: seq<int>, i: nat, data: seq<byte>)
    requires i < |o.bufs|
    ensures Filled(o, free, i, data, 0, 0) == o
    ensures |data| <= BUFFER_SIZE ==>
              Filled(o, free, i, data, 0, |data|) ==
              if data == [] then o else o.(bufs := o.bufs[i := Overlay(o.bufs[i], data)])
  {
    assert o.bufs + Blank(0) == o.bufs;
    assert free[..0] == [];
    assert data[..|data|] == data;
    if 0 < |data| <= BUFFER_SIZE {
      assert Pieces(o.bufs[i..], data) == [Overlay(o.bufs[i], data)] + o.bufs[i..][1..];
      assert o.bufs[..i] + ([Overlay(o.bufs[i], data)] + o.bufs[i..][1..]) == o.bufs[i := Overlay(o.bufs[i], data)];
    }
  }

  lemma PiecesNext(was: seq<buffer>, i: nat, data: seq<byte>, w: nat)
    requires i < |was| && BUFFER_SIZE <= w <= |data| && w <= BUFFER_SIZE * (|was| - i)
    ensures var mid := was[i := Overlay(was[i], data)];
            mid[..i + 1] + Pieces(mid[i + 1..], data[BUFFER_SIZE..][..w - BUFFER_SIZE]) ==
            was[..i] + Pieces(was[i..], data[..w])
  {
    assert Overlay(was[i], data[..w]) == Overlay(was[i], data);
    assert data[..w][BUFFER_SIZE..] == data[BUFFER_SIZE..][..w - BUFFER_SIZE];
    assert was[i..][1..] == was[i + 1..];
  }

  /** A turn inside the chain. */
  lemma FilledNext(o: Obj, o1: Obj, free: seq<int>, i: nat, data: seq<byte>, got: nat, w: nat)
    requires i + 1 < |o.bufs| && got <= |free| && o1 == o.(bufs := o.bufs[i := Overlay(o.bufs[i], data)])
    requires BUFFER_SIZE <= w <= |data| && w <= BUFFER_SIZE * (|o.bufs| + got - i)
    ensures Filled(o1, free, i + 1, data[BUFFER_SIZE..], got, w - BUFFER_SIZE) == Filled(o, free, i, data, got, w)
  {
    PiecesNext(o.bufs + Blank(got), i, data, w);
    assert o1.bufs + Blank(got) == (o.bufs + Blank(got))[i := Overlay(o.bufs[i], data)];
  }

  /** A turn that first links a free block to the end of the chain. */
  lemma FilledGrown(o: Obj, o1: Obj, free: seq<int>, i: nat, data: seq<byte>, got: nat, w: nat)
    requires i + 1 == |o.bufs| && 0 < got <= |free|
    requires o1 == o.(chain := o.chain + [free[0]], bufs := (o.bufs + [Zeros(BUFFER_SIZE)])[i := Overlay(o.bufs[i], data)])
    requires BUFFER_SIZE <= w <= |data| && w <= BUFFER_SIZE * (|o.bufs| + got - i)
    ensures Filled(o1, free[1..], i + 1, data[BUFFER_SIZE..], got - 1, w - BUFFER_SIZE) == Filled(o, free, i, data, got, w)
    ensures free[1..][got - 1..] == free[got..]
  {
    PiecesNext(o.bufs + Blank(got), i, data, w);
    assert o1.bufs + Blank(got - 1) == (o.bufs + Blank(got))[i := Overlay(o.bufs[i], data)];
    assert o1.chain + free[1..][..got - 1] == o.chain + free[..got];
  }

  ghost predicate Planned(s: Store, h: int, i: nat, data: seq<byte>, got: nat, w: nat) {
    && h in s.objs && i < |s.objs[h].chain| == |s.objs[h].bufs|
    && Counts(|s.objs[h].chain|, |s.free|, i, |data|, got, w)
  }

  /** t is what a write of data to h from block i on leaves of s. */
  ghost predicate Fills(s: Store, t: Store, h: int, i: nat, data: seq<byte>, got: nat, w: nat)
    requires Planned(s, h, i, data, got, w)
  {
    h in t.objs && t.objs[h] == Filled(s.objs[h], s.free, i, data, got, w) && t.free == s.free[got..]
  }

  /** The loop has more to write after this block, and a block to write it to. */
  predicate GoesOn(s: Store, h: int, i: nat, data: seq<byte>)
    requires h in s.objs
  {
    |data| > BUFFER_SIZE && (i + 1 < |s.objs[h].chain| || s.free != [])
  }

  function Grown(s: Store, h: int, i: nat): nat
    requires h in s.objs
  {
    if i + 1 < |s.objs[h].chain| then 0 else 1
  }

  /** The store after a turn of the loop that goes on. */
  function Turn(s: Store, h: int, i: nat, data: seq<byte>): Store
    requires h in s.objs && i < |s.objs[h].chain| == |s.objs[h].bufs| && GoesOn(s, h, i, data)
  {
    SetBuf(if i + 1 < |s.objs[h].chain| then s else Grow(s, h), h, i, Overlay(s.objs[h].bufs[i], data))
  }

  lemma TurnPlanned(s: Store, h: int, i: nat, data: seq<byte>, got: nat, w: nat)
    requires Planned(s, h, i, data, got, w) && GoesOn(s, h, i, data)
    ensures Grown(s, h, i) <= got && BUFFER_SIZE <= w
    ensures Planned(Turn(s, h, i, data), h, i + 1, data[BUFFER_SIZE..], got - Grown(s, h, i), w - BUFFER_SIZE)
  {
    CountsNext(|s.objs[h].chain|, |s.free|, i, |data|, Grown(s, h, i), got, w);
  }

  lemma TurnFills(s: Store, h: int, i: nat, data: seq<byte>, got: nat, w: nat)
    requires Planned(s, h, i, data, got, w) && GoesOn(s, h, i, data) && Grown(s, h, i) <= got && BUFFER_SIZE <= w
    requires Planned(Turn(s, h, i, data), h, i + 1, data[BUFFER_SIZE..], got - Grown(s, h, i), w - BUFFER_SIZE)
    requires var s1, rest := Turn(s, h, i, data), data[BUFFER_SIZE..];
             Fills(s1, WriteData(s1, h, i + 1, rest), h, i + 1, rest, got - Grown(s, h, i), w - BUFFER_SIZE)
    ensures Fills(s, WriteData(s, h, i, data), h, i, data, got, w)
  {
    var o1 := Turn(s, h, i, data).objs[h];
    if i + 1 < |s.objs[h].chain| {
      FilledNext(s.objs[h], o1, s.free, i, data, got, w);
    } else {
      FilledGrown(s.objs[h], o1, s.free, i, data, got, w);
    }
  }

  lemma EndFills(s: Store, h: int, i: nat, data: seq<byte>, got: nat, w: nat)
    requires Planned(s, h, i, data, got, w) && !GoesOn(s, h, i, data)
    ensures Fills(s, WriteData(s, h, i, data), h, i, data, got, w)
  {
    CountsAtEnd(|s.objs[h].chain|, |s.free|, i, |data|, got, w);
    FilledLast(s.objs[h], s.free, i, data);
  }

  lemma {:induction false} WriteFills(s: Store, h: int, i: nat, data: seq<byte>, got: nat, w: nat)
    requires Planned(s, h, i, data, got, w)
    ensures Fills(s, WriteData(s, h, i, data), h, i, data, got, w)
    decreases |data|
  {
    if GoesOn(s, h, i, data) {
      TurnPlanned(s, h, i, data, got, w);
      WriteFills(Turn(s, h, i, data), h, i + 1, data[BUFFER_SIZE..], got - Grown(s, h, i), w - BUFFER_SIZE);
      TurnFills(s, h, i, data, got, w);
    } else {
      EndFills(s, h, i, data, got, w);
    }
  }

  /** What write_file_data does from block i of h on: it uses the chain's own blocks first, then exactly as many free
      ones as it needs, and the bytes from block i on become data over what was there. When blocks run out, all of them
      are taken and linked, and what should have gone into the last one, and behind it, is not written. */
  lemma WriteMeaning(s: Store, h: int, i: nat, data: seq<byte>)
    requires h in s.objs && i < |s.objs[h].chain| == |s.objs[h].bufs|
    ensures var o, t := s.objs[h], WriteData(s, h, i, data);
            var got, w := Got(s, h, i, |data|), WrittenBytes(s, h, i, |data|);
            && h in t.objs
            && t.objs[h].chain == o.chain + s.free[..got] && t.free == s.free[got..]
            && |t.objs[h].bufs| == |o.bufs| + got && t.objs[h].bufs[..i] == o.bufs[..i]
            && 0 <= w <= |data| && w <= BUFFER_SIZE * (|o.bufs| + got - i)
            && Concat(t.objs[h].bufs[i..]) == Over(data[..w], Concat((o.bufs + Blank(got))[i..]))
  {
    var got, w := Got(s, h, i, |data|), WrittenBytes(s, h, i, |data|);
    GotCounts(s, h, i, |data|);
    WriteFills(s, h, i, data, got, w);
    FilledBytes(s.objs[h], s.free, i, data, got, w);
  }

  lemma FilledBytes(o: Obj, free: seq<int>, i: nat, data: seq<byte>, got: nat, w: nat)
    requires i <= |o.bufs| && got <= |free| && w <= |data| && w <= BUFFER_SIZE * (|o.bufs| + got - i)
    ensures var bufs := Filled(o, free, i, data, got, w).bufs;
            && |bufs| == |o.bufs| + got && bufs[..i] == o.bufs[..i]
            && Concat(bufs[i..]) == Over(data[..w], Concat((o.bufs + Blank(got))[i..]))
  {
    var full := o.bufs + Blank(got);
    PiecesConcat(full[i..], data[..w]);
    assert Filled(o, free, i, data, got, w).bufs[i..] == Pieces(full[i..], data[..w]);
  }

  lemma {:induction false} ConcatOfBlank(n: nat)
    ensures Concat(Blank(n)) == Zeros(BUFFER_SIZE * n)
  {
    if n > 0 {
      assert Blank(n)[1..] == Blank(n - 1);
      ConcatOfBlank(n - 1);
    }
  }

  /** A file written into one freshly allocated block: the chain has max(1, ceil(size / 4088)) blocks and reads back as
      data; if only k blocks can be had it has those, and reads back as the data for all but the last and one zero block. */
  lemma FreshWrite(s: Store, b: int, data: seq<byte>)
    requires b in s.objs && s.objs[b].chain == [b] && s.objs[b].bufs == [Zeros(BUFFER_SIZE)]
    ensures var t := WriteData(s, b, 0, data);
            var k := 1 + |s.free|;
            && b in t.objs && |t.objs[b].chain| == |t.objs[b].bufs|
            && if BlocksFor(|data|) <= k then
                 && |t.objs[b].chain| == Max(1, BlocksFor(|data|)) && t.free == s.free[|t.objs[b].chain| - 1..]
                 && t.objs[b].chain == [b] + s.free[..|t.objs[b].chain| - 1]
                 && ReadData(t.objs[b].bufs, |data|) == data
               else
                 && t.objs[b].chain == [b] + s.free && t.free == []
                 && BUFFER_SIZE * (k - 1) <= |data|
                 && ReadData(t.objs[b].bufs, |data|) == data[..BUFFER_SIZE * (k - 1)] + Zeros(BUFFER_SIZE)
  {
    WriteMeaning(s, b, 0, data);
    var bufs := WriteData(s, b, 0, data).objs[b].bufs;
    var got, w := Got(s, b, 0, |data|), WrittenBytes(s, b, 0, |data|);
    assert bufs[0..] == bufs;
    assert ([Zeros(BUFFER_SIZE)] + Blank(got))[0..] == Blank(got + 1);
    ConcatOfBlank(got + 1);
    FreshRead(data, w, BUFFER_SIZE * (got + 1), Concat(bufs));
  }

  lemma FreshRead(data: seq<byte>, w: nat, size: nat, bytes: seq<byte>)
    requires w <= |data| && w <= size && bytes == Over(data[..w], Zeros(size))
    ensures w == |data| ==> bytes[..|data|] == data
    ensures w < |data| && size == w + BUFFER_SIZE ==> bytes == data[..w] + Zeros(BUFFER_SIZE)
  {
  }

  // ----- the walk to the parent does not see the change

  /** Directories above d, and d itself, are still there. */
  ghost predicate SameAbove(s: Store, t: Store, d: int)
    requires Folder(s, d)
  {
    && Folder(t, d)
    && forall g :: Folder(s, g) && s.objs[g].depth < s.objs[d].depth ==> Folder(t, g) && DirSlots(t, g) == DirSlots(s, g)
  }

  lemma DescendDeeper(s: Store, d: int, name: cstring)
    requires Tree(s) && Folder(s, d)
    ensures Descend(s, d, name).Some? ==> s.objs[Descend(s, d, name).value].depth == s.objs[d].depth + 1
  {
  }

  lemma {:induction false} ResolveDepth(s: Store, e: int, cs: seq<cstring>)
    requires Tree(s) && Folder(s, e)
    ensures Resolve(s, e, cs).Some? ==> s.objs[Resolve(s, e, cs).value].depth == s.objs[e].depth + |cs|
    decreases |cs|
  {
    if cs != [] {
      DescendDeeper(s, e, cs[0]);
      if Descend(s, e, cs[0]).Some? {
        ResolveDepth(s, Descend(s, e, cs[0]).value, cs[1..]);
      }
    }
  }

  lemma {:induction false} ResolveSame(s: Store, t: Store, e: int, cs: seq<cstring>, d: int)
    requires Tree(s) && Tree(t) && Folder(s, e) && Folder(t, e) && Folder(s, d)
    requires Resolve(s, e, cs) == Some(d) && SameAbove(s, t, d)
    ensures Resolve(t, e, cs) == Some(d)
    decreases |cs|
  {
    if cs != [] {
      ResolveDepth(s, e, cs);
      DescendDeeper(s, e, cs[0]);
      var x := Descend(s, e, cs[0]).value;
      assert DirSlots(t, e) == DirSlots(s, e);
      assert Descend(t, e, cs[0]) == Some(x);
      ResolveSame(s, t, x, cs[1..], d);
    }
  }

  // ----- what PutFile does to d and to the rest

  /** What an entered file leaves behind, with the slot it went to. */
  lemma EnteredSlots(s: Store, d: int, name: cstring, size: nat)
    requires Ready(s) && Folder(s, d) && |name| <= FILENAME_LEN && size <= MAX_SIZE && s.free != []
    ensures 1 <= s.free[0] < s.nblocks && s.free[0] !in s.objs
    ensures var b, t, slots := s.free[0], Enter(s, d, MYFILE, name, size), DirSlots(s, d);
            var f := FirstHole(slots);
            && Inv(t.0) && Folder(t.0, d)
            && (t.1 <==> f < |slots| || |s.free| > 1)
            && t.0.objs.Keys == s.objs.Keys + {b}
            && (forall h :: h in s.objs && h != d ==> t.0.objs[h] == s.objs[h])
            && t.0.objs[b].kind == MYFILE && t.0.objs[b].chain == [b] && t.0.objs[b].bufs == [Zeros(BUFFER_SIZE)]
            && (t.1 ==> DirSlots(t.0, d) == WithEntry(slots, NewEntry(MYFILE, name, b, size)))
            && |t.0.free| == |s.free| - 1 - (if t.1 && f == |slots| then 1 else 0)
  {
    FreeHeadFresh(s);
    EnteredInv(s, d, name, size);
    EnterIs(s, d, MYFILE, name, size);
  }

  /** The free blocks a file of this size needs in d: its own, and one more if the directory must grow. */
  ghost function Needed(s: Store, d: int, size: nat): nat
    requires d in s.objs
  {
    Max(1, BlocksFor(size)) + if FirstHole(DirSlots(s, d)) == |DirSlots(s, d)| then 1 else 0
  }

  /** The store between removal and allocation. */
  lemma VacatedIs(s: Store, d: int, path: cstring)
    requires Ready(s) && Folder(s, d)
    ensures var v, i := Vacated(s, d, path), Lookup(s, d, path);
            && Ready(v) && Folder(v, d) && SameAbove(s, v, d) && v.objs[d].depth == s.objs[d].depth
            && DirSlots(v, d) == Cleared(DirSlots(s, d), BaseName(path))
            && (i < 0 ==> v == s)
            && (i >= 0 ==> v.free != [] && FirstHole(DirSlots(v, d)) <= i)
  {
    if Lookup(s, d, path) >= 0 {
      RemoveAtTree(s, d, Lookup(s, d, path));
      RemovedIs(s, d, Lookup(s, d, path));
    }
  }

  lemma RemovedIs(s: Store, d: int, i: int)
    requires Inv(s) && Folder(s, d) && 0 <= i < |DirSlots(s, d)| && Used(DirSlots(s, d)[i])
    ensures var v := RemoveAt(s, d, i);
            && v.nblocks == s.nblocks && Folder(v, d) && SameAbove(s, v, d) && v.objs[d].depth == s.objs[d].depth
            && DirSlots(v, d) == DirSlots(s, d)[i := EMPTY_FD]
            && v.free != [] && FirstHole(DirSlots(v, d)) <= i
  {
    RemoveAtKeeps(s, d, i);
    var x := DirSlots(s, d)[i].firstblock;
    assert |s.objs[x].chain| > 0 by { assert ChainAccounted(s, x); }
    assert !Used(DirSlots(RemoveAt(s, d, i), d)[i]);
    assert s.objs[x].depth == s.objs[d].depth + 1 by {
      assert SlotsOk(s, d) && EntryOk(s, d, i, DirSlots(s, d)[i]);
    }
  }

  /** The free blocks left for an entry of path in d once a previous one is removed suffice to enter it. */
  ghost predicate CanEnter(s: Store, d: int, path: cstring)
    requires Ready(s) && Folder(s, d)
  {
    var v := Vacated(s, d, path);
    v.free != [] && (FirstHole(DirSlots(v, d)) < |DirSlots(v, d)| || |v.free| > 1)
  }

  /** mycopyto that cannot enter its file has not removed one either, and changes nothing. */
  lemma CopyToRefused(s: Store, path: cstring, data: seq<byte>, d: int)
    requires Ready(s) && |data| <= MAX_SIZE && ParentOf(s, path) == Some(d)
    requires !CanEnter(s, d, path)
    ensures AfterCopyTo(s, path, data) == s && Lookup(s, d, path) < 0
  {
    var v := Vacated(s, d, path);
    VacatedIs(s, d, path);
    if v.free != [] {
      EnteredSlots(v, d, BaseName(path), |data|);
      EnteredIs(v, d, BaseName(path), |data|);
    }
  }

  /** The store after a mycopyto that entered its file: b is the file, d has the entry. */
  ghost predicate Filed(v: Store, t: Store, d: int, name: cstring, data: seq<byte>)
    requires Folder(v, d) && v.free != [] && |name| <= FILENAME_LEN && |data| <= MAX_SIZE && 0 <= v.free[0] < WORD
  {
    var b := v.free[0];
    var r := Enter(v, d, MYFILE, name, |data|);
    && b !in v.objs && t.objs.Keys == v.objs.Keys + {b} && Folder(t, d)
    && (forall h :: h in v.objs && h != d ==> t.objs[h] == v.objs[h])
    && t.objs[d].depth == v.objs[d].depth
    && t.objs[b].kind == MYFILE && t.objs[b].slot == FirstHole(DirSlots(v, d))
    && DirSlots(t, d) == WithEntry(DirSlots(v, d), NewEntry(MYFILE, name, b, |data|))
    && b in r.0.objs && r.0.objs[b].chain == [b] && r.0.objs[b].bufs == [Zeros(BUFFER_SIZE)]
    && t == WriteData(r.0, b, 0, data)
  }

  lemma EnteredFiles(v: Store, d: int, name: cstring, data: seq<byte>)
    requires Folder(v, d) && v.free != [] && |name| <= FILENAME_LEN && |data| <= MAX_SIZE
    requires v.free[0] !in v.objs && 0 <= v.free[0] < WORD
    requires FirstHole(DirSlots(v, d)) < |DirSlots(v, d)| || |v.free| > 1
    ensures var b, r := v.free[0], Enter(v, d, MYFILE, name, |data|);
            && r.1 && b in r.0.objs && |r.0.objs[b].chain| == |r.0.objs[b].bufs| == 1
            && Filed(v, WriteData(r.0, b, 0, data), d, name, data)
  {
    EnterIs(v, d, MYFILE, name, |data|);
    var r := Enter(v, d, MYFILE, name, |data|);
    WriteDataKeeps(r.0, v.free[0], 0, data);
    assert DirSlots(WriteData(r.0, v.free[0], 0, data), d) == DirSlots(r.0, d);
  }

  lemma PutFileFiles(v: Store, d: int, name: cstring, data: seq<byte>)
    requires Ready(v) && Folder(v, d) && v.free != [] && |name| <= FILENAME_LEN && |data| <= MAX_SIZE
    requires FirstHole(DirSlots(v, d)) < |DirSlots(v, d)| || |v.free| > 1
    ensures 1 <= v.free[0] < v.nblocks
    ensures Filed(v, PutFile(v, d, name, data), d, name, data)
  {
    FreeHeadFresh(v);
    EnteredFiles(v, d, name, data);
  }

  lemma CopyToFiles(s: Store, path: cstring, data: seq<byte>, d: int)
    requires Ready(s) && |data| <= MAX_SIZE && ParentOf(s, path) == Some(d)
    requires CanEnter(s, d, path)
    ensures Ready(Vacated(s, d, path)) && 1 <= Vacated(s, d, path).free[0] < s.nblocks
    ensures Filed(Vacated(s, d, path), AfterCopyTo(s, path, data), d, BaseName(path), data)
  {
    PutFileFiles(Vacated(s, d, path), d, BaseName(path), data);
  }

  lemma AboveAfterWrite(s: Store, v: Store, t: Store, d: int, b: int)
    requires Folder(s, d) && SameAbove(s, v, d) && Folder(t, d) && v.objs.Keys + {b} == t.objs.Keys && b !in v.objs
    requires forall h :: h in v.objs && h != d ==> t.objs[h] == v.objs[h]
    ensures SameAbove(s, t, d)
  {
  }

  lemma NewEntryLookup(s: Store, t: Store, path: cstring, d: int, e: Fd)
    requires Tree(s) && Tree(t) && Folder(s, d) && Folder(t, d) && Used(e)
    requires DirSlots(t, d) == WithEntry(Cleared(DirSlots(s, d), BaseName(path)), e)
    ensures Lookup(t, d, path) == FirstHole(Cleared(DirSlots(s, d), BaseName(path))) <==> Seen(e) == BaseName(path)
  {
    WholeBlocks(DirSlots(s, d), |s.objs[d].bufs|);
    var f := FirstHole(Cleared(DirSlots(s, d), BaseName(path)));
    if Seen(e) == BaseName(path) {
      FoundAfterWrite(DirSlots(s, d), e, BaseName(path));
    } else {
      assert !Match(DirSlots(t, d), f, BaseName(path));
    }
  }

  /** The walk to the parent ends in d after a mycopyto as it did before. */
  lemma CopyToParent(s: Store, path: cstring, data: seq<byte>, d: int)
    requires Ready(s) && |data| <= MAX_SIZE && ParentOf(s, path) == Some(d) && CanEnter(s, d, path)
    ensures Ready(AfterCopyTo(s, path, data)) && ParentOf(AfterCopyTo(s, path, data), path) == Some(d)
  {
    CopyToInv(s, path, data);
    assert SameAbove(s, AfterCopyTo(s, path, data), d) by {
      VacatedIs(s, d, path);
      CopyToFiles(s, path, data, d);
      AboveAfterWrite(s, Vacated(s, d, path), AfterCopyTo(s, path, data), d, Vacated(s, d, path).free[0]);
    }
    ResolveSame(s, AfterCopyTo(s, path, data), ROOT, ParentComponents(path), d);
  }

  /** The name of the file a mycopyto to path would enter now is read back as it was given. */
  ghost predicate NameKept(s: Store, d: int, path: cstring)
    requires Ready(s) && Folder(s, d)
  {
    Vacated(s, d, path).free != [] && ReadBack(BaseName(path), Vacated(s, d, path).free[0])
  }

  /** After a mycopyto that entered its file, path leads to the new entry exactly if its name is read back. */
  lemma CopyToFound(s: Store, path: cstring, data: seq<byte>, d: int)
    requires Ready(s) && |data| <= MAX_SIZE && ParentOf(s, path) == Some(d) && CanEnter(s, d, path)
    ensures Ready(AfterCopyTo(s, path, data)) && Ready(Vacated(s, d, path)) && 1 <= Vacated(s, d, path).free[0] < s.nblocks
    ensures var v, t := Vacated(s, d, path), AfterCopyTo(s, path, data);
            var f := FirstHole(DirSlots(v, d));
            && Folder(t, d) && f < |DirSlots(t, d)|
            && DirSlots(t, d)[f] == NewEntry(MYFILE, BaseName(path), v.free[0], |data|)
            && (Lookup(t, d, path) == f <==> NameKept(s, d, path))
  {
    CopyToParent(s, path, data, d);
    CopyToFiles(s, path, data, d);
    var v, t := Vacated(s, d, path), AfterCopyTo(s, path, data);
    var e := NewEntry(MYFILE, BaseName(path), v.free[0], |data|);
    SeenNew(MYFILE, BaseName(path), v.free[0], |data|);
    assert DirSlots(v, d) == Cleared(DirSlots(s, d), BaseName(path)) by { VacatedIs(s, d, path); }
    NewEntryLookup(s, t, path, d, e);
  }

  /** Then it is the new file's chain that is read. */
  lemma CopyToEntered(s: Store, path: cstring, data: seq<byte>, d: int)
    requires Ready(s) && |data| <= MAX_SIZE && ParentOf(s, path) == Some(d) && CanEnter(s, d, path)
    requires NameKept(s, d, path)
    ensures Ready(AfterCopyTo(s, path, data)) && Ready(Vacated(s, d, path)) && 1 <= Vacated(s, d, path).free[0] < s.nblocks
    ensures var b, t := Vacated(s, d, path).free[0], AfterCopyTo(s, path, data);
            b in t.objs && FileAt(t, path) == Some(ReadData(t.objs[b].bufs, |data|))
  {
    CopyToParent(s, path, data, d);
    CopyToFound(s, path, data, d);
    CopyToFiles(s, path, data, d);
  }

  lemma CopyToReads(s: Store, path: cstring, data: seq<byte>, d: int)
    requires Ready(s) && |data| <= MAX_SIZE && ParentOf(s, path) == Some(d) && CanEnter(s, d, path)
    requires NameKept(s, d, path)
    ensures Ready(AfterCopyTo(s, path, data)) && Folder(Vacated(s, d, path), d)
    ensures var v, t := Vacated(s, d, path), AfterCopyTo(s, path, data);
            var k := |v.free| - (if FirstHole(DirSlots(v, d)) == |DirSlots(v, d)| then 1 else 0);
            && 1 <= k
            && if BlocksFor(|data|) <= k then FileAt(t, path) == Some(data)
               else
                 && t.free == [] && BUFFER_SIZE * (k - 1) <= |data|
                 && FileAt(t, path) == Some(data[..BUFFER_SIZE * (k - 1)] + Zeros(BUFFER_SIZE))
  {
    CopyToEntered(s, path, data, d);
    CopyToFiles(s, path, data, d);
    FiledReads(Vacated(s, d, path), AfterCopyTo(s, path, data), d, BaseName(path), data);
  }

  lemma FiledReads(v: Store, t: Store, d: int, name: cstring, data: seq<byte>)
    requires Ready(v) && Folder(v, d) && v.free != [] && |name| <= FILENAME_LEN && |data| <= MAX_SIZE
    requires FirstHole(DirSlots(v, d)) < |DirSlots(v, d)| || |v.free| > 1
    requires 0 <= v.free[0] < WORD && Filed(v, t, d, name, data)
    ensures var k := |v.free| - (if FirstHole(DirSlots(v, d)) == |DirSlots(v, d)| then 1 else 0);
            && 1 <= k && v.free[0] in t.objs
            && if BlocksFor(|data|) <= k then ReadData(t.objs[v.free[0]].bufs, |data|) == data
               else
                 && t.free == [] && BUFFER_SIZE * (k - 1) <= |data|
                 && ReadData(t.objs[v.free[0]].bufs, |data|) == data[..BUFFER_SIZE * (k - 1)] + Zeros(BUFFER_SIZE)
  {
    var r := Enter(v, d, MYFILE, name, |data|);
    assert |r.0.free| == |v.free| - 1 - (if FirstHole(DirSlots(v, d)) == |DirSlots(v, d)| then 1 else 0) by {
      EnteredSlots(v, d, name, |data|);
    }
    FreshWrite(r.0, v.free[0], data);
  }

  /** The round trip: mycopyfrom returns exactly what mycopyto was given if and only if the parent directory is found and
      the free blocks, with those of an overwritten entry, cover the data and a directory block if one is needed. */
  lemma CopyRoundTrip(s: Store, path: cstring, data: seq<byte>)
    requires Ready(s) && |data| <= MAX_SIZE
    requires ParentOf(s, path).Some? && CanEnter(s, ParentOf(s, path).value, path) ==>
               NameKept(s, ParentOf(s, path).value, path)
    ensures Ready(AfterCopyTo(s, path, data))
    ensures FileAt(AfterCopyTo(s, path, data), path) == Some(data) <==>
            ParentOf(s, path).Some? && var d := ParentOf(s, path).value;
                                       Needed(Vacated(s, d, path), d, |data|) <= |Vacated(s, d, path).free|
  {
    CopyToInv(s, path, data);
    var p := ParentOf(s, path);
    if p.Some? {
      if CanEnter(s, p.value, path) {
        RoundTripHere(s, path, data, p.value);
      } else {
        CopyToRefused(s, path, data, p.value);
      }
    }
  }

  lemma RoundTripHere(s: Store, path: cstring, data: seq<byte>, d: int)
    requires Ready(s) && |data| <= MAX_SIZE && ParentOf(s, path) == Some(d) && CanEnter(s, d, path) && NameKept(s, d, path)
    ensures Ready(AfterCopyTo(s, path, data)) && Folder(Vacated(s, d, path), d)
    ensures FileAt(AfterCopyTo(s, path, data), path) == Some(data) <==>
            Needed(Vacated(s, d, path), d, |data|) <= |Vacated(s, d, path).free|
  {
    CopyToReads(s, path, data, d);
    var v := Vacated(s, d, path);
    var k := |v.free| - (if FirstHole(DirSlots(v, d)) == |DirSlots(v, d)| then 1 else 0);
    if BlocksFor(|data|) > k {
      ShortDiffers(data, k);
    }
  }

  /** What comes back when space ran out is not the data: it ends in a block of zeros too early. */
  lemma ShortDiffers(data: seq<byte>, k: nat)
    requires 1 <= k && BlocksFor(|data|) > k
    ensures BUFFER_SIZE * (k - 1) <= |data| && data[..BUFFER_SIZE * (k - 1)] + Zeros(BUFFER_SIZE) != data
  {
    assert |data[..BUFFER_SIZE * (k - 1)] + Zeros(BUFFER_SIZE)| == BUFFER_SIZE * k;
  }

  /** Out of space: with k blocks for the file, it reads back as the data of all but the last, then one block of zeros. The
      file's chain holds that under any name, and path leads to it if the name is read back. */
  lemma CopyShort(s: Store, path: cstring, data: seq<byte>, d: int)
    requires Ready(s) && |data| <= MAX_SIZE && ParentOf(s, path) == Some(d)
    requires CanEnter(s, d, path) && |Vacated(s, d, path).free| < Needed(Vacated(s, d, path), d, |data|)
    ensures Ready(AfterCopyTo(s, path, data)) && AfterCopyTo(s, path, data).free == []
    ensures var v, t := Vacated(s, d, path), AfterCopyTo(s, path, data);
            var k := |v.free| - (if FirstHole(DirSlots(v, d)) == |DirSlots(v, d)| then 1 else 0);
            && 1 <= k && BUFFER_SIZE * (k - 1) <= |data| && v.free[0] in t.objs
            && ReadData(t.objs[v.free[0]].bufs, |data|) == data[..BUFFER_SIZE * (k - 1)] + Zeros(BUFFER_SIZE)
            && (NameKept(s, d, path) ==> FileAt(t, path) == Some(data[..BUFFER_SIZE * (k - 1)] + Zeros(BUFFER_SIZE)))
  {
    CopyToInv(s, path, data);
    CopyToFiles(s, path, data, d);
    FiledReads(Vacated(s, d, path), AfterCopyTo(s, path, data), d, BaseName(path), data);
    if NameKept(s, d, path) {
      CopyToEntered(s, path, data, d);
    }
  }

  /** Where the bytes of a file with room lie: byte k in block k div 4088 of its chain, at k mod 4088, one block for an empty
      file and else as many as the bytes need. */
  lemma CopyBytes(s: Store, path: cstring, data: seq<byte>, d: int)
    requires Ready(s) && |data| <= MAX_SIZE && ParentOf(s, path) == Some(d) && CanEnter(s, d, path)
    requires Needed(Vacated(s, d, path), d, |data|) <= |Vacated(s, d, path).free|
    ensures Ready(AfterCopyTo(s, path, data)) && Vacated(s, d, path).free[0] in AfterCopyTo(s, path, data).objs
    ensures var o := AfterCopyTo(s, path, data).objs[Vacated(s, d, path).free[0]];
            && |o.chain| == |o.bufs| == (if |data| <= 4088 then 1 else (|data| + 4087) / 4088)
            && o.chain[0] == Vacated(s, d, path).free[0]
            && forall k :: 0 <= k < |data| ==> k / 4088 < |o.bufs| && o.bufs[k / 4088][k % 4088] == data[k]
  {
    CopyToInv(s, path, data);
    CopyToFiles(s, path, data, d);
    FiledBytes(Vacated(s, d, path), AfterCopyTo(s, path, data), d, BaseName(path), data);
  }

  lemma FiledBytes(v: Store, t: Store, d: int, name: cstring, data: seq<byte>)
    requires Ready(v) && Folder(v, d) && v.free != [] && |name| <= FILENAME_LEN && |data| <= MAX_SIZE
    requires FirstHole(DirSlots(v, d)) < |DirSlots(v, d)| || |v.free| > 1
    requires 0 <= v.free[0] < WORD && Filed(v, t, d, name, data) && Needed(v, d, |data|) <= |v.free|
    ensures var o := t.objs[v.free[0]];
            && |o.chain| == |o.bufs| == (if |data| <= 4088 then 1 else (|data| + 4087) / 4088)
            && o.chain[0] == v.free[0]
            && forall k :: 0 <= k < |data| ==> k / 4088 < |o.bufs| && o.bufs[k / 4088][k % 4088] == data[k]
  {
    var r := Enter(v, d, MYFILE, name, |data|);
    assert |r.0.free| == |v.free| - 1 - (if FirstHole(DirSlots(v, d)) == |DirSlots(v, d)| then 1 else 0) by {
      EnteredSlots(v, d, name, |data|);
    }
    FreshBytes(r.0, v.free[0], data);
  }

  lemma FreshBytes(s: Store, b: int, data: seq<byte>)
    requires b in s.objs && s.objs[b].chain == [b] && s.objs[b].bufs == [Zeros(BUFFER_SIZE)]
    requires BlocksFor(|data|) <= 1 + |s.free|
    ensures b in WriteData(s, b, 0, data).objs
    ensures var o := WriteData(s, b, 0, data).objs[b];
            && |o.chain| == |o.bufs| == (if |data| <= 4088 then 1 else (|data| + 4087) / 4088)
            && o.chain[0] == b
            && forall k :: 0 <= k < |data| ==> k / 4088 < |o.bufs| && o.bufs[k / 4088][k % 4088] == data[k]
  {
    FreshWrite(s, b, data);
    var o := WriteData(s, b, 0, data).objs[b];
    forall k | 0 <= k < |data|
      ensures k / 4088 < |o.bufs| && o.bufs[k / 4088][k % 4088] == data[k]
    {
      ReadBytes(o.bufs, |data|, k);
    }
  }

  /** A mycopyto takes exactly the blocks it needs, or all there are. */
  lemma CopyToBlocks(s: Store, path: cstring, data: seq<byte>, d: int)
    requires Ready(s) && |data| <= MAX_SIZE && ParentOf(s, path) == Some(d) && CanEnter(s, d, path)
    ensures Ready(AfterCopyTo(s, path, data)) && Folder(Vacated(s, d, path), d)
    ensures |AfterCopyTo(s, path, data).free| == Max(0, |Vacated(s, d, path).free| - Needed(Vacated(s, d, path), d, |data|))
  {
    CopyToInv(s, path, data);
    CopyToFiles(s, path, data, d);
    FiledBlocks(Vacated(s, d, path), AfterCopyTo(s, path, data), d, BaseName(path), data);
  }

  lemma FiledBlocks(v: Store, t: Store, d: int, name: cstring, data: seq<byte>)
    requires Ready(v) && Folder(v, d) && v.free != [] && |name| <= FILENAME_LEN && |data| <= MAX_SIZE
    requires FirstHole(DirSlots(v, d)) < |DirSlots(v, d)| || |v.free| > 1
    requires 0 <= v.free[0] < WORD && Filed(v, t, d, name, data)
    ensures |t.free| == Max(0, |v.free| - Needed(v, d, |data|))
  {
    var r := Enter(v, d, MYFILE, name, |data|);
    assert |r.0.free| == |v.free| - 1 - (if FirstHole(DirSlots(v, d)) == |DirSlots(v, d)| then 1 else 0) by {
      EnteredSlots(v, d, name, |data|);
    }
    FreshBlocks(r.0, v.free[0], data);
  }

  lemma FreshBlocks(s: Store, b: int, data: seq<byte>)
    requires b in s.objs && s.objs[b].chain == [b] && s.objs[b].bufs == [Zeros(BUFFER_SIZE)]
    ensures |WriteData(s, b, 0, data).free| == Max(0, |s.free| + 1 - Max(1, BlocksFor(|data|)))
  {
    FreshWrite(s, b, data);
  }

  /** What mycopyto leaves alone: every object but the parent directory and the one overwritten, and in the parent every
      slot but the one overwritten and the one filled. */
  lemma CopyToFrame(s: Store, path: cstring, data: seq<byte>, d: int)
    requires Ready(s) && |data| <= MAX_SIZE && ParentOf(s, path) == Some(d)
    ensures var t, i := AfterCopyTo(s, path, data), Lookup(s, d, path);
            && Folder(t, d) && t.objs[d].depth == s.objs[d].depth
            && (forall h :: h in s.objs && h != d && (i >= 0 ==> h != DirSlots(s, d)[i].firstblock) ==>
                  h in t.objs && t.objs[h] == s.objs[h])
            && |DirSlots(s, d)| <= |DirSlots(t, d)|
            && forall j :: 0 <= j < |DirSlots(s, d)| && j != i && j != FirstHole(DirSlots(Vacated(s, d, path), d)) ==>
                 DirSlots(t, d)[j] == DirSlots(s, d)[j]
  {
    VacatedFrame(s, d, path);
    if CanEnter(s, d, path) {
      CopyToFiles(s, path, data, d);
    } else {
      CopyToRefused(s, path, data, d);
    }
  }

  lemma VacatedFrame(s: Store, d: int, path: cstring)
    requires Ready(s) && Folder(s, d)
    ensures var v, i := Vacated(s, d, path), Lookup(s, d, path);
            && Ready(v) && Folder(v, d) && v.objs[d].depth == s.objs[d].depth
            && DirSlots(v, d) == Cleared(DirSlots(s, d), BaseName(path))
            && (forall h :: h in s.objs && h != d && (i >= 0 ==> h != DirSlots(s, d)[i].firstblock) ==>
                  h in v.objs && v.objs[h] == s.objs[h])
            && (i < 0 ==> v == s)
  {
    VacatedIs(s, d, path);
    if Lookup(s, d, path) >= 0 {
      RemoveAtKeeps(s, d, Lookup(s, d, path));
    }
  }
}
