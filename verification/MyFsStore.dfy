/**
 What the disk of os_day9/myfs_adv.c means: a free list, and chains of blocks
 owned by directories and files. A Store names these chains outright; `spot`
 records for every block the one place it occupies, so that nothing is lost,
 shared or repeated. Represents ties a Store to the links on the disk.
 */
module MyFsStore {
  import opened Bytes
  import opened MyFsBlocks

  const ROOT := 1
  /** The head recorded in the spot of a block on the free list. */
  const FREE := 0

  /** Position pos in the chain of head; on the free list, the number of blocks behind. */
  datatype Spot = Spot(head: int, pos: int)

  /** A directory or file: its blocks in link order, their buffers, and the slot it was created for. */
  datatype Obj = Obj(kind: byte, chain: seq<int>, bufs: seq<buffer>, parent: int, slot: int, depth: nat)

  datatype Store = Store(nblocks: int, free: seq<int>, objs: map<int, Obj>, spot: map<int, Spot>)

  ghost predicate FreeAccounted(s: Store) {
    forall i :: 0 <= i < |s.free| ==>
      s.free[i] in s.spot && s.spot[s.free[i]] == Spot(FREE, |s.free| - 1 - i)
  }

  ghost predicate ChainAccounted(s: Store, h: int)
    requires h in s.objs
  {
    var o := s.objs[h];
    && 1 <= |o.chain| == |o.bufs| && o.chain[0] == h && h != FREE
    && forall i :: 0 <= i < |o.chain| ==> o.chain[i] in s.spot && s.spot[o.chain[i]] == Spot(h, i)
  }

  ghost predicate SpotAccounted(s: Store, b: int)
    requires b in s.spot
  {
    var p := s.spot[b];
    if p.head == FREE then
      0 <= p.pos < |s.free| && s.free[|s.free| - 1 - p.pos] == b
    else
      p.head in s.objs && 0 <= p.pos < |s.objs[p.head].chain| && s.objs[p.head].chain[p.pos] == b
  }

  /** Every block 1..nblocks-1 is free or owned, exactly once. */
  ghost predicate Accounted(s: Store) {
    && FreeAccounted(s)
    && (forall h :: h in s.objs ==> ChainAccounted(s, h))
    && (forall b :: b in s.spot <==> 1 <= b < s.nblocks)
    && (forall b :: b in s.spot ==> SpotAccounted(s, b))
  }

  /** link leads to a list of the last k free blocks; the empty list is any id out of range. */
  ghost predicate FreeLink(s: Store, link: int, k: int)
    requires 0 <= k <= |s.free|
  {
    if k == 0 then link <= 0 || link >= s.nblocks else link == s.free[|s.free| - k]
  }

  ghost predicate BlockRepresents(s: Store, blk: Block, b: int)
    requires Accounted(s) && b in s.spot
  {
    var p := s.spot[b];
    assert SpotAccounted(s, b);
    && blk.id == b
    && if p.head == FREE then FreeLink(s, blk.nextblock, p.pos) && blk.buffer == Zeros(BUFFER_SIZE)
       else
         var o := s.objs[p.head];
         assert ChainAccounted(s, p.head);
         && blk.nextblock == (if p.pos + 1 < |o.chain| then o.chain[p.pos + 1] else -1)
         && blk.buffer == o.bufs[p.pos]
  }

  /** The superblock and blocks on disk hold exactly the free list and chains of s. */
  ghost predicate Represents(s: Store, sb: Superblock, disk: seq<Block>)
    requires Accounted(s)
  {
    && sb.bsize == BLOCK_SIZE && sb.rootblock == ROOT
    && sb.nblocks == s.nblocks <= |disk|
    && s.nblocks <= MAX_BLOCKS + 1
    && FreeLink(s, sb.freeblock, |s.free|)
    && forall b :: 1 <= b < s.nblocks ==> BlockRepresents(s, disk[b], b)
  }

  // ----- the four ways the disk operations change a store

  /** allocate_zero_block for a new directory or file. */
  function Create(s: Store, kind: byte, parent: int, slot: int, depth: nat): Store
    requires s.free != []
  {
    var b := s.free[0];
    s.(free := s.free[1..],
       objs := s.objs[b := Obj(kind, [b], [Zeros(BUFFER_SIZE)], parent, slot, depth)],
       spot := s.spot[b := Spot(b, 0)])
  }

  /** allocate_zero_block linked behind the last block of h. */
  function Grow(s: Store, h: int): Store
    requires s.free != [] && h in s.objs
  {
    var b := s.free[0];
    var o := s.objs[h];
    s.(free := s.free[1..],
       objs := s.objs[h := o.(chain := o.chain + [b], bufs := o.bufs + [Zeros(BUFFER_SIZE)])],
       spot := s.spot[b := Spot(h, |o.chain|)])
  }

  /** writeblock of a new buffer into the i-th block of h. */
  function SetBuf(s: Store, h: int, i: int, buf: buffer): Store
    requires h in s.objs && 0 <= i < |s.objs[h].bufs|
  {
    var o := s.objs[h];
    s.(objs := s.objs[h := o.(bufs := o.bufs[i := buf])])
  }

  /** free_block_chain of h. */
  function Release(s: Store, h: int): Store
    requires h in s.objs
  {
    s.(free := Reverse(s.objs[h].chain) + s.free,
       objs := s.objs - {h},
       spot := map b | b in s.spot :: if s.spot[b].head == h then Spot(FREE, |s.free| + s.spot[b].pos) else s.spot[b])
  }

  /** One free_block inside free_block_chain: the rest of the chain is headed by its next block. */
  function DropHead(s: Store, h: int): Store
    requires h in s.objs && |s.objs[h].chain| > 0 && |s.objs[h].bufs| > 0
  {
    var o := s.objs[h];
    var rest := if |o.chain| == 1 then map[] else map[o.chain[1] := o.(chain := o.chain[1..], bufs := o.bufs[1..])];
    s.(free := [h] + s.free,
       objs := (s.objs - {h}) + rest,
       spot := map b | b in s.spot ::
         if s.spot[b].head != h then s.spot[b]
         else if s.spot[b].pos == 0 || |o.chain| == 1 then Spot(FREE, |s.free|)
         else Spot(o.chain[1], s.spot[b].pos - 1))
  }

  lemma HeadSpot(s: Store, h: int)
    requires Accounted(s) && h in s.objs
    ensures 1 <= h < s.nblocks && s.spot[h] == Spot(h, 0)
  {
  }

  lemma CreateAccounted(s: Store, kind: byte, parent: int, slot: int, depth: nat)
    requires Accounted(s) && s.free != []
    ensures Accounted(Create(s, kind, parent, slot, depth))
    ensures s.free[0] !in s.objs
  {
  }

  lemma GrowAccounted(s: Store, h: int)
    requires Accounted(s) && s.free != [] && h in s.objs
    ensures Accounted(Grow(s, h))
  {
    var b, t := s.free[0], Grow(s, h);
    assert s.spot[b].head == FREE;
    assert ChainAccounted(s, h);
    forall g | g in t.objs
      ensures ChainAccounted(t, g)
    {
      assert ChainAccounted(s, g);
    }
    forall c | c in t.spot
      ensures SpotAccounted(t, c)
    {
      if c != b {
        assert SpotAccounted(s, c);
      }
    }
  }

  lemma SetBufAccounted(s: Store, h: int, i: int, buf: buffer)
    requires Accounted(s) && h in s.objs && 0 <= i < |s.objs[h].bufs|
    ensures Accounted(SetBuf(s, h, i, buf))
  {
  }

  lemma ReleaseAccounted(s: Store, h: int)
    requires Accounted(s) && h in s.objs
    ensures Accounted(Release(s, h))
  {
    var t := Release(s, h);
    var chain := s.objs[h].chain;
    assert ChainAccounted(s, h);
    forall i | 0 <= i < |t.free|
      ensures t.free[i] in t.spot && t.spot[t.free[i]] == Spot(FREE, |t.free| - 1 - i)
    {
      if i < |chain| {
        assert t.free[i] == chain[|chain| - 1 - i];
      } else {
        assert t.free[i] == s.free[i - |chain|];
      }
    }
    forall g | g in t.objs
      ensures ChainAccounted(t, g)
    {
      assert ChainAccounted(s, g);
    }
    forall c | c in t.spot
      ensures SpotAccounted(t, c)
    {
      assert SpotAccounted(s, c);
    }
  }

  lemma DropHeadNext(s: Store, h: int)
    requires Accounted(s) && h in s.objs && |s.objs[h].chain| > 1
    ensures s.objs[h].chain[1] != h && s.objs[h].chain[1] !in s.objs
  {
  }

  lemma DropHeadChain(s: Store, h: int, g: int)
    requires Accounted(s) && h in s.objs && |s.objs[h].chain| > 0 && |s.objs[h].bufs| > 0
    requires g in DropHead(s, h).objs
    ensures ChainAccounted(DropHead(s, h), g)
  {
  }

  lemma DropHeadSpot(s: Store, h: int, c: int)
    requires Accounted(s) && h in s.objs && |s.objs[h].chain| > 0 && |s.objs[h].bufs| > 0
    requires c in s.spot
    ensures SpotAccounted(DropHead(s, h), c)
  {
  }

  lemma DropHeadAccounted(s: Store, h: int)
    requires Accounted(s) && h in s.objs && |s.objs[h].chain| > 0 && |s.objs[h].bufs| > 0
    ensures Accounted(DropHead(s, h))
  {
    var t := DropHead(s, h);
    HeadSpot(s, h);
    forall g | g in t.objs
      ensures ChainAccounted(t, g)
    {
      DropHeadChain(s, h, g);
    }
    forall c | c in t.spot
      ensures SpotAccounted(t, c)
    {
      DropHeadSpot(s, h, c);
    }
  }

  lemma ReleaseStepSpot(s: Store, h: int, b: int)
    requires Accounted(s) && h in s.objs && |s.objs[h].chain| > 1 && |s.objs[h].bufs| > 0 && b in s.spot
    requires s.objs[h].chain[1] in DropHead(s, h).objs
    ensures b in DropHead(s, h).spot
    ensures Release(DropHead(s, h), s.objs[h].chain[1]).spot[b] == Release(s, h).spot[b]
  {
    assert SpotAccounted(s, b);
    DropHeadNext(s, h);
  }

  lemma ReleaseLast(s: Store, h: int)
    requires Accounted(s) && h in s.objs && |s.objs[h].chain| == 1 && |s.objs[h].bufs| > 0
    ensures Release(s, h) == DropHead(s, h)
  {
    var u, v := DropHead(s, h), Release(s, h);
    assert Reverse(s.objs[h].chain) == [h] by { assert ChainAccounted(s, h); }
    assert u.objs == v.objs;
    forall b | b in s.spot
      ensures u.spot[b] == v.spot[b]
    {
      assert SpotAccounted(s, b);
    }
    assert u.spot == v.spot;
  }

  lemma ReleaseRest(s: Store, h: int)
    requires Accounted(s) && h in s.objs && |s.objs[h].chain| > 1 && |s.objs[h].bufs| > 0
    requires s.objs[h].chain[1] in DropHead(s, h).objs && s.objs[h].chain[0] == h
    ensures Release(DropHead(s, h), s.objs[h].chain[1]) == Release(s, h)
  {
    var chain := s.objs[h].chain;
    var u, v := Release(DropHead(s, h), chain[1]), Release(s, h);
    DropHeadNext(s, h);
    assert u.free == v.free by { assert Reverse(chain) == Reverse(chain[1..]) + [h]; }
    assert u.objs == v.objs;
    forall b | b in s.spot
      ensures u.spot[b] == v.spot[b]
    {
      ReleaseStepSpot(s, h, b);
    }
    assert u.spot == v.spot;
  }

  /** Freeing a chain block by block, each link read before its block is rewritten, reverses it onto the free list. */
  lemma ReleaseStep(s: Store, h: int)
    requires Accounted(s) && h in s.objs
    ensures |s.objs[h].chain| > 0 && |s.objs[h].bufs| > 0
    ensures |s.objs[h].chain| == 1 ==> Release(s, h) == DropHead(s, h)
    ensures |s.objs[h].chain| > 1 ==>
              var t := DropHead(s, h);
              s.objs[h].chain[1] in t.objs && Release(t, s.objs[h].chain[1]) == Release(s, h)
  {
    assert ChainAccounted(s, h);
    if |s.objs[h].chain| == 1 {
      ReleaseLast(s, h);
    } else {
      ReleaseRest(s, h);
    }
  }

  // ----- the same, on the disk

  lemma CreateOther(s: Store, blk: Block, kind: byte, parent: int, slot: int, depth: nat, c: int)
    requires Accounted(s) && s.free != [] && Accounted(Create(s, kind, parent, slot, depth))
    requires c in s.spot && c != s.free[0] && BlockRepresents(s, blk, c)
    ensures BlockRepresents(Create(s, kind, parent, slot, depth), blk, c)
  {
    assert SpotAccounted(s, c);
    if s.spot[c].head == FREE {
      CreateLink(s, kind, parent, slot, depth, blk.nextblock, s.spot[c].pos);
    } else {
      assert s.spot[c].head != s.free[0] by { CreateAccounted(s, kind, parent, slot, depth); }
    }
  }

  lemma CreateLink(s: Store, kind: byte, parent: int, slot: int, depth: nat, link: int, k: int)
    requires 0 <= k < |s.free| && FreeLink(s, link, k)
    ensures FreeLink(Create(s, kind, parent, slot, depth), link, k)
  {
  }

  /** The first link of the free list is its first block, which links to the rest. */
  lemma FreeHead(s: Store, sb: Superblock, disk: seq<Block>)
    requires Accounted(s) && Represents(s, sb, disk) && s.free != []
    ensures sb.freeblock == s.free[0] && 1 <= s.free[0] < s.nblocks && s.free[0] in s.spot
    ensures disk[s.free[0]].id == s.free[0] && FreeLink(s, disk[s.free[0]].nextblock, |s.free| - 1)
  {
    var b := s.free[0];
    assert b in s.spot && SpotAccounted(s, b);
    assert BlockRepresents(s, disk[b], b);
  }

  lemma CreateRepresents(s: Store, sb: Superblock, disk: seq<Block>, kind: byte, parent: int, slot: int, depth: nat)
    requires Accounted(s) && Represents(s, sb, disk) && s.free != []
    ensures sb.freeblock == s.free[0] && 1 <= s.free[0] < s.nblocks
    ensures var b := s.free[0];
            var t := Create(s, kind, parent, slot, depth);
            && Accounted(t)
            && Represents(t, sb.(freeblock := disk[b].nextblock),
                          disk[b := disk[b].(buffer := Zeros(BUFFER_SIZE), nextblock := -1)])
  {
    CreateAccounted(s, kind, parent, slot, depth);
    FreeHead(s, sb, disk);
    var b, t := s.free[0], Create(s, kind, parent, slot, depth);
    CreateLink(s, kind, parent, slot, depth, disk[b].nextblock, |s.free| - 1);
    var disk' := disk[b := disk[b].(buffer := Zeros(BUFFER_SIZE), nextblock := -1)];
    forall c | 1 <= c < t.nblocks
      ensures BlockRepresents(t, disk'[c], c)
    {
      if c != b {
        assert BlockRepresents(s, disk[c], c);
        CreateOther(s, disk[c], kind, parent, slot, depth, c);
      }
    }
  }

  function DiskOfGrow(s: Store, disk: seq<Block>, h: int): seq<Block>
    requires s.free != [] && h in s.objs && s.objs[h].chain != [] && 0 <= s.free[0] < |disk|
    requires 0 <= s.objs[h].chain[|s.objs[h].chain| - 1] < |disk|
  {
    var b := s.free[0];
    var last := s.objs[h].chain[|s.objs[h].chain| - 1];
    disk[b := disk[b].(buffer := Zeros(BUFFER_SIZE), nextblock := -1)][last := disk[last].(nextblock := b)]
  }

  lemma GrowLast(s: Store, h: int)
    requires Accounted(s) && s.free != [] && h in s.objs
    ensures |s.objs[h].chain| > 0
    ensures 1 <= s.free[0] < s.nblocks && 1 <= s.objs[h].chain[|s.objs[h].chain| - 1] < s.nblocks
    ensures s.free[0] != s.objs[h].chain[|s.objs[h].chain| - 1]
  {
  }

  lemma GrowNew(s: Store, blk: Block, h: int)
    requires Accounted(s) && s.free != [] && h in s.objs && Accounted(Grow(s, h)) && blk.id == s.free[0]
    requires s.free[0] in s.spot
    ensures BlockRepresents(Grow(s, h), blk.(buffer := Zeros(BUFFER_SIZE), nextblock := -1), s.free[0])
  {
    assert ChainAccounted(s, h);
  }

  /** A block of the chain that grows: only its last one gets a new link. */
  lemma GrowOwn(s: Store, blk: Block, h: int, c: int)
    requires Accounted(s) && s.free != [] && h in s.objs && Accounted(Grow(s, h))
    requires c in s.spot && s.spot[c].head == h && BlockRepresents(s, blk, c)
    ensures |s.objs[h].chain| > 0
    ensures var last := s.objs[h].chain[|s.objs[h].chain| - 1];
            BlockRepresents(Grow(s, h), if c == last then blk.(nextblock := s.free[0]) else blk, c)
  {
    var chain, i := s.objs[h].chain, s.spot[c].pos;
    assert ChainAccounted(s, h) && SpotAccounted(s, c);
    assert s.spot[s.free[0]].head == FREE;
    assert chain[|chain| - 1] == c <==> i == |chain| - 1;
  }

  lemma GrowOther(s: Store, blk: Block, h: int, c: int)
    requires Accounted(s) && s.free != [] && h in s.objs && Accounted(Grow(s, h))
    requires c in s.spot && s.spot[c].head != h && c != s.free[0] && BlockRepresents(s, blk, c)
    ensures BlockRepresents(Grow(s, h), blk, c)
  {
    assert SpotAccounted(s, c);
    if s.spot[c].head == FREE {
      GrowLink(s, h, blk.nextblock, s.spot[c].pos);
    }
  }

  lemma GrowLink(s: Store, h: int, link: int, k: int)
    requires h in s.objs && 0 <= k < |s.free| && FreeLink(s, link, k)
    ensures FreeLink(Grow(s, h), link, k)
  {
  }

  lemma GrowBlock(s: Store, sb: Superblock, disk: seq<Block>, h: int, c: int)
    requires Accounted(s) && Represents(s, sb, disk) && s.free != [] && h in s.objs && 1 <= c < s.nblocks
    requires Accounted(Grow(s, h))
    requires |s.objs[h].chain| > 0
    requires 1 <= s.free[0] < s.nblocks && 1 <= s.objs[h].chain[|s.objs[h].chain| - 1] < s.nblocks
    requires s.free[0] != s.objs[h].chain[|s.objs[h].chain| - 1]
    ensures BlockRepresents(Grow(s, h), DiskOfGrow(s, disk, h)[c], c)
  {
    var last := s.objs[h].chain[|s.objs[h].chain| - 1];
    assert BlockRepresents(s, disk[c], c);
    if c == s.free[0] {
      GrowNew(s, disk[c], h);
    } else if s.spot[c].head == h {
      GrowOwn(s, disk[c], h, c);
    } else {
      assert c != last by { assert ChainAccounted(s, h); }
      GrowOther(s, disk[c], h, c);
    }
  }

  lemma GrowRepresents(s: Store, sb: Superblock, disk: seq<Block>, h: int)
    requires Accounted(s) && Represents(s, sb, disk) && s.free != [] && h in s.objs
    requires |s.objs[h].chain| > 0
    requires 1 <= s.free[0] < s.nblocks && 1 <= s.objs[h].chain[|s.objs[h].chain| - 1] < s.nblocks
    requires s.free[0] != s.objs[h].chain[|s.objs[h].chain| - 1]
    ensures sb.freeblock == s.free[0]
    ensures Accounted(Grow(s, h))
    ensures Represents(Grow(s, h), sb.(freeblock := disk[s.free[0]].nextblock), DiskOfGrow(s, disk, h))
  {
    GrowAccounted(s, h);
    FreeHead(s, sb, disk);
    var t := Grow(s, h);
    GrowLink(s, h, disk[s.free[0]].nextblock, |s.free| - 1);
    forall c | 1 <= c < t.nblocks
      ensures BlockRepresents(t, DiskOfGrow(s, disk, h)[c], c)
    {
      GrowBlock(s, sb, disk, h, c);
    }
  }

  lemma SetBufRepresents(s: Store, sb: Superblock, disk: seq<Block>, h: int, i: int, buf: buffer)
    requires Accounted(s) && Represents(s, sb, disk) && h in s.objs && 0 <= i < |s.objs[h].bufs|
    ensures i < |s.objs[h].chain| && 1 <= s.objs[h].chain[i] < s.nblocks
    ensures var b := s.objs[h].chain[i];
            var t := SetBuf(s, h, i, buf);
            Accounted(t) && Represents(t, sb, disk[b := disk[b].(buffer := buf)])
  {
    SetBufAccounted(s, h, i, buf);
    assert ChainAccounted(s, h);
    var b, t := s.objs[h].chain[i], SetBuf(s, h, i, buf);
    assert b in s.spot;
    var disk' := disk[b := disk[b].(buffer := buf)];
    forall c | 1 <= c < t.nblocks
      ensures BlockRepresents(t, disk'[c], c)
    {
      assert BlockRepresents(s, disk[c], c);
      assert SpotAccounted(s, c) && SpotAccounted(t, c);
    }
  }

  function DiskOfFree(sb: Superblock, disk: seq<Block>, b: int): seq<Block>
    requires 0 <= b < |disk|
  {
    disk[b := disk[b].(buffer := Zeros(BUFFER_SIZE), nextblock := sb.freeblock)]
  }

  lemma DropHeadFreed(s: Store, blk: Block, h: int)
    requires Accounted(s) && h in s.objs && |s.objs[h].chain| > 0 && |s.objs[h].bufs| > 0
    requires h in s.spot && Accounted(DropHead(s, h))
    requires blk.id == h && FreeLink(s, blk.nextblock, |s.free|) && blk.buffer == Zeros(BUFFER_SIZE)
    ensures BlockRepresents(DropHead(s, h), blk, h)
  {
  }

  lemma DropHeadOther(s: Store, h: int, c: int)
    requires Accounted(s) && h in s.objs && |s.objs[h].chain| > 0 && |s.objs[h].bufs| > 0
    requires c in s.spot && s.spot[c].head != h
    ensures var t := DropHead(s, h);
            && t.spot[c] == s.spot[c]
            && (s.spot[c].head != FREE ==> s.spot[c].head in t.objs && t.objs[s.spot[c].head] == s.objs[s.spot[c].head])
  {
  }

  lemma DropHeadBlock(s: Store, blk: Block, h: int, c: int)
    requires Accounted(s) && h in s.objs && |s.objs[h].chain| > 0 && |s.objs[h].bufs| > 0
    requires c in s.spot && c != h && BlockRepresents(s, blk, c)
    requires Accounted(DropHead(s, h))
    ensures BlockRepresents(DropHead(s, h), blk, c)
  {
    var t := DropHead(s, h);
    var p := s.spot[c];
    assert SpotAccounted(s, c) && SpotAccounted(t, c);
    if p.head == h {
      assert p.pos > 0;
      DropHeadRest(s, h, p.pos);
    } else {
      DropHeadOther(s, h, c);
      if p.head == FREE {
        DropHeadLink(s, h, blk.nextblock, p.pos);
      }
    }
  }

  lemma DropHeadLink(s: Store, h: int, link: int, k: int)
    requires h in s.objs && |s.objs[h].chain| > 0 && |s.objs[h].bufs| > 0
    requires 0 <= k <= |s.free| && FreeLink(s, link, k)
    ensures FreeLink(DropHead(s, h), link, k)
  {
  }

  lemma DropHeadRest(s: Store, h: int, i: int)
    requires Accounted(s) && h in s.objs && 0 < i < |s.objs[h].chain| && |s.objs[h].bufs| > 0
    ensures var o := s.objs[h];
            var t := DropHead(s, h);
            var r := o.chain[1];
            && |o.bufs| == |o.chain| && o.chain[i] in t.spot && r in t.objs && r != FREE
            && t.spot[o.chain[i]] == Spot(r, i - 1)
            && |t.objs[r].chain| == |t.objs[r].bufs| == |o.chain| - 1
            && t.objs[r].bufs[i - 1] == o.bufs[i]
            && (i + 1 < |o.chain| ==> t.objs[r].chain[i] == o.chain[i + 1])
  {
  }

  lemma DropHeadRepresents(s: Store, sb: Superblock, disk: seq<Block>, h: int)
    requires Accounted(s) && Represents(s, sb, disk) && h in s.objs
    ensures 1 <= h < s.nblocks && |s.objs[h].chain| > 0 && |s.objs[h].bufs| > 0
    ensures Accounted(DropHead(s, h))
    ensures Represents(DropHead(s, h), sb.(freeblock := h),
                       DiskOfFree(sb, disk, h))
  {
    HeadSpot(s, h);
    assert ChainAccounted(s, h);
    DropHeadAccounted(s, h);
    forall c | 1 <= c < s.nblocks
      ensures BlockRepresents(DropHead(s, h),
                              DiskOfFree(sb, disk, h)[c], c)
    {
      if c == h {
        DropHeadFreed(s, DiskOfFree(sb, disk, h)[c], c);
      } else {
        DropHeadBlock(s, disk[c], h, c);
      }
    }
  }

  /** Free blocks are erased: nothing of a removed file can be read back from them. */
  lemma FreeIsErased(s: Store, sb: Superblock, disk: seq<Block>, i: int)
    requires Accounted(s) && Represents(s, sb, disk) && 0 <= i < |s.free|
    ensures 1 <= s.free[i] < |disk| && forall k :: 0 <= k < 4088 ==> disk[s.free[i]].buffer[k] == 0
  {
    assert s.free[i] in s.spot;
    assert BlockRepresents(s, disk[s.free[i]], s.free[i]);
  }

  /** What readblock finds at the i-th block of h. */
  lemma ChainOnDisk(s: Store, sb: Superblock, disk: seq<Block>, h: int, i: int)
    requires Accounted(s) && Represents(s, sb, disk) && h in s.objs && 0 <= i < |s.objs[h].chain|
    ensures |s.objs[h].bufs| == |s.objs[h].chain|
    ensures var o := s.objs[h];
            var b := o.chain[i];
            && 1 <= b < s.nblocks
            && disk[b].id == b && disk[b].buffer == o.bufs[i]
            && disk[b].nextblock == if i + 1 < |o.chain| then o.chain[i + 1] else -1
  {
  }
}
