/**
 The 0-terminated block chains of os_day9/sample.c: free list, the copy loops of
 mycopyTo and mycopyFrom, the free loop of myrm, and access to the k-th block.
 */
module SampleChains {
  import opened Bytes

  const DATA_SIZE := 4088

  type buffer = b: seq<byte> | |b| == DATA_SIZE witness Zeros(DATA_SIZE)

  datatype DataBlock = DataBlock(blockId: int, data: buffer, nextBlock: int)

  /** Every block carries its own number. */
  predicate Labelled(disk: seq<DataBlock>) {
    forall b :: 0 <= b < |disk| ==> disk[b].blockId == b
  }

  /** From b the links lead through ids and end with 0. */
  ghost predicate Chain(disk: seq<DataBlock>, b: int, ids: seq<int>)
    decreases |ids|
  {
    if ids == [] then b == 0
    else b == ids[0] && 0 < b < |disk| && b !in ids[1..] && Chain(disk, disk[b].nextBlock, ids[1..])
  }

  /** Blocks off the chain do not matter to it, nor do the data of those on it. */
  lemma {:induction false} ChainFrame(disk: seq<DataBlock>, disk': seq<DataBlock>, b: int, ids: seq<int>)
    requires Chain(disk, b, ids) && |disk'| == |disk|
    requires forall c :: c in ids && 0 < c < |disk| ==> disk'[c].nextBlock == disk[c].nextBlock
    ensures Chain(disk', b, ids)
    decreases |ids|
  {
    if ids != [] {
      ChainFrame(disk, disk', disk[b].nextBlock, ids[1..]);
    }
  }

  lemma {:induction false} ChainAt(disk: seq<DataBlock>, b: int, ids: seq<int>, k: nat)
    requires Chain(disk, b, ids) && k <= |ids|
    ensures Chain(disk, if k < |ids| then ids[k] else 0, ids[k..])
    ensures k < |ids| ==> 0 < ids[k] < |disk| && ids[k] !in ids[..k]
    ensures k < |ids| ==> disk[ids[k]].nextBlock == if k + 1 < |ids| then ids[k + 1] else 0
    decreases k
  {
    if k > 0 {
      ChainAt(disk, disk[b].nextBlock, ids[1..], k - 1);
      assert ids[1..][k - 1..] == ids[k..];
      if k < |ids| {
        assert ids[1..][k - 1] == ids[k];
        assert ids[..k] == [ids[0]] + ids[1..][..k - 1];
      }
    } else if ids != [] {
      assert Chain(disk, disk[b].nextBlock, ids[1..]);
    }
  }

  /** Two chains, the last link of the first leading into the second. */
  lemma {:induction false} ChainJoin(disk: seq<DataBlock>, b: int, ids: seq<int>, rest: seq<int>)
    requires ids != [] && b == ids[0]
    requires forall i :: 0 <= i < |ids| ==> 0 < ids[i] < |disk| && ids[i] !in rest
    requires forall i, j :: 0 <= i < j < |ids| ==> ids[i] != ids[j]
    requires forall i :: 0 <= i < |ids| - 1 ==> disk[ids[i]].nextBlock == ids[i + 1]
    requires Chain(disk, disk[ids[|ids| - 1]].nextBlock, rest)
    ensures Chain(disk, b, ids + rest)
    decreases |ids|
  {
    var all := ids + rest;
    assert all[1..] == ids[1..] + rest;
    if |ids| == 1 {
      assert all[1..] == rest;
    } else {
      ChainJoin(disk, ids[1], ids[1..], rest);
      assert disk[ids[0]].nextBlock == ids[1];
    }
  }

  // ----- the bytes of a file

  predicate InRange(disk: seq<DataBlock>, ids: seq<int>) {
    forall i :: 0 <= i < |ids| ==> 0 <= ids[i] < |disk|
  }

  /** How much of the last block belongs to a file of this size. */
  function LastBytes(size: nat): nat {
    if size % DATA_SIZE == 0 && size > 0 then DATA_SIZE else size % DATA_SIZE
  }

  /** What mycopyFrom writes out: whole blocks, and of the last one as much as the size says. */
  function Output(disk: seq<DataBlock>, ids: seq<int>, size: nat): (out: seq<byte>)
    requires InRange(disk, ids)
    ensures |out| == if ids == [] then 0 else DATA_SIZE * (|ids| - 1) + LastBytes(size)
    decreases |ids|
  {
    if ids == [] then []
    else if |ids| == 1 then disk[ids[0]].data[..LastBytes(size)]
    else disk[ids[0]].data + Output(disk, ids[1..], size)
  }

  lemma {:induction false} ChainInRange(disk: seq<DataBlock>, b: int, ids: seq<int>)
    requires Chain(disk, b, ids)
    ensures InRange(disk, ids)
    decreases |ids|
  {
    if ids != [] {
      ChainInRange(disk, disk[b].nextBlock, ids[1..]);
    }
  }

  /** The pieces of data are in the first blocks of ids. */
  ghost predicate Holds(disk: seq<DataBlock>, ids: seq<int>, data: seq<byte>) {
    && |data| <= DATA_SIZE * |ids|
    && InRange(disk, ids)
    && forall j :: 0 <= j < |data| ==> disk[ids[j / DATA_SIZE]].data[j % DATA_SIZE] == data[j]
  }

  lemma HoldsRest(disk: seq<DataBlock>, ids: seq<int>, data: seq<byte>)
    requires Holds(disk, ids, data) && |ids| > 1
    ensures Holds(disk, ids[1..], data[Min(|data|, DATA_SIZE)..])
  {
  }

  lemma HoldsFirst(disk: seq<DataBlock>, ids: seq<int>, data: seq<byte>)
    requires Holds(disk, ids, data) && ids != []
    ensures disk[ids[0]].data[..Min(|data|, DATA_SIZE)] == data[..Min(|data|, DATA_SIZE)]
  {
  }

  lemma TakeJoin(a: seq<byte>, b: seq<byte>, data: seq<byte>, n: nat)
    requires n == Min(|data|, |a|) && a[..n] == data[..n] && |data| - n <= |b| && b[..|data| - n] == data[n..]
    ensures |data| <= |a + b| && (a + b)[..|data|] == data
  {
  }

  lemma {:induction false} OutputStarts(disk: seq<DataBlock>, ids: seq<int>, data: seq<byte>, size: nat)
    requires Holds(disk, ids, data) && ids != [] && |data| <= DATA_SIZE * (|ids| - 1) + LastBytes(size)
    ensures Output(disk, ids, size)[..|data|] == data
    decreases |ids|
  {
    HoldsFirst(disk, ids, data);
    if |ids| > 1 {
      HoldsRest(disk, ids, data);
      OutputStarts(disk, ids[1..], data[Min(|data|, DATA_SIZE)..], size);
      TakeJoin(disk[ids[0]].data, Output(disk, ids[1..], size), data, Min(|data|, DATA_SIZE));
    }
  }

  /** The chain a copy of size bytes leaves behind, when free was the free list: the blocks it took, if the last piece was
      a short one; otherwise the link of the last block taken was never written, and still leads on through the free list. */
  function FileChain(free: seq<int>, size: nat): seq<int>
    requires size / DATA_SIZE < |free|
  {
    if size % DATA_SIZE > 0 then free[..size / DATA_SIZE + 1] else free
  }

  /** The round trip works exactly for sizes that are not multiples of the block size, and for an empty file
      that took the very last free block. */
  lemma RoundTripIff(disk: seq<DataBlock>, free: seq<int>, data: seq<byte>)
    requires |data| / DATA_SIZE < |free| && Holds(disk, FileChain(free, |data|), data)
    ensures Output(disk, FileChain(free, |data|), |data|) == data <==>
            |data| % DATA_SIZE > 0 || (data == [] && |free| == 1)
  {
    var ids := FileChain(free, |data|);
    var out := Output(disk, ids, |data|);
    if |data| % DATA_SIZE > 0 {
      OutputStarts(disk, ids, data, |data|);
      assert out[..|data|] == out;
    }
  }

  /** When the copy leaves the file and the free list without a common block: again exactly when the last piece was
      short, or when nothing was left on the free list. */
  lemma SharedIff(free: seq<int>, size: nat)
    requires size / DATA_SIZE < |free| && forall i, j :: 0 <= i < j < |free| ==> free[i] != free[j]
    ensures (forall b :: b in FileChain(free, size) ==> b !in free[size / DATA_SIZE + 1..]) <==>
            size % DATA_SIZE > 0 || |free| == size / DATA_SIZE + 1
  {
    var k := size / DATA_SIZE;
    if size % DATA_SIZE > 0 {
      assert FileChain(free, size) == free[..k + 1];
    } else if |free| > k + 1 {
      assert free[k + 1] in free && free[k + 1] == free[k + 1..][0];
    }
  }

  lemma ChainDistinct(disk: seq<DataBlock>, b: int, ids: seq<int>)
    requires Chain(disk, b, ids)
    ensures InRange(disk, ids)
    ensures forall i, j :: 0 <= i < j < |ids| ==> ids[i] != ids[j]
    ensures forall i :: 0 <= i < |ids| ==> 0 < ids[i] && disk[ids[i]].nextBlock == if i + 1 < |ids| then ids[i + 1] else 0
  {
    forall i | 0 <= i < |ids|
      ensures 0 < ids[i] < |disk| && ids[i] !in ids[..i]
      ensures disk[ids[i]].nextBlock == if i + 1 < |ids| then ids[i + 1] else 0
    {
      ChainAt(disk, b, ids, i);
    }
    forall i, j | 0 <= i < j < |ids|
      ensures ids[i] != ids[j]
    {
      assert ids[..j][i] == ids[i];
    }
  }

  /** A list that reaches the start of a way along the links goes that way. */
  lemma {:induction false} ListFollows(disk: seq<DataBlock>, b: int, list: seq<int>, k: nat, path: seq<int>)
    requires Chain(disk, b, list) && k < |list| && path != [] && list[k] == path[0] && 0 !in path
    requires forall i :: 0 <= i < |path| - 1 ==> 0 <= path[i] < |disk| && disk[path[i]].nextBlock == path[i + 1]
    ensures k + |path| <= |list| && forall i :: 0 <= i < |path| ==> list[k + i] == path[i]
    decreases |path|
  {
    if |path| > 1 {
      ChainAt(disk, b, list, k);
      ListFollows(disk, b, list, k + 1, path[1..]);
      forall i | 0 <= i < |path|
        ensures list[k + i] == path[i]
      {
        if i > 0 {
          assert list[k + 1 + (i - 1)] == path[1..][i - 1];
        }
      }
    }
  }

  /** What was freed before the i-th block: the block before it, or before that the old head of the free list. */
  function Before(ids: seq<int>, i: nat, was: int): int
    requires i <= |ids|
  {
    if i == 0 then was else ids[i - 1]
  }

  /** Blocks of the chain link back, the others are as before. */
  ghost predicate Turned(disk: seq<DataBlock>, disk': seq<DataBlock>, ids: seq<int>, was: int) {
    && |disk'| == |disk|
    && (forall i :: 0 <= i < |ids| ==> 0 < ids[i] < |disk| && disk'[ids[i]].nextBlock == Before(ids, i, was))
    && forall b :: 0 <= b < |disk| && b !in ids ==> disk'[b] == disk[b]
  }

  lemma TurnStep(disk: seq<DataBlock>, disk': seq<DataBlock>, ids: seq<int>, k: nat, was: int)
    requires k < |ids| && Turned(disk, disk', ids[..k], was) && 0 < ids[k] < |disk| && ids[k] !in ids[..k]
    ensures disk'[ids[k]] == disk[ids[k]]
    ensures Turned(disk, disk'[ids[k] := disk'[ids[k]].(nextBlock := Before(ids, k, was))], ids[..k + 1], was)
  {
    assert ids[..k + 1] == ids[..k] + [ids[k]];
    TurnOne(disk, disk', ids[..k], ids[k], was);
  }

  lemma TurnOne(disk: seq<DataBlock>, disk': seq<DataBlock>, ids: seq<int>, b: int, was: int)
    requires Turned(disk, disk', ids, was) && 0 < b < |disk| && b !in ids
    ensures disk'[b] == disk[b]
    ensures Turned(disk, disk'[b := disk'[b].(nextBlock := Before(ids, |ids|, was))], ids + [b], was)
  {
    var next, turned := ids + [b], disk'[b := disk'[b].(nextBlock := Before(ids, |ids|, was))];
    forall i | 0 <= i < |next|
      ensures 0 < next[i] < |disk| && turned[next[i]].nextBlock == Before(next, i, was)
    {
      if i < |ids| {
        assert next[i] == ids[i] && Before(next, i, was) == Before(ids, i, was);
      }
    }
    forall c | 0 <= c < |disk| && c !in next
      ensures turned[c] == disk[c]
    {
      assert c != next[|ids|] && forall i :: 0 <= i < |ids| ==> ids[i] == next[i];
    }
  }

  lemma BackLinks(disk: seq<DataBlock>, disk': seq<DataBlock>, ids: seq<int>, was: int)
    requires Turned(disk, disk', ids, was) && ids != []
    ensures var back := Reverse(ids);
            && back[0] == ids[|ids| - 1] && back[|back| - 1] == ids[0]
            && (forall i :: 0 <= i < |back| ==> 0 < back[i] < |disk'| && back[i] in ids)
            && (forall i :: 0 <= i < |back| - 1 ==> disk'[back[i]].nextBlock == back[i + 1])
            && disk'[back[|back| - 1]].nextBlock == was
  {
    var back := Reverse(ids);
    forall i | 0 <= i < |back|
      ensures 0 < back[i] < |disk'| && back[i] in ids
      ensures disk'[back[i]].nextBlock == if i + 1 < |back| then back[i + 1] else was
    {
      var m := |ids| - 1 - i;
      assert back[i] == ids[m];
      if m > 0 {
        assert back[i + 1] == ids[m - 1];
      }
    }
  }

  /** A chain and the free list with a common block: the way from the last block of the chain back to its first, on to the
      free list, and along it to the first common block. */
  lemma SharedPath(disk: seq<DataBlock>, disk': seq<DataBlock>, ids: seq<int>, was: int, free: seq<int>, m: nat)
    requires Turned(disk, disk', ids, was) && Chain(disk, was, free)
    requires ids != [] && m < |free| && forall i :: 0 <= i < m ==> free[i] !in ids
    ensures var path := Reverse(ids) + free[..m + 1];
            && path[0] == ids[|ids| - 1] && 0 !in path
            && forall i :: 0 <= i < |path| - 1 ==> 0 <= path[i] < |disk'| && disk'[path[i]].nextBlock == path[i + 1]
  {
    BackLinks(disk, disk', ids, was);
    ChainDistinct(disk, was, free);
    var back := Reverse(ids);
    var path := back + free[..m + 1];
    forall i | 0 <= i < |path|
      ensures 0 < path[i] < |disk'|
      ensures i < |path| - 1 ==> disk'[path[i]].nextBlock == path[i + 1]
    {
      if i >= |back| {
        assert path[i] == free[i - |back|];
      }
    }
  }

  lemma {:induction false} FirstShared(ids: seq<int>, free: seq<int>, m: nat) returns (k: nat)
    requires m <= |free| && (forall i :: 0 <= i < m ==> free[i] !in ids) && exists b :: b in free && b in ids
    ensures k < |free| && free[k] in ids && forall i :: 0 <= i < k ==> free[i] !in ids
    decreases |free| - m
  {
    if m < |free| && free[m] in ids {
      return m;
    }
    assert m < |free|;
    k := FirstShared(ids, free, m + 1);
  }

  lemma TurnedApart(disk: seq<DataBlock>, disk': seq<DataBlock>, firstBlock: int, ids: seq<int>, was: int, free: seq<int>)
    requires Chain(disk, firstBlock, ids) && Chain(disk, was, free) && Turned(disk, disk', ids, was)
    requires forall b :: b in ids ==> b !in free
    ensures Chain(disk', Before(ids, |ids|, was), Reverse(ids) + free)
  {
    ChainFrame(disk, disk', was, free);
    if ids == [] {
      assert Reverse(ids) + free == free;
    } else {
      BackLinks(disk, disk', ids, was);
      ChainDistinct(disk, firstBlock, ids);
      ChainJoin(disk', ids[|ids| - 1], Reverse(ids), free);
    }
  }

  /** No list goes a way that comes back to where it was. */
  lemma NoCircle(disk: seq<DataBlock>, first: int, list: seq<int>, path: seq<int>, a: nat, b: nat)
    requires a < b < |path| && path[0] == first && 0 !in path && path[a] == path[b]
    requires forall i :: 0 <= i < |path| - 1 ==> 0 <= path[i] < |disk| && disk[path[i]].nextBlock == path[i + 1]
    ensures !Chain(disk, first, list)
  {
    if Chain(disk, first, list) {
      assert list != [] && list[0] == path[0];
      ListFollows(disk, first, list, 0, path);
      assert list[0 + a] == list[0 + b];
      ChainDistinct(disk, first, list);
      assert false;
    }
  }

  lemma TurnedShared(disk: seq<DataBlock>, disk': seq<DataBlock>, ids: seq<int>, was: int, free: seq<int>, list: seq<int>)
    requires Chain(disk, was, free) && Turned(disk, disk', ids, was) && exists b :: b in free && b in ids
    ensures !Chain(disk', ids[|ids| - 1], list)
  {
    var m := FirstShared(ids, free, 0);
    SharedPath(disk, disk', ids, was, free, m);
    var i :| 0 <= i < |ids| && ids[i] == free[m];
    assert Reverse(ids)[|ids| - 1 - i] == ids[i];
    NoCircle(disk', ids[|ids| - 1], list, Reverse(ids) + free[..m + 1], |ids| - 1 - i, |ids| + m);
  }

  /** From b the links lead to 0. */
  ghost predicate Ends(disk: seq<DataBlock>, b: int) {
    exists list :: Chain(disk, b, list)
  }

  /** After myrm the free list ends if and only if the file had no block in common with it. Then it is the chain in reverse
      in front of the old list; otherwise it runs in a circle. */
  lemma FreedIff(disk: seq<DataBlock>, disk': seq<DataBlock>, firstBlock: int, ids: seq<int>, was: int, free: seq<int>)
    requires Chain(disk, firstBlock, ids) && Chain(disk, was, free) && Turned(disk, disk', ids, was)
    ensures var first := Before(ids, |ids|, was);
            && ((forall b :: b in ids ==> b !in free) ==> Chain(disk', first, Reverse(ids) + free))
            && (Ends(disk', first) <==> forall b :: b in ids ==> b !in free)
  {
    var first := Before(ids, |ids|, was);
    if forall b :: b in ids ==> b !in free {
      TurnedApart(disk, disk', firstBlock, ids, was, free);
      assert Chain(disk', first, Reverse(ids) + free);
    } else {
      forall list
        ensures !Chain(disk', first, list)
      {
        TurnedShared(disk, disk', ids, was, free, list);
      }
    }
  }

  /** The last, short piece: its block ends the file's chain, and the free list goes on behind it. */
  lemma CutChain(disk: seq<DataBlock>, free: seq<int>, k: nat, db: DataBlock)
    requires free != [] && k < |free| && Chain(disk, free[0], free) && db.nextBlock == 0
    ensures 0 < free[k] < |disk|
    ensures Chain(disk[free[k] := db], free[0], free[..k + 1])
    ensures Chain(disk[free[k] := db], if k + 1 < |free| then free[k + 1] else 0, free[k + 1..])
  {
    ChainDistinct(disk, free[0], free);
    CutFront(disk, free, k, db);
    CutRest(disk, free, k, db);
  }

  lemma CutFront(disk: seq<DataBlock>, free: seq<int>, k: nat, db: DataBlock)
    requires k < |free| && InRange(disk, free) && db.nextBlock == 0
    requires forall i, j :: 0 <= i < j < |free| ==> free[i] != free[j]
    requires forall i :: 0 <= i < |free| ==> 0 < free[i] && disk[free[i]].nextBlock == if i + 1 < |free| then free[i + 1] else 0
    ensures Chain(disk[free[k] := db], free[0], free[..k + 1])
  {
    var ids := free[..k + 1];
    assert ids + [] == ids;
    ChainJoin(disk[free[k] := db], free[0], ids, []);
  }

  lemma CutRest(disk: seq<DataBlock>, free: seq<int>, k: nat, db: DataBlock)
    requires free != [] && k < |free| && Chain(disk, free[0], free) && 0 < free[k] < |disk|
    requires forall i, j :: 0 <= i < j < |free| ==> free[i] != free[j]
    ensures Chain(disk[free[k] := db], if k + 1 < |free| then free[k + 1] else 0, free[k + 1..])
  {
    ChainAt(disk, free[0], free, k + 1);
    ChainFrame(disk, disk[free[k] := db], if k + 1 < |free| then free[k + 1] else 0, free[k + 1..]);
  }

  /** A block that gets the next piece extends what the chain holds. */
  lemma HoldsMore(disk: seq<DataBlock>, disk': seq<DataBlock>, ids: seq<int>, data: seq<byte>, offset: nat, n: nat)
    requires offset % DATA_SIZE == 0 && n <= DATA_SIZE && offset + n <= |data| && offset / DATA_SIZE < |ids|
    requires Holds(disk, ids, data[..offset]) && |disk'| == |disk|
    requires forall i, j :: 0 <= i < j < |ids| ==> ids[i] != ids[j]
    requires disk'[ids[offset / DATA_SIZE]].data[..n] == data[offset..offset + n]
    requires forall i :: 0 <= i < |ids| && i != offset / DATA_SIZE ==> disk'[ids[i]].data == disk[ids[i]].data
    ensures Holds(disk', ids, data[..offset + n])
  {
  }

  lemma PieceIndex(offset: nat, j: nat)
    requires offset % DATA_SIZE == 0 && offset <= j < offset + DATA_SIZE
    ensures j / DATA_SIZE == offset / DATA_SIZE && j % DATA_SIZE == j - offset
  {
  }

  /** k whole pieces are in the first k blocks of free; block k is allocated, the rest still on the free list. */
  ghost predicate Copying(disk: seq<DataBlock>, first: int, free: seq<int>, data: seq<byte>, k: nat) {
    && k < |free| && DATA_SIZE * k <= |data|
    && Chain(disk, free[0], free) && Holds(disk, free, data[..DATA_SIZE * k])
    && Chain(disk, first, free[k + 1..])
  }

  ghost predicate Copied(disk: seq<DataBlock>, first: int, free: seq<int>, data: seq<byte>) {
    && |data| / DATA_SIZE < |free|
    && Chain(disk, free[0], FileChain(free, |data|)) && Holds(disk, FileChain(free, |data|), data)
    && Chain(disk, first, free[|data| / DATA_SIZE + 1..])
  }

  lemma PieceHolds(was: seq<DataBlock>, free: seq<int>, data: seq<byte>, k: nat, db: DataBlock, n: nat)
    requires k < |free| && Chain(was, free[0], free) && n <= DATA_SIZE && DATA_SIZE * k + n <= |data|
    requires Holds(was, free, data[..DATA_SIZE * k]) && db.data[..n] == data[DATA_SIZE * k..DATA_SIZE * k + n]
    ensures 0 < free[k] < |was| && Holds(was[free[k] := db], free, data[..DATA_SIZE * k + n])
  {
    ChainDistinct(was, free[0], free);
    PieceIndex(DATA_SIZE * k, DATA_SIZE * k);
    HoldsMore(was, was[free[k] := db], free, data, DATA_SIZE * k, n);
  }

  /** A whole piece: the link written is the one that was there, so the chain still runs through the free list. */
  lemma FullPiece(was: seq<DataBlock>, first: int, free: seq<int>, data: seq<byte>, k: nat, db: DataBlock)
    requires k + 1 < |free| && DATA_SIZE * (k + 1) <= |data|
    requires Chain(was, free[0], free) && Holds(was, free, data[..DATA_SIZE * k]) && Chain(was, first, free[k + 2..])
    requires db.nextBlock == free[k + 1] && db.data == data[DATA_SIZE * k..DATA_SIZE * (k + 1)]
    ensures 0 < free[k] < |was| && Copying(was[free[k] := db], first, free, data, k + 1)
  {
    PieceHolds(was, free, data, k, db, DATA_SIZE);
    ChainAt(was, free[0], free, k);
    ChainFrame(was, was[free[k] := db], free[0], free);
    ChainFrame(was, was[free[k] := db], first, free[k + 2..]);
  }

  /** A short piece ends the chain with 0. */
  lemma ShortPiece(was: seq<DataBlock>, first: int, free: seq<int>, data: seq<byte>, k: nat, db: DataBlock)
    requires Copying(was, first, free, data, k) && DATA_SIZE * k < |data| < DATA_SIZE * (k + 1)
    requires db.nextBlock == 0 && db.data[..|data| - DATA_SIZE * k] == data[DATA_SIZE * k..]
    ensures 0 < free[k] < |was| && Copied(was[free[k] := db], first, free, data)
  {
    var n := |data| - DATA_SIZE * k;
    PieceHolds(was, free, data, k, db, n);
    assert data[..DATA_SIZE * k + n] == data;
    PieceIndex(DATA_SIZE * k, |data|);
    assert |data| / DATA_SIZE == k;
    CutChain(was, free, k, db);
    CutHolds(was[free[k] := db], free, data, k);
    CutFirst(was, first, free, k);
  }

  lemma CutFirst(disk: seq<DataBlock>, first: int, free: seq<int>, k: nat)
    requires k < |free| && Chain(disk, first, free[k + 1..])
    ensures first == if k + 1 < |free| then free[k + 1] else 0
  {
  }

  lemma CutHolds(disk: seq<DataBlock>, free: seq<int>, data: seq<byte>, k: nat)
    requires k < |free| && Holds(disk, free, data) && |data| <= DATA_SIZE * (k + 1)
    ensures Holds(disk, free[..k + 1], data)
  {
  }

  /** No further piece: nothing was written into the block allocated last. */
  lemma NoPiece(disk: seq<DataBlock>, first: int, free: seq<int>, data: seq<byte>, k: nat)
    requires Copying(disk, first, free, data, k) && |data| == DATA_SIZE * k
    ensures Copied(disk, first, free, data)
  {
  }

  /** What the loop's block variable holds when the k-th piece is read over it: the piece before, or what it was created with. */
  function Behind(data: seq<byte>, stack: buffer, k: nat): buffer
    requires DATA_SIZE * k <= |data|
  {
    if k == 0 then stack else data[DATA_SIZE * (k - 1)..DATA_SIZE * k]
  }

  /** And after that read. */
  function ReadOver(data: seq<byte>, stack: buffer, k: nat): (buf: buffer)
    requires DATA_SIZE * k < |data|
    ensures DATA_SIZE * (k + 1) <= |data| ==> buf == Behind(data, stack, k + 1)
  {
    var n := Min(|data| - DATA_SIZE * k, DATA_SIZE);
    data[DATA_SIZE * k..DATA_SIZE * k + n] + Behind(data, stack, k)[n..]
  }

  /** Behind a short last piece lies the end of that. */
  ghost predicate StaleTail(disk: seq<DataBlock>, free: seq<int>, data: seq<byte>, stack: buffer) {
    var k, n := |data| / 4088, |data| % 4088;
    k < |free| && 0 <= free[k] < |disk| && DATA_SIZE * k <= |data|
    && disk[free[k]].data[n..] == Behind(data, stack, k)[n..]
  }

  lemma TailIs(disk: seq<DataBlock>, free: seq<int>, data: seq<byte>, stack: buffer, k: nat)
    requires DATA_SIZE * k < |data| < DATA_SIZE * (k + 1) && k < |free| && 0 <= free[k] < |disk|
    requires disk[free[k]].data == ReadOver(data, stack, k)
    ensures StaleTail(disk, free, data, stack)
  {
    PieceIndex(DATA_SIZE * k, |data|);
    assert |data| / DATA_SIZE == k && |data| % DATA_SIZE == |data| - DATA_SIZE * k;
  }

  /** The copy loop after k turns. */
  ghost predicate Going(disk: seq<DataBlock>, first: int, free: seq<int>, data: seq<byte>, stack: buffer, k: nat,
                        size: nat, currentBlock: int, blockData: buffer) {
    && size == Min(DATA_SIZE * k, |data|)
    && if DATA_SIZE * k <= |data|
       then Copying(disk, first, free, data, k) && currentBlock == free[k] && blockData == Behind(data, stack, k)
       else Copied(disk, first, free, data) && StaleTail(disk, free, data, stack)
  }

  lemma GoingEnds(disk: seq<DataBlock>, first: int, free: seq<int>, data: seq<byte>, stack: buffer, k: nat,
                  size: nat, currentBlock: int, blockData: buffer)
    requires Going(disk, first, free, data, stack, k, size, currentBlock, blockData) && size >= |data|
    ensures size == |data| && Copied(disk, first, free, data)
    ensures |data| % 4088 > 0 ==> StaleTail(disk, free, data, stack)
  {
    if |data| == DATA_SIZE * k {
      NoPiece(disk, first, free, data, k);
    }
  }

  /** Blocks that were not free stay as they are, and every block keeps its number. */
  ghost predicate KeepsOthers(disk: seq<DataBlock>, disk': seq<DataBlock>, free: seq<int>) {
    && |disk'| == |disk|
    && (forall b :: 0 <= b < |disk| && b !in free ==> disk'[b] == disk[b])
    && (Labelled(disk) ==> Labelled(disk'))
  }

  lemma KeepsWritten(disk: seq<DataBlock>, free: seq<int>, k: nat, db: DataBlock)
    requires k < |free| && 0 <= free[k] < |disk| && db.blockId == free[k]
    ensures KeepsOthers(disk, disk[free[k] := db], free)
  {
  }

  lemma KeepsAll(disk: seq<DataBlock>, mid: seq<DataBlock>, disk': seq<DataBlock>, free: seq<int>)
    requires KeepsOthers(disk, mid, free) && KeepsOthers(mid, disk', free)
    ensures KeepsOthers(disk, disk', free)
  {
  }

  lemma PieceCount(size: nat, k: nat)
    requires DATA_SIZE * k <= size
    ensures k <= size / DATA_SIZE
  {
  }

  class SampleFs {
    var firstFreeBlock: int
    var disk: seq<DataBlock>

    constructor ()
      ensures disk == []
    {
      firstFreeBlock := 0;
      disk := [];
    }

    /** Block 0 is the superblock's, 1 the root directory; the others are linked in order, the last one to 0. */
    method MyMkfs(noOfBlocks: int)
      requires 3 <= noOfBlocks
      modifies this
      ensures |disk| == noOfBlocks && Labelled(disk)
      ensures forall b :: 0 <= b < noOfBlocks ==> |disk[b].data| == 4088 && forall k :: 0 <= k < 4088 ==> disk[b].data[k] == 0
      ensures disk[1].nextBlock == 0
      ensures Chain(disk, firstFreeBlock, seq(noOfBlocks - 2, i => i + 2))
    {
      firstFreeBlock := 2;
      var blocks := [DataBlock(0, Zeros(DATA_SIZE), 0), DataBlock(1, Zeros(DATA_SIZE), 0)];
      var i := 2;
      while i < noOfBlocks
        invariant 2 <= i <= noOfBlocks && |blocks| == i
        invariant forall b :: 2 <= b < i ==> blocks[b].nextBlock == b + 1
        invariant blocks[1].nextBlock == 0
        invariant forall b :: 0 <= b < i ==> blocks[b].blockId == b && blocks[b].data == Zeros(DATA_SIZE)
      {
        blocks := blocks + [DataBlock(i, Zeros(DATA_SIZE), i + 1)];
        i := i + 1;
      }
      blocks := blocks[noOfBlocks - 1 := DataBlock(noOfBlocks - 1, Zeros(DATA_SIZE), 0)];
      disk := blocks;
      var ids := seq(noOfBlocks - 2, i => i + 2);
      assert ids + [] == ids;
      ChainJoin(disk, 2, ids, []);
    }

    /** Pops the free list. The block itself is not written: its link and data stay as they are. */
    method GetFreeBlock(ghost free: seq<int>) returns (r: int)
      requires Chain(disk, firstFreeBlock, free)
      modifies this`firstFreeBlock
      ensures free == [] ==> r == -1 && firstFreeBlock == old(firstFreeBlock)
      ensures free != [] ==> r == free[0] && 0 < r < |disk| && Chain(disk, firstFreeBlock, free[1..])
    {
      if firstFreeBlock == 0 {
        return -1;
      }
      r := firstFreeBlock;
      firstFreeBlock := disk[r].nextBlock;
    }

    method WriteBlockAt(b: int, db: DataBlock)
      requires 0 <= b < |disk|
      modifies this`disk
      ensures disk == old(disk)[b := db]
    {
      disk := disk[b := db];
    }

    /** The free loop of myrm: each block is linked to the one freed before it, and its own link is read first. */
    method TurnLinks(firstBlock: int, ghost ids: seq<int>)
      requires Chain(disk, firstBlock, ids)
      modifies this
      ensures firstFreeBlock == Before(ids, |ids|, old(firstFreeBlock))
      ensures Turned(old(disk), disk, ids, old(firstFreeBlock))
      ensures forall b :: 0 <= b < |disk| ==> disk[b].data == old(disk)[b].data && disk[b].blockId == old(disk)[b].blockId
    {
      var currentBlock := firstBlock;
      ghost var k := 0;
      ChainAt(disk, firstBlock, ids, 0);
      while currentBlock != 0
        invariant 0 <= k <= |ids|
        invariant currentBlock == if k < |ids| then ids[k] else 0
        invariant firstFreeBlock == Before(ids, k, old(firstFreeBlock))
        invariant Turned(old(disk), disk, ids[..k], old(firstFreeBlock))
        invariant forall b :: 0 <= b < |disk| ==> disk[b].data == old(disk)[b].data && disk[b].blockId == old(disk)[b].blockId
        decreases |ids| - k
      {
        ChainAt(old(disk), firstBlock, ids, k);
        TurnStep(old(disk), disk, ids, k, old(firstFreeBlock));
        var blockData := disk[currentBlock];
        var nextBlock := blockData.nextBlock;
        blockData := blockData.(nextBlock := firstFreeBlock);
        WriteBlockAt(currentBlock, blockData);
        firstFreeBlock := currentBlock;
        currentBlock := nextBlock;
        k := k + 1;
      }
      if k < |ids| {
        ChainAt(old(disk), firstBlock, ids, k);
      }
      assert ids[..k] == ids;
    }

    /** Freeing a chain that may run into the free list: the free list ends afterwards if and only if it does not. Data and
        all other blocks stay. */
    method FreeChain(firstBlock: int, ghost ids: seq<int>, ghost free: seq<int>)
      requires Chain(disk, firstBlock, ids) && Chain(disk, firstFreeBlock, free)
      modifies this
      ensures firstFreeBlock == Before(ids, |ids|, old(firstFreeBlock))
      ensures Turned(old(disk), disk, ids, old(firstFreeBlock))
      ensures forall b :: 0 <= b < |disk| ==> disk[b].data == old(disk)[b].data && disk[b].blockId == old(disk)[b].blockId
      ensures (forall b :: b in ids ==> b !in free) ==> Chain(disk, firstFreeBlock, Reverse(ids) + free)
      ensures Ends(disk, firstFreeBlock) <==> forall b :: b in ids ==> b !in free
    {
      TurnLinks(firstBlock, ids);
      FreedIff(old(disk), disk, firstBlock, ids, old(firstFreeBlock), free);
    }

    /** The walk of myreadBlock and mywriteBlock to the blockNo-th block; 0 if the chain is shorter or blockNo negative. */
    method Walk(firstBlock: int, blockNo: int, ghost ids: seq<int>) returns (currentBlock: int)
      requires Chain(disk, firstBlock, ids)
      ensures currentBlock == if 0 <= blockNo < |ids| then ids[blockNo] else 0
      ensures currentBlock != 0 ==> 0 < currentBlock < |disk|
    {
      currentBlock := firstBlock;
      var idx := 0;
      ChainAt(disk, firstBlock, ids, 0);
      while currentBlock != 0 && idx < blockNo
        invariant 0 <= idx <= |ids| && (blockNo >= 0 ==> idx <= blockNo)
        invariant currentBlock == if idx < |ids| then ids[idx] else 0
        decreases |ids| - idx
      {
        ChainAt(disk, firstBlock, ids, idx);
        currentBlock := disk[currentBlock].nextBlock;
        idx := idx + 1;
      }
      if idx < |ids| {
        ChainAt(disk, firstBlock, ids, idx);
      }
      if currentBlock == 0 || idx != blockNo {
        return 0;
      }
    }

    method MyReadBlock(firstBlock: int, blockNo: int, ghost ids: seq<int>) returns (buf: Option<buffer>)
      requires Chain(disk, firstBlock, ids)
      ensures buf.None? <==> !(0 <= blockNo < |ids|)
      ensures buf.Some? ==> 0 <= ids[blockNo] < |disk| && buf.value == disk[ids[blockNo]].data
    {
      var currentBlock := Walk(firstBlock, blockNo, ids);
      if currentBlock == 0 {
        if 0 <= blockNo < |ids| {
          ChainAt(disk, firstBlock, ids, blockNo);
        }
        return None;
      }
      buf := Some(disk[currentBlock].data);
    }

    /** Links, ids and every other block stay. */
    method MyWriteBlock(firstBlock: int, buf: buffer, blockNo: int, ghost ids: seq<int>) returns (r: int)
      requires Chain(disk, firstBlock, ids)
      modifies this`disk
      ensures r == 0 <==> 0 <= blockNo < |ids|
      ensures r != 0 ==> r == -1 && disk == old(disk)
      ensures r == 0 ==> 0 <= ids[blockNo] < |old(disk)| &&
                         disk == old(disk)[ids[blockNo] := old(disk)[ids[blockNo]].(data := buf)]
      ensures Chain(disk, firstBlock, ids)
    {
      var currentBlock := Walk(firstBlock, blockNo, ids);
      if currentBlock == 0 {
        if 0 <= blockNo < |ids| {
          ChainAt(disk, firstBlock, ids, blockNo);
        }
        return -1;
      }
      ghost var was := disk;
      WriteBlockAt(currentBlock, disk[currentBlock].(data := buf));
      ChainFrame(was, disk, firstBlock, ids);
      r := 0;
    }

    /** One turn of the copy loop of mycopyTo, for a piece of at least one byte. */
    method CopyPiece(bytesRead: nat, currentBlock: int, blockData: buffer,
                     ghost data: seq<byte>, ghost free: seq<int>, ghost k: nat)
      returns (ok: bool, nextBlock: int)
      requires Copying(disk, firstFreeBlock, free, data, k) && currentBlock == free[k]
      requires DATA_SIZE * k < |data| && bytesRead == Min(|data| - DATA_SIZE * k, DATA_SIZE)
      requires blockData[..bytesRead] == data[DATA_SIZE * k..DATA_SIZE * k + bytesRead]
      modifies this
      ensures ok <==> |data| < DATA_SIZE * (k + 1) || k + 1 < |free|
      ensures !ok ==> Chain(disk, firstFreeBlock, []) && disk == old(disk)
      ensures ok && |data| < DATA_SIZE * (k + 1) ==> Copied(disk, firstFreeBlock, free, data)
      ensures ok && |data| >= DATA_SIZE * (k + 1) ==>
                Copying(disk, firstFreeBlock, free, data, k + 1) && nextBlock == free[k + 1]
      ensures ok ==> 0 < currentBlock < |old(disk)|
      ensures ok ==> disk == old(disk)[currentBlock := DataBlock(currentBlock, blockData, nextBlock)]
    {
      ChainAt(disk, free[0], free, k);
      nextBlock := 0;
      ok := true;
      if bytesRead == DATA_SIZE {
        nextBlock := GetFreeBlock(free[k + 1..]);
        if nextBlock == -1 {
          return false, nextBlock;
        }
        assert free[k + 1..][1..] == free[k + 2..];
        FullPiece(disk, firstFreeBlock, free, data, k, DataBlock(currentBlock, blockData, nextBlock));
      } else {
        ShortPiece(disk, firstFreeBlock, free, data, k, DataBlock(currentBlock, blockData, nextBlock));
      }
      WriteBlockAt(currentBlock, DataBlock(currentBlock, blockData, nextBlock));
    }

    /** The same with the read before it, over what the loop's block variable holds. */
    method CopyTurn(size: nat, currentBlock: int, blockData: buffer, data: seq<byte>,
                    ghost stack: buffer, ghost free: seq<int>, ghost k: nat)
      returns (ok: bool, newSize: nat, nextBlock: int, newData: buffer)
      requires Going(disk, firstFreeBlock, free, data, stack, k, size, currentBlock, blockData) && size < |data|
      modifies this
      ensures ok <==> |data| < DATA_SIZE * (k + 1) || k + 1 < |free|
      ensures !ok ==> Chain(disk, firstFreeBlock, []) && disk == old(disk)
      ensures ok ==> Going(disk, firstFreeBlock, free, data, stack, k + 1, newSize, nextBlock, newData)
      ensures ok ==> newSize > size
      ensures KeepsOthers(old(disk), disk, free)
    {
      var bytesRead := Min(|data| - size, DATA_SIZE);
      newData := data[size..size + bytesRead] + blockData[bytesRead..];
      assert newData == ReadOver(data, stack, k);
      ok, nextBlock := CopyPiece(bytesRead, currentBlock, newData, data, free, k);
      newSize := size + bytesRead;
      if ok {
        KeepsWritten(old(disk), free, k, DataBlock(currentBlock, newData, nextBlock));
        if bytesRead < DATA_SIZE {
          TailIs(disk, free, data, stack, k);
        }
      }
    }

    /** The copy loop of mycopyTo. stack is what the loop's block variable holds before the first read: the last block
        keeps it, or the previous piece, behind a short piece. */
    method CopyIn(data: seq<byte>, stack: buffer, ghost free: seq<int>) returns (ok: bool, firstBlock: int, size: nat)
      requires Chain(disk, firstFreeBlock, free)
      modifies this
      ensures |disk| == |old(disk)|
      ensures ok <==> |data| / DATA_SIZE < |free|
      ensures !ok ==> Chain(disk, firstFreeBlock, [])
      ensures ok ==> size == |data| && firstBlock == free[0] && Copied(disk, firstFreeBlock, free, data)
      ensures ok && |data| % 4088 > 0 ==> StaleTail(disk, free, data, stack)
      ensures forall b :: 0 <= b < |disk| && b !in free ==> disk[b] == old(disk)[b]
      ensures Labelled(old(disk)) ==> Labelled(disk)
    {
      size := 0;
      ghost var first := firstFreeBlock;
      firstBlock := GetFreeBlock(free);
      if firstBlock == -1 {
        return false, firstBlock, size;
      }
      var currentBlock := firstBlock;
      var blockData := stack;
      ghost var k := 0;
      assert data[..0] == [];
      ChainDistinct(disk, first, free);
      while size < |data|
        invariant Going(disk, firstFreeBlock, free, data, stack, k, size, currentBlock, blockData)
        invariant KeepsOthers(old(disk), disk, free)
      {
        ghost var was := disk;
        var turnOk;
        turnOk, size, currentBlock, blockData := CopyTurn(size, currentBlock, blockData, data, stack, free, k);
        KeepsAll(old(disk), was, disk, free);
        if !turnOk {
          PieceCount(|data|, k + 1);
          return false, firstBlock, size;
        }
        k := k + 1;
      }
      GoingEnds(disk, firstFreeBlock, free, data, stack, k, size, currentBlock, blockData);
      ok := true;
    }

    /** The copy loop of mycopyFrom. */
    method CopyOut(firstBlock: int, size: nat, ghost ids: seq<int>) returns (out: seq<byte>)
      requires Chain(disk, firstBlock, ids)
      ensures InRange(disk, ids)
      ensures out == Output(disk, ids, size)
    {
      ChainInRange(disk, firstBlock, ids);
      var currentBlock := firstBlock;
      out := [];
      ghost var rest := ids;
      while currentBlock != 0
        invariant Chain(disk, currentBlock, rest)
        invariant InRange(disk, rest)
        invariant out + Output(disk, rest, size) == Output(disk, ids, size)
        decreases |rest|
      {
        var blockData := disk[currentBlock];
        var bytesToWrite := DATA_SIZE;
        if blockData.nextBlock == 0 {
          bytesToWrite := size % DATA_SIZE;
          if bytesToWrite == 0 && size > 0 {
            bytesToWrite := DATA_SIZE;
          }
        }
        assert blockData.nextBlock == 0 <==> |rest| == 1;
        out := out + blockData.data[..bytesToWrite];
        currentBlock := blockData.nextBlock;
        rest := rest[1..];
      }
    }

    /** mycopyTo and then mycopyFrom of the same name: what comes out is the data if and only if its last piece is a short
        one, or there is none and the file took the only free block. */
    method RoundTrip(data: seq<byte>, stack: buffer, ghost free: seq<int>) returns (ok: bool, out: seq<byte>)
      requires Chain(disk, firstFreeBlock, free)
      modifies this
      ensures ok <==> |data| / DATA_SIZE < |free|
      ensures ok ==> (out == data <==> |data| % DATA_SIZE > 0 || (data == [] && |free| == 1))
      ensures ok ==> |out| == DATA_SIZE * (|FileChain(free, |data|)| - 1) + LastBytes(|data|)
    {
      out := [];
      var firstBlock, size;
      ok, firstBlock, size := CopyIn(data, stack, free);
      if ok {
        out := CopyOut(firstBlock, size, FileChain(free, |data|));
        RoundTripIff(disk, free, data);
      }
    }

    /** A file of one whole block on a new file system of four blocks comes back with another block behind it. */
    method WholeBlockFails(data: seq<byte>, stack: buffer) returns (out: seq<byte>)
      requires |data| == DATA_SIZE
      modifies this
      ensures |out| == 2 * |data|
    {
      MyMkfs(4);
      ghost var free := seq(2, i => i + 2);
      var ok;
      ok, out := RoundTrip(data, stack, free);
    }

    /** mycopyTo and then myrm: the free list is still one that ends if and only if the last piece was a short one, or the
        file had taken every free block. */
    method CopyAndRemove(data: seq<byte>, stack: buffer, ghost free: seq<int>) returns (ok: bool)
      requires Chain(disk, firstFreeBlock, free)
      modifies this
      ensures ok <==> |data| / DATA_SIZE < |free|
      ensures ok ==> (Ends(disk, firstFreeBlock) <==>
                      |data| % DATA_SIZE > 0 || |free| == |data| / DATA_SIZE + 1)
    {
      ChainDistinct(disk, firstFreeBlock, free);
      var firstBlock, size;
      ok, firstBlock, size := CopyIn(data, stack, free);
      if ok {
        SharedIff(free, |data|);
        FreeChain(firstBlock, FileChain(free, |data|), free[|data| / DATA_SIZE + 1..]);
      }
    }

    /** A file of one whole block on a new file system of five blocks, copied in and removed: the free list runs in a circle
        through the three free blocks and never ends. */
    method RemovedIntoCircle(data: seq<byte>, stack: buffer)
      requires |data| == DATA_SIZE
      modifies this
      ensures |disk| == 5 && !Ends(disk, firstFreeBlock)
      ensures firstFreeBlock == 4 && disk[4].nextBlock == 3 && disk[3].nextBlock == 2 && disk[2].nextBlock == 4
    {
      MyMkfs(5);
      ghost var free := seq(3, i => i + 2);
      assert free == [2, 3, 4] && free[2..] == [4];
      ChainDistinct(disk, firstFreeBlock, free);
      var ok, firstBlock, size := CopyIn(data, stack, free);
      SharedIff(free, |data|);
      FreeChain(firstBlock, free, [4]);
      assert free[0] == 2 && free[1] == 3 && free[2] == 4;
    }
  }
}
