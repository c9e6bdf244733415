/**
 The block allocator of os_day7/fileblk.c: a bitmap and two redundant counters in
 the header of one file, blocks of s bytes from offset 4096 on.
 */
module BitmapFile {
  import Bytes

  const HEADER_SPACE := 4096
  /** sizeof(FileHeader): four ints and the bitmap. */
  const HEADER_SIZE := 528
  const BITMAP_BYTES := 512
  const MAX_BLOCKS := 4096

  datatype FileHeader = FileHeader(n: int, s: int, ubn: int, fbn: int, ub: seq<bv8>)

  // ----- bits

  function Mask(bit: nat): bv8
    requires bit < 8
  {
    (1 as bv8) << bit
  }

  /** ub[i / 8] & (1 << (i % 8)). */
  predicate Bit(ub: seq<bv8>, i: nat)
    requires |ub| == BITMAP_BYTES && i < MAX_BLOCKS
  {
    ub[i / 8] & Mask(i % 8) != 0
  }

  /** Different bits have disjoint masks. */
  lemma MasksDisjoint(a: nat, b: nat)
    requires a < 8 && b < 8
    ensures Mask(a) & Mask(b) == (if a == b then Mask(a) else 0) && Mask(a) != 0
  {
  }

  /** The bit of block i in numbers: bytes in order, the low bit of each first. */
  lemma BitIs(ub: seq<bv8>, i: nat)
    requires |ub| == 512 && i < 4096
    ensures Bit(ub, i) <==> ub[i / 8] & [1, 2, 4, 8, 16, 32, 64, 128][i % 8] != 0
  {
    var m := i % 8;
    assert Mask(m) == if m == 0 then 1 else if m == 1 then 2 else if m == 2 then 4 else if m == 3 then 8
                      else if m == 4 then 16 else if m == 5 then 32 else if m == 6 then 64 else 128;
  }

  lemma OrBit(x: bv8, m: bv8, k: bv8)
    ensures m & k == 0 ==> ((x | m) & k != 0 <==> x & k != 0) && (x & !m) & k == x & k
    ensures (x | m) & m == m && (x & !m) & m == 0
  {
  }

  /** Setting or clearing one bit of the bitmap changes that bit and no other. */
  lemma BitAfter(ub: seq<bv8>, i: nat, j: nat)
    requires |ub| == BITMAP_BYTES && i < MAX_BLOCKS && j < MAX_BLOCKS
    ensures Bit(ub[i / 8 := ub[i / 8] | Mask(i % 8)], j) <==> i == j || Bit(ub, j)
    ensures Bit(ub[i / 8 := ub[i / 8] & !Mask(i % 8)], j) <==> i != j && Bit(ub, j)
  {
    MasksDisjoint(i % 8, j % 8);
    if i / 8 == j / 8 {
      OrBit(ub[i / 8], Mask(i % 8), Mask(j % 8));
    }
  }

  /** The blocks below n whose bit is set. */
  function UsedBelow(ub: seq<bv8>, n: nat): (used: set<nat>)
    requires |ub| == BITMAP_BYTES && n <= MAX_BLOCKS
    ensures forall i :: i in used ==> 0 <= i < n
    ensures |used| <= n
  {
    if n == 0 then {} else UsedBelow(ub, n - 1) + if Bit(ub, n - 1) then {n - 1} else {}
  }

  /** How many blocks below n have their bit set. */
  function CountBelow(ub: seq<bv8>, n: nat): nat
    requires |ub| == BITMAP_BYTES && n <= MAX_BLOCKS
  {
    if n == 0 then 0 else CountBelow(ub, n - 1) + if Bit(ub, n - 1) then 1 else 0
  }

  lemma {:induction false} CountIs(ub: seq<bv8>, n: nat)
    requires |ub| == BITMAP_BYTES && n <= MAX_BLOCKS
    ensures CountBelow(ub, n) == |UsedBelow(ub, n)|
  {
    if n > 0 {
      CountIs(ub, n - 1);
    }
  }

  lemma {:induction false} UsedHas(ub: seq<bv8>, n: nat, i: nat)
    requires |ub| == BITMAP_BYTES && n <= MAX_BLOCKS && i < n
    ensures i in UsedBelow(ub, n) <==> Bit(ub, i)
  {
    if i < n - 1 {
      UsedHas(ub, n - 1, i);
    }
  }

  /** The whole bitmap as a set. */
  function Used(ub: seq<bv8>): set<nat>
    requires |ub| == BITMAP_BYTES
  {
    UsedBelow(ub, 8 * |ub|)
  }

  lemma UsedIs(ub: seq<bv8>, i: nat)
    requires |ub| == BITMAP_BYTES && i < MAX_BLOCKS
    ensures i in Used(ub) <==> Bit(ub, i)
  {
    UsedHas(ub, 8 * |ub|, i);
  }

  lemma {:induction false} NothingUsed(n: nat)
    requires n <= MAX_BLOCKS
    ensures UsedBelow(Fill(0, BITMAP_BYTES), n) == {}
  {
    if n > 0 {
      NothingUsed(n - 1);
      assert Fill(0, BITMAP_BYTES)[(n - 1) / 8] == 0;
    }
  }

  /** Counting only below n misses nothing if nothing at or above n is set, and conversely. */
  lemma UsedAll(ub: seq<bv8>, n: nat)
    requires |ub| == BITMAP_BYTES && n <= MAX_BLOCKS
    ensures UsedBelow(ub, n) == Used(ub) <==> forall i :: i in Used(ub) ==> i < n
  {
    forall i: nat | i < n
      ensures i in UsedBelow(ub, n) <==> i in Used(ub)
    {
      UsedHas(ub, n, i);
      UsedHas(ub, 8 * |ub|, i);
    }
  }

  lemma SetBit(ub: seq<bv8>, i: nat)
    requires |ub| == BITMAP_BYTES && i < MAX_BLOCKS
    ensures Used(ub[i / 8 := ub[i / 8] | Mask(i % 8)]) == Used(ub) + {i}
    ensures Used(ub[i / 8 := ub[i / 8] & !Mask(i % 8)]) == Used(ub) - {i}
  {
    var on, off := ub[i / 8 := ub[i / 8] | Mask(i % 8)], ub[i / 8 := ub[i / 8] & !Mask(i % 8)];
    forall j: nat | j < MAX_BLOCKS
      ensures j in Used(on) <==> j in Used(ub) + {i}
      ensures j in Used(off) <==> j in Used(ub) - {i}
    {
      BitAfter(ub, i, j);
      UsedIs(on, j);
      UsedIs(off, j);
      UsedIs(ub, j);
    }
  }

  // ----- bytes of the file behind the header

  function Fill(b: bv8, n: nat): (bytes: seq<bv8>)
    ensures |bytes| == n && forall i :: 0 <= i < n ==> bytes[i] == b
  {
    seq(n, _ => b)
  }

  /** The byte at offset off of the file; reading past the end finds nothing, which a later write would make 0. */
  function ByteAt(body: seq<bv8>, off: int): bv8
    requires off >= HEADER_SIZE
  {
    if off - HEADER_SIZE < |body| then body[off - HEADER_SIZE] else 0
  }

  /** lseek to off and write: a gap before off is filled with zeros, the file grows if it must. */
  function WriteAt(body: seq<bv8>, off: int, bytes: seq<bv8>): seq<bv8>
    requires off >= HEADER_SIZE
  {
    var j := off - HEADER_SIZE;
    var front := if j <= |body| then body[..j] else body + Fill(0, j - |body|);
    front + bytes + if j + |bytes| <= |body| then body[j + |bytes|..] else []
  }

  lemma ByteAfterWrite(body: seq<bv8>, off: int, bytes: seq<bv8>, k: int)
    requires off >= HEADER_SIZE && k >= HEADER_SIZE
    ensures ByteAt(WriteAt(body, off, bytes), k) == if off <= k < off + |bytes| then bytes[k - off] else ByteAt(body, k)
  {
  }

  function Offset(s: int, i: nat): (off: int)
    requires s >= 0
    ensures off >= HEADER_SPACE
  {
    MulNonNegative(i, s);
    HEADER_SPACE + i * s
  }

  lemma MulNonNegative(a: int, b: int)
    requires a >= 0 && b >= 0
    ensures a * b >= 0
  {
  }

  /** The byte ranges of two blocks do not meet. */
  lemma OffsetsApart(s: int, i: nat, j: nat)
    requires s >= 0 && i < j
    ensures Offset(s, i) + s <= Offset(s, j)
  {
    MulNonNegative(j - i - 1, s);
    assert j * s == i * s + s + (j - i - 1) * s;
  }

  function BlockAt(body: seq<bv8>, s: int, i: nat): (bytes: seq<bv8>)
    requires s >= 0
    ensures |bytes| == s
  {
    seq(s, k requires 0 <= k < s => ByteAt(body, Offset(s, i) + k))
  }

  /** Writing one block changes that block to what was written and no other block. */
  lemma BlockAfterWrite(body: seq<bv8>, s: int, i: nat, bytes: seq<bv8>, j: nat)
    requires s >= 0 && |bytes| == s
    ensures BlockAt(WriteAt(body, Offset(s, i), bytes), s, j) == if j == i then bytes else BlockAt(body, s, j)
  {
    var body' := WriteAt(body, Offset(s, i), bytes);
    if j < i {
      OffsetsApart(s, j, i);
    } else if i < j {
      OffsetsApart(s, i, j);
    }
    forall k | 0 <= k < s
      ensures BlockAt(body', s, j)[k] == (if j == i then bytes else BlockAt(body, s, j))[k]
    {
      ByteAfterWrite(body, Offset(s, i), bytes, Offset(s, j) + k);
    }
  }

  lemma OtherBlocks(body: seq<bv8>, s: nat, i: nat, bytes: seq<bv8>)
    requires |bytes| == s
    ensures var body' := WriteAt(body, Offset(s, i), bytes);
            forall j: nat :: BlockAt(body', s, j) == if j == i then bytes else BlockAt(body, s, j)
  {
    forall j: nat
      ensures BlockAt(WriteAt(body, Offset(s, i), bytes), s, j) == if j == i then bytes else BlockAt(body, s, j)
    {
      BlockAfterWrite(body, s, i, bytes, j);
    }
  }

  /** Where block i lies: from offset 4096 + i * s of the file, of which body leaves out the 528 bytes of the header. */
  lemma BlockBytes(body: seq<bv8>, s: nat, i: nat, k: nat)
    requires k < s
    ensures 0 <= 4096 - 528 + i * s + k
    ensures BlockAt(body, s, i)[k] == if 4096 - 528 + i * s + k < |body| then body[4096 - 528 + i * s + k] else 0
  {
    MulNonNegative(i, s);
    var off := Offset(s, i) + k;
    assert off == 4096 + i * s + k;
    assert BlockAt(body, s, i)[k] == ByteAt(body, off);
  }

  // ----- what the file stands for

  /** Block size, number of blocks, and the contents of the allocated ones. */
  datatype Blocks = Blocks(n: nat, s: nat, data: map<nat, seq<bv8>>)

  /** What an operation leaves and returns. */
  datatype Outcome = Outcome(blocks: Blocks, code: int)

  /** The least index not in use; n if all are. */
  function LeastFree(b: Blocks): (r: nat)
    ensures r <= b.n && (r < b.n ==> r !in b.data) && forall i :: 0 <= i < r ==> i in b.data
  {
    LeastFrom(b, 0)
  }

  function LeastFrom(b: Blocks, i: nat): (r: nat)
    requires i <= b.n && forall k :: 0 <= k < i ==> k in b.data
    ensures r <= b.n && (r < b.n ==> r !in b.data) && forall k :: 0 <= k < r ==> k in b.data
    decreases b.n - i
  {
    if i == b.n || i !in b.data then i else LeastFrom(b, i + 1)
  }

  /** Allocation of the least free block with the given contents; -1 if there is none. */
  function Allocated(b: Blocks, bytes: seq<bv8>): Outcome {
    var i := LeastFree(b);
    if i == b.n then Outcome(b, -1) else Outcome(b.(data := b.data[i := bytes]), i)
  }

  lemma LeastFreeIs(b: Blocks, r: nat)
    requires r <= b.n && (r < b.n ==> r !in b.data) && forall i :: 0 <= i < r ==> i in b.data
    ensures LeastFree(b) == r
  {
  }

  function Padded(data: seq<bv8>, s: nat): (bytes: seq<bv8>)
    requires |data| <= s
    ensures |bytes| == s && bytes[..|data|] == data && forall k :: |data| <= k < s ==> bytes[k] == 0
  {
    data + Fill(0, s - |data|)
  }

  function GotFree(b: Blocks): Outcome {
    Allocated(b, Fill(1, b.s))
  }

  function Wrote(b: Blocks, data: seq<bv8>): Outcome {
    if |data| > b.s then Outcome(b, -1) else Allocated(b, Padded(data, b.s))
  }

  function Freed(b: Blocks, i: int): Outcome {
    if i < 0 || i >= b.n || i !in b.data then Outcome(b, -1) else Outcome(b.(data := b.data - {i}), 0)
  }

  /** The bitmap, the counters and the sizes agree. */
  ghost predicate Consistent(h: FileHeader) {
    && |h.ub| == BITMAP_BYTES && 0 <= h.n <= MAX_BLOCKS && 0 <= h.s
    && h.ubn == |Used(h.ub)|
    && h.ubn + h.fbn == h.n
    && forall i :: i in Used(h.ub) ==> i < h.n
  }

  ghost function Stands(h: FileHeader, body: seq<bv8>): Blocks
    requires Consistent(h)
  {
    Blocks(h.n, h.s, BlocksOf(Used(h.ub), h.s, body))
  }

  function BlocksOf(used: set<nat>, s: nat, body: seq<bv8>): map<nat, seq<bv8>> {
    map i | i in used :: BlockAt(body, s, i)
  }

  /** h with block i marked used or free, and counted. */
  ghost predicate Flipped(h: FileHeader, h': FileHeader, i: nat, used: bool)
    requires |h.ub| == BITMAP_BYTES
  {
    && h'.n == h.n && h'.s == h.s && |h'.ub| == BITMAP_BYTES
    && h'.ubn == h.ubn + (if used then 1 else -1) && h'.fbn == h.fbn - (if used then 1 else -1)
    && Used(h'.ub) == if used then Used(h.ub) + {i} else Used(h.ub) - {i}
  }

  lemma BlocksAfterWrite(used: set<nat>, s: nat, body: seq<bv8>, i: nat, bytes: seq<bv8>)
    requires |bytes| == s
    ensures BlocksOf(used + {i}, s, WriteAt(body, Offset(s, i), bytes)) == BlocksOf(used, s, body)[i := bytes]
    ensures BlocksOf(used - {i}, s, WriteAt(body, Offset(s, i), bytes)) == BlocksOf(used, s, body) - {i}
  {
    forall j | j in used + {i}
      ensures BlockAt(WriteAt(body, Offset(s, i), bytes), s, j) == if j == i then bytes else BlockAt(body, s, j)
    {
      BlockAfterWrite(body, s, i, bytes, j);
    }
  }

  /** Flipping a bit and writing its block: one block more or less, the others as they were. */
  lemma StandsAfter(h: FileHeader, h': FileHeader, body: seq<bv8>, i: nat, used: bool, bytes: seq<bv8>)
    requires Consistent(h) && i < h.n && (i in Used(h.ub) <==> !used) && Flipped(h, h', i, used)
    requires |bytes| == h.s
    ensures Consistent(h')
    ensures var data := Stands(h, body).data;
            Stands(h', WriteAt(body, Offset(h.s, i), bytes)) ==
            Stands(h, body).(data := if used then data[i := bytes] else data - {i})
  {
    BlocksAfterWrite(Used(h.ub), h.s, body, i, bytes);
  }

  // ----- runs

  /** The choices of the menu that change the file. */
  datatype Op = Init(bsize: int, bno: int) | Get | Write(data: seq<bv8>) | Free(i: int)
  {
    /** Sizes that init_File_dd can lay out: the bitmap covers the blocks, and offsets are C ints. */
    predicate Valid() {
      Init? ==> 0 <= bno <= MAX_BLOCKS && 0 <= bsize && HEADER_SPACE + bsize * bno <= 0x7FFF_FFFF
    }
  }

  function Step(b: Blocks, op: Op): Outcome
    requires op.Valid()
  {
    match op
    case Init(bsize, bno) => Outcome(Blocks(bno, bsize, map[]), 0)
    case Get => GotFree(b)
    case Write(data) => Wrote(b, data)
    case Free(i) => Freed(b, i)
  }

  predicate ValidOps(ops: seq<Op>) {
    forall k :: 0 <= k < |ops| ==> ops[k].Valid()
  }

  function Run(b: Blocks, ops: seq<Op>): Blocks
    requires ValidOps(ops)
    decreases |ops|
  {
    if ops == [] then b else Run(Step(b, ops[0]).blocks, ops[1..])
  }

  /** Only existing blocks are allocated, each with a full block of bytes. */
  predicate Sound(b: Blocks) {
    forall i :: i in b.data ==> i < b.n && |b.data[i]| == b.s
  }

  /** A block handed out was free, is the least free one, and holds what was asked for; nobody else's block changes. */
  lemma StepMeaning(b: Blocks, op: Op)
    requires Sound(b) && op.Valid()
    ensures var t := Step(b, op);
            && Sound(t.blocks)
            && (op.Init? ==> t == Outcome(Blocks(op.bno, op.bsize, map[]), 0))
            && (!op.Init? ==> t.blocks.n == b.n && t.blocks.s == b.s)
            && (op.Get? || op.Write? ==>
                  && (t.code == -1 <==> |b.data| == b.n || (op.Write? && |op.data| > b.s))
                  && (t.code != -1 ==>
                        && t.code !in b.data && t.blocks.data.Keys == b.data.Keys + {t.code}
                        && (forall i :: 0 <= i < t.code ==> i in b.data)
                        && |t.blocks.data[t.code]| == b.s
                        && (op.Get? ==> forall k :: 0 <= k < b.s ==> t.blocks.data[t.code][k] == 1)
                        && (op.Write? ==>
                              && |op.data| <= b.s && t.blocks.data[t.code][..|op.data|] == op.data
                              && forall k :: |op.data| <= k < b.s ==> t.blocks.data[t.code][k] == 0)))
            && (op.Free? ==>
                  && (t.code == 0 <==> op.i in b.data) && (t.code != 0 ==> t.code == -1)
                  && t.blocks.data.Keys == b.data.Keys - {op.i})
            && forall i :: i in b.data && i in t.blocks.data ==> t.blocks.data[i] == b.data[i]
  {
    AllInUse(b);
  }

  lemma AllInUse(b: Blocks)
    requires Sound(b)
    ensures LeastFree(b) == b.n <==> |b.data| == b.n
  {
    assert b.data.Keys <= Bytes.Indices(b.n);
    if LeastFree(b) == b.n {
      assert b.data.Keys == Bytes.Indices(b.n);
    } else {
      assert LeastFree(b) in Bytes.Indices(b.n) - b.data.Keys;
      Smaller(b.data.Keys, Bytes.Indices(b.n) - {LeastFree(b)});
    }
  }

  lemma {:induction false} Smaller(a: set<nat>, b: set<nat>)
    requires a <= b
    ensures |a| <= |b|
  {
    if x :| x in a {
      Smaller(a - {x}, b - {x});
    }
  }

  /** Between initialisations, a block that no operation of the run frees keeps its bytes, whatever else is allocated,
      written or freed. */
  lemma {:induction false} DataStays(b: Blocks, ops: seq<Op>, i: nat)
    requires Sound(b) && i in b.data && ValidOps(ops)
    requires forall k :: 0 <= k < |ops| ==> ops[k] != Free(i) && !ops[k].Init?
    ensures var t := Run(b, ops);
            Sound(t) && i in t.data && t.data[i] == b.data[i]
    decreases |ops|
  {
    if ops != [] {
      StepMeaning(b, ops[0]);
      assert ops[0] != Free(i) && !ops[0].Init?;
      DataStays(Step(b, ops[0]).blocks, ops[1..], i);
    }
  }

  /** Freeing what was just allocated gives the state back, and the next allocation gives the same block. */
  lemma FreeUndoesGet(b: Blocks)
    requires Sound(b) && LeastFree(b) < b.n
    ensures var t := GotFree(b);
            && Freed(t.blocks, t.code) == Outcome(b, 0)
            && GotFree(Freed(t.blocks, t.code).blocks).code == t.code
  {
  }

  class BlockFile {
    var header: FileHeader
    /** The bytes of the file from offset HEADER_SIZE on. */
    var body: seq<bv8>

    ghost predicate Valid()
      reads this
    {
      Consistent(header)
    }

    ghost function Value(): Blocks
      reads this
      requires Valid()
    {
      Stands(header, body)
    }

    constructor ()
      ensures Valid() && Value() == Blocks(0, 0, map[])
    {
      NothingUsed(8 * |Fill(0, BITMAP_BYTES)|);
      header := FileHeader(0, 0, 0, 0, Fill(0, BITMAP_BYTES));
      body := [];
    }

    /** The zeros go right behind the header, not to offset 4096; an old file's further bytes stay. */
    method InitFileDd(bsize: int, bno: int)
      requires 0 <= bno <= MAX_BLOCKS && 0 <= bsize && HEADER_SPACE + bsize * bno <= 0x7FFF_FFFF
      modifies this
      ensures Valid() && Value() == Blocks(bno, bsize, map[])
      ensures header.n == header.fbn == bno && header.s == bsize && header.ubn == 0 && |header.ub| == 512
      ensures forall k :: 0 <= k < 512 ==> header.ub[k] == 0
      ensures 0 <= bsize * bno <= |body| && forall k :: 0 <= k < bsize * bno ==> body[k] == 0
      ensures body[bsize * bno..] == if bsize * bno <= |old(body)| then old(body)[bsize * bno..] else []
    {
      NothingUsed(8 * |Fill(0, BITMAP_BYTES)|);
      header := FileHeader(bno, bsize, 0, bno, Fill(0, BITMAP_BYTES));
      MulNonNegative(bsize, bno);
      body := WriteAt(body, HEADER_SIZE, Fill(0, bsize * bno));
    }

    /** The search loop of get_freeblock and write_to_freeblock: the first clear bit is set and counted. */
    method TakeFirst() returns (blockIndex: int, h: FileHeader)
      requires Valid()
      ensures blockIndex == (if LeastFree(Value()) == header.n then -1 else LeastFree(Value()))
      ensures blockIndex == -1 ==> h == header
      ensures blockIndex != -1 ==> 0 <= blockIndex < header.n && Flipped(header, h, blockIndex, true)
    {
      h := header;
      blockIndex := -1;
      var i := 0;
      while i < h.n
        invariant 0 <= i <= h.n && h == header
        invariant forall k :: 0 <= k < i ==> k in Value().data
      {
        var used := TestBit(h.ub, i);
        if !used {
          LeastFreeIs(Value(), i);
          SetBit(h.ub, i);
          h := h.(ub := h.ub[i / 8 := h.ub[i / 8] | Mask(i % 8)]);
          h := h.(ubn := h.ubn + 1);
          h := h.(fbn := h.fbn - 1);
          return i, h;
        }
        i := i + 1;
      }
      LeastFreeIs(Value(), i);
    }

    method GetFreeBlock() returns (r: int)
      requires Valid()
      modifies this
      ensures Valid() && Outcome(Value(), r) == GotFree(old(Value()))
      ensures r != -1 ==> 0 <= r < header.n && forall k :: 0 <= k < header.s ==> BlockAt(body, header.s, r)[k] == 1
      ensures forall j: nat :: j != r ==> BlockAt(body, header.s, j) == BlockAt(old(body), old(header).s, j)
      ensures r == -1 ==> header == old(header) && body == old(body)
    {
      var h;
      r, h := TakeFirst();
      if r == -1 {
        return;
      }
      StandsAfter(header, h, body, r, true, Fill(1, h.s));
      OtherBlocks(body, h.s, r, Fill(1, h.s));
      header := h;
      body := WriteAt(body, Offset(header.s, r), Fill(1, header.s));
    }

    method WriteToFreeBlock(data: seq<bv8>) returns (r: int)
      requires Valid()
      modifies this
      ensures Valid() && Outcome(Value(), r) == Wrote(old(Value()), data)
      ensures r != -1 ==> 0 <= r < header.n && |data| <= header.s && BlockAt(body, header.s, r)[..|data|] == data
      ensures r != -1 ==> forall k :: |data| <= k < header.s ==> BlockAt(body, header.s, r)[k] == 0
      ensures forall j: nat :: j != r ==> BlockAt(body, header.s, j) == BlockAt(old(body), old(header).s, j)
      ensures r == -1 ==> header == old(header) && body == old(body)
    {
      if |data| > header.s {
        return -1;
      }
      var h;
      r, h := TakeFirst();
      if r == -1 {
        return;
      }
      var blockData := Fill(0, h.s);
      blockData := data + blockData[|data|..];
      assert blockData == Padded(data, h.s);
      StandsAfter(header, h, body, r, true, blockData);
      OtherBlocks(body, h.s, r, blockData);
      header := h;
      body := WriteAt(body, Offset(header.s, r), blockData);
    }

    /** Clears the bit and zeroes the block. */
    method FreeBlock(blockIndex: int) returns (r: int)
      requires Valid()
      modifies this
      ensures Valid() && Outcome(Value(), r) == Freed(old(Value()), blockIndex)
      ensures r == 0 ==> 0 <= blockIndex && forall k :: 0 <= k < header.s ==> BlockAt(body, header.s, blockIndex)[k] == 0
      ensures forall j: nat :: j != blockIndex ==> BlockAt(body, header.s, j) == BlockAt(old(body), old(header).s, j)
      ensures r != 0 ==> r == -1 && header == old(header) && body == old(body)
    {
      if blockIndex < 0 || blockIndex >= header.n {
        return -1;
      }
      var i := blockIndex;
      var used := TestBit(header.ub, i);
      if !used {
        return -1;
      }
      var h := ClearBit(i);
      StandsAfter(header, h, body, i, false, Fill(0, h.s));
      OtherBlocks(body, h.s, i, Fill(0, h.s));
      header := h;
      body := WriteAt(body, Offset(header.s, i), Fill(0, header.s));
      r := 0;
    }

    /** The header with the bit of i cleared and counted. */
    method ClearBit(i: nat) returns (h: FileHeader)
      requires Valid() && i < MAX_BLOCKS
      ensures Flipped(header, h, i, false)
    {
      SetBit(header.ub, i);
      h := header.(ub := header.ub[i / 8 := header.ub[i / 8] & !Mask(i % 8)]);
      h := h.(ubn := h.ubn - 1);
      h := h.(fbn := h.fbn + 1);
    }

    static method TestBit(ub: seq<bv8>, i: nat) returns (used: bool)
      requires |ub| == BITMAP_BYTES && i < MAX_BLOCKS
      ensures used <==> i in Used(ub)
    {
      UsedIs(ub, i);
      used := ub[i / 8] & Mask(i % 8) != 0;
    }

    static method CountBit(ub: seq<bv8>, i: nat) returns (used: bool)
      requires |ub| == BITMAP_BYTES && i < MAX_BLOCKS
      ensures CountBelow(ub, i + 1) == CountBelow(ub, i) + if used then 1 else 0
    {
      used := ub[i / 8] & Mask(i % 8) != 0;
    }

    /** The counting loop of check_fs. */
    static method CountUsed(ub: seq<bv8>, n: nat) returns (actualUsedBlocks: nat)
      requires |ub| == BITMAP_BYTES && n <= MAX_BLOCKS
      ensures actualUsedBlocks == |UsedBelow(ub, n)|
    {
      actualUsedBlocks := 0;
      var i := 0;
      while i < n
        invariant 0 <= i <= n && actualUsedBlocks == CountBelow(ub, i)
      {
        var used := CountBit(ub, i);
        if used {
          actualUsedBlocks := actualUsedBlocks + 1;
        }
        i := i + 1;
      }
      CountIs(ub, n);
    }

    /** 0 exactly when both counters agree with the bitmap, whatever state the header is in. */
    method CheckFs() returns (r: int)
      requires |header.ub| == BITMAP_BYTES && 0 <= header.n <= MAX_BLOCKS
      ensures r == 0 <==> header.ubn == |UsedBelow(header.ub, header.n)| && header.ubn + header.fbn == header.n
      ensures r == 0 || r == -1
      ensures Valid() ==> r == 0
    {
      var actualUsedBlocks := CountUsed(header.ub, header.n);
      UsedAll(header.ub, header.n);
      if header.ubn != actualUsedBlocks {
        return -1;
      }
      if header.ubn + header.fbn != header.n {
        return -1;
      }
      return 0;
    }

    /** The menu loop: whatever operations are chosen, the file stands for the run, and check_fs finds nothing wrong. */
    method Menu(ops: seq<Op>) returns (check: int)
      requires Valid() && ValidOps(ops)
      modifies this
      ensures Valid() && Value() == Run(old(Value()), ops) && check == 0
    {
      var k := 0;
      assert ops[0..] == ops;
      while k < |ops|
        invariant 0 <= k <= |ops| && Valid()
        invariant Run(Value(), ops[k..]) == Run(old(Value()), ops)
      {
        assert ops[k..][1..] == ops[k + 1..] && ops[k..][0] == ops[k];
        Choose(ops[k]);
        k := k + 1;
      }
      check := CheckFs();
    }

    method Choose(op: Op)
      requires Valid() && op.Valid()
      modifies this
      ensures Valid() && Value() == Step(old(Value()), op).blocks
    {
      match op
      case Init(bsize, bno) => InitFileDd(bsize, bno);
      case Get => var _ := GetFreeBlock();
      case Write(data) => var _ := WriteToFreeBlock(data);
      case Free(i) => var _ := FreeBlock(i);
    }
  }
}
