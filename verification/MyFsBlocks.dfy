/** The on-disk records of os_day9/myfs_adv.c: superblock, blocks, and 21-byte directory entries. */
module MyFsBlocks {
  import opened Bytes

  const BLOCK_SIZE := 4096
  const BUFFER_SIZE := 4088
  const METADATA_SIZE := 21
  const FILENAME_LEN := 12
  const MAX_PATH_LEN := 1024
  /** Entries per directory block: 4088 / 21. */
  const SLOTS := 194
  const MYFILE: byte := 1
  const MYFOLDER: byte := 2
  /** Largest nblocks whose byte offsets fit a C int. */
  const MAX_BLOCKS := 0x7_FFFF

  datatype Superblock = Superblock(bsize: int, nblocks: int, freeblock: int, rootblock: int)

  type buffer = b: seq<byte> | |b| == BUFFER_SIZE witness Zeros(BUFFER_SIZE)

  datatype Block = Block(id: int, buffer: buffer, nextblock: int)

  /** The packed record 1 + 12 + 4 + 4. kind 0 marks an empty slot. */
  datatype Fd = Fd(kind: byte, name: seq<byte>, firstblock: int, fsize: int)
  {
    predicate Valid() {
      |name| == FILENAME_LEN && 0 <= firstblock < WORD && 0 <= fsize < WORD
    }
  }

  /** What strcmp sees of a name field: it goes on into the bytes behind when the field holds no NUL. */
  function Seen(e: Fd): cstring {
    CStr(e.name + EncodeWord(e.firstblock) + EncodeWord(e.fsize))
  }

  const EMPTY_FD := Fd(0, Zeros(FILENAME_LEN), 0, 0)

  function EncodeFd(e: Fd): (r: seq<byte>)
    requires e.Valid()
    ensures |r| == METADATA_SIZE && r[0] == e.kind
  {
    [e.kind] + e.name + EncodeWord(e.firstblock) + EncodeWord(e.fsize)
  }

  function DecodeFd(r: seq<byte>): (e: Fd)
    requires |r| == METADATA_SIZE
    ensures e.Valid() && e.kind == r[0]
  {
    Fd(r[0], r[1..13], DecodeWord(r[13..17]), DecodeWord(r[17..21]))
  }

  /** Entries survive the copy into a buffer and back. */
  lemma DecodeEncodeFd(e: Fd)
    requires e.Valid()
    ensures DecodeFd(EncodeFd(e)) == e
  {
    var r, front := EncodeFd(e), [e.kind] + e.name;
    var f, z := EncodeWord(e.firstblock), EncodeWord(e.fsize);
    assert r == front + f + z && |front| == 13 && |front + f| == 17;
    assert r[1..13] == e.name;
    assert r[13..17] == f;
    assert r[17..21] == z;
    DecodeEncodeWord(e.firstblock);
    DecodeEncodeWord(e.fsize);
  }

  lemma EncodeEmpty()
    ensures EMPTY_FD.Valid() && EncodeFd(EMPTY_FD) == Zeros(METADATA_SIZE)
  {
  }

  /** memcpy of slot i out of a directory buffer. */
  function EntryAt(buf: buffer, i: int): (e: Fd)
    requires 0 <= i < SLOTS
    ensures e.Valid() && e.kind == buf[i * METADATA_SIZE]
  {
    DecodeFd(buf[i * METADATA_SIZE..(i + 1) * METADATA_SIZE])
  }

  /** memcpy of an entry into slot i of a directory buffer. */
  function PutEntry(buf: buffer, i: int, e: Fd): buffer
    requires 0 <= i < SLOTS && e.Valid()
  {
    buf[..i * METADATA_SIZE] + EncodeFd(e) + buf[(i + 1) * METADATA_SIZE..]
  }

  /** The offset of the last block, MAX_BLOCKS * 4096, fits a C int, and no larger one would. */
  lemma OffsetsFit()
    ensures MAX_BLOCKS * 4096 <= 0x7FFF_FFFF < (MAX_BLOCKS + 1) * 4096
  {
  }

  /** In numbers: slot i takes the 21 bytes from 21 * i on, kind, name, first block and size in that order, and 194 slots
      fit into the 4088 bytes of a block. */
  lemma SlotBytes(buf: buffer, i: int, e: Fd)
    requires 0 <= i < 194 && e.Valid()
    ensures |PutEntry(buf, i, e)| == |buf| == 4088 < 195 * 21
    ensures PutEntry(buf, i, e)[21 * i..21 * i + 21]
            == [e.kind] + e.name + EncodeWord(e.firstblock) + EncodeWord(e.fsize)
    ensures |e.name| == 12
    ensures forall k :: 0 <= k < 4088 && !(21 * i <= k < 21 * i + 21) ==> PutEntry(buf, i, e)[k] == buf[k]
  {
  }

  /** Writing one slot changes that slot to the entry written and no other. */
  lemma EntryAtPut(buf: buffer, i: int, e: Fd, j: int)
    requires 0 <= i < SLOTS && 0 <= j < SLOTS && e.Valid()
    ensures EntryAt(PutEntry(buf, i, e), j) == if j == i then e else EntryAt(buf, j)
  {
    var buf' := PutEntry(buf, i, e);
    var lo, hi := j * METADATA_SIZE, (j + 1) * METADATA_SIZE;
    if j == i {
      assert buf'[lo..hi] == EncodeFd(e);
      DecodeEncodeFd(e);
    } else {
      assert buf'[lo..hi] == buf[lo..hi];
    }
  }

  lemma EntryAtZeros(i: int)
    requires 0 <= i < SLOTS
    ensures EntryAt(Zeros(BUFFER_SIZE), i) == EMPTY_FD
  {
    var z: buffer := Zeros(BUFFER_SIZE);
    EncodeEmpty();
    assert z[i * METADATA_SIZE..(i + 1) * METADATA_SIZE] == Zeros(METADATA_SIZE);
    DecodeEncodeFd(EMPTY_FD);
  }

  /** All slots of a directory chain, block after block. */
  function Slots(bufs: seq<buffer>): (slots: seq<Fd>)
    ensures |slots| == SLOTS * |bufs|
    ensures forall i :: 0 <= i < |slots| ==> slots[i] == EntryAt(bufs[i / SLOTS], i % SLOTS) && slots[i].Valid()
  {
    seq(SLOTS * |bufs|, i requires 0 <= i < SLOTS * |bufs| => EntryAt(bufs[i / SLOTS], i % SLOTS))
  }

  lemma SlotsOfPut(bufs: seq<buffer>, i: int, e: Fd)
    requires 0 <= i < SLOTS * |bufs| && e.Valid()
    ensures Slots(bufs[i / SLOTS := PutEntry(bufs[i / SLOTS], i % SLOTS, e)]) == Slots(bufs)[i := e]
  {
    var k := i / SLOTS;
    var bufs' := bufs[k := PutEntry(bufs[k], i % SLOTS, e)];
    forall j | 0 <= j < |Slots(bufs)|
      ensures Slots(bufs')[j] == Slots(bufs)[i := e][j]
    {
      if j / SLOTS == k {
        EntryAtPut(bufs[k], i % SLOTS, e, j % SLOTS);
      }
    }
  }

  /** A directory that grows by a zeroed block gains only empty slots. */
  lemma SlotsOfGrow(bufs: seq<buffer>)
    ensures Slots(bufs + [Zeros(BUFFER_SIZE)]) == Slots(bufs) + seq(SLOTS, _ => EMPTY_FD)
  {
    var bufs' := bufs + [Zeros(BUFFER_SIZE)];
    forall j | 0 <= j < |Slots(bufs')|
      ensures Slots(bufs')[j] == (Slots(bufs) + seq(SLOTS, _ => EMPTY_FD))[j]
    {
      if j >= |Slots(bufs)| {
        EntryAtZeros(j % SLOTS);
      }
    }
  }
}
