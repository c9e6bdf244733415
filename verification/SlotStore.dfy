/**
 The flat store of os_day8/mymkfs.c: a table of 2048 slots of 16 bytes in the
 first 8 blocks of the image, and one data block of 4096 bytes for every slot.
 */
module SlotStore {
  import opened Bytes

  const BLOCK_SIZE := 4096
  const METADATA_BLOCKS := 8
  const DATA_BLOCKS := 2048
  const METADATA_SIZE := 16
  const FILENAME_LEN := 12
  const IMAGE_SIZE := (METADATA_BLOCKS + DATA_BLOCKS) * BLOCK_SIZE

  // ----- bytes of the image

  /** lseek and write inside the image. */
  function Splice(img: seq<byte>, off: nat, bytes: seq<byte>): (r: seq<byte>)
    requires off + |bytes| <= |img|
    ensures |r| == |img|
    ensures forall k :: 0 <= k < |r| ==> r[k] == if off <= k < off + |bytes| then bytes[k - off] else img[k]
  {
    img[..off] + bytes + img[off + |bytes|..]
  }

  function MetaOffset(i: nat): nat {
    i * METADATA_SIZE
  }

  function DataOffset(i: nat): nat {
    (METADATA_BLOCKS + i) * BLOCK_SIZE
  }

  function NameField(img: seq<byte>, i: nat): (f: seq<byte>)
    requires |img| == IMAGE_SIZE && i < DATA_BLOCKS
    ensures |f| == FILENAME_LEN
  {
    img[MetaOffset(i)..MetaOffset(i) + FILENAME_LEN]
  }

  function NameAt(img: seq<byte>, i: nat): cstring
    requires |img| == IMAGE_SIZE && i < DATA_BLOCKS
  {
    CStr(NameField(img, i))
  }

  predicate InUse(img: seq<byte>, i: nat)
    requires |img| == IMAGE_SIZE && i < DATA_BLOCKS
  {
    img[MetaOffset(i)] != 0
  }

  function SizeField(img: seq<byte>, i: nat): (w: seq<byte>)
    requires |img| == IMAGE_SIZE && i < DATA_BLOCKS
    ensures |w| == 4
  {
    img[MetaOffset(i) + FILENAME_LEN..MetaOffset(i) + METADATA_SIZE]
  }

  function SizeAt(img: seq<byte>, i: nat): int
    requires |img| == IMAGE_SIZE && i < DATA_BLOCKS
  {
    DecodeWord(SizeField(img, i))
  }

  function BlockAt(img: seq<byte>, i: nat): (b: seq<byte>)
    requires |img| == IMAGE_SIZE && i < DATA_BLOCKS
    ensures |b| == BLOCK_SIZE
  {
    img[DataOffset(i)..DataOffset(i) + BLOCK_SIZE]
  }

  /** What the image holds about one slot; an unused slot has the empty name. */
  datatype Slot = Slot(name: cstring, size: int, block: seq<byte>)
  {
    /** What mycopyfrom writes out. */
    function File(): (f: seq<byte>)
      ensures f <= block && (size < 0 ==> f == [])
      ensures if 0 <= size <= |block| then |f| == size else size > 0 ==> f == block
    {
      block[..Min(if size < 0 then 0 else size, |block|)]
    }

    /** What strcmp takes for the name: a field without a NUL is read on into the size behind it. */
    function Seen(): cstring {
      if |name| < FILENAME_LEN then name else name + CStr(EncodeWord(size))
    }
  }

  function SlotAt(img: seq<byte>, i: nat): Slot
    requires |img| == IMAGE_SIZE && i < DATA_BLOCKS
  {
    Slot(NameAt(img, i), SizeAt(img, i), BlockAt(img, i))
  }

  function Table(img: seq<byte>): (t: seq<Slot>)
    requires |img| == IMAGE_SIZE
    ensures |t| == DATA_BLOCKS && forall i :: 0 <= i < |t| ==> t[i] == SlotAt(img, i)
  {
    seq(DATA_BLOCKS, i requires 0 <= i < DATA_BLOCKS => SlotAt(img, i))
  }

  /** In numbers: 2048 records of 16 bytes from the start of the image, 2048 blocks of 4096 bytes behind them. */
  lemma SlotLayout(img: seq<byte>, i: nat)
    requires |img| == 8421376 && i < 2048
    ensures |img| == IMAGE_SIZE == 32768 + 2048 * 4096 && DATA_BLOCKS == 2048
    ensures NameField(img, i) == img[16 * i..16 * i + 12] && SizeField(img, i) == img[16 * i + 12..16 * i + 16]
    ensures BlockAt(img, i) == img[32768 + 4096 * i..36864 + 4096 * i]
    ensures InUse(img, i) <==> img[16 * i] != 0
  {
  }

  /** img' is img with a file in slot u: the first twelve characters of its name, padded with zeros, its size, its data. */
  ghost predicate PutBytes(img: seq<byte>, img': seq<byte>, u: nat, name: cstring, data: seq<byte>)
    requires |img| == |img'|
  {
    forall k :: 0 <= k < |img| ==>
      img'[k] == if 16 * u <= k < 16 * u + 12 then (if k - 16 * u < |name| then name[k - 16 * u] else 0)
                 else if 16 * u + 12 <= k < 16 * u + 16 then EncodeWord(|data|)[k - 16 * u - 12]
                 else if 32768 + 4096 * u <= k < 32768 + 4096 * u + |data| then data[k - 32768 - 4096 * u]
                 else img[k]
  }

  lemma PutBytesIs(img: seq<byte>, u: nat, name: cstring, data: seq<byte>)
    requires |img| == IMAGE_SIZE && u < DATA_BLOCKS && |data| <= BLOCK_SIZE
    ensures |name[..Min(|name|, FILENAME_LEN)]| <= FILENAME_LEN && DataOffset(u) + |data| <= |img|
    ensures var key: cstring := name[..Min(|name|, FILENAME_LEN)];
            PutBytes(img, Splice(Splice(img, MetaOffset(u), MetaRecord(key, |data|)), DataOffset(u), data), u, name, data)
  {
    var key: cstring := name[..Min(|name|, FILENAME_LEN)];
    var rec := MetaRecord(key, |data|);
    assert rec[..12] == Pad(key, 12) && rec[12..] == EncodeWord(|data|);
    forall k | 0 <= k < 16
      ensures rec[k] == if k < 12 then (if k < |name| then name[k] else 0) else EncodeWord(|data|)[k - 12]
    {
      if k < 12 {
        assert rec[k] == rec[..12][k];
      } else {
        assert rec[k] == rec[12..][k - 12];
      }
    }
  }

  /** img' is img with the record of slot i zeroed. */
  ghost predicate ErasedBytes(img: seq<byte>, img': seq<byte>, i: int)
    requires |img| == |img'|
  {
    forall k :: 0 <= k < |img| ==> img'[k] == if 16 * i <= k < 16 * i + 16 then 0 else img[k]
  }

  lemma InUseIsNamed(img: seq<byte>, i: nat)
    requires |img| == IMAGE_SIZE && i < DATA_BLOCKS
    ensures InUse(img, i) <==> NameAt(img, i) != []
  {
  }

  function MetaRecord(name: cstring, size: nat): (r: seq<byte>)
    requires |name| <= FILENAME_LEN && size < WORD
    ensures |r| == METADATA_SIZE
  {
    Pad(name, FILENAME_LEN) + EncodeWord(size)
  }

  lemma SliceJoin(img: seq<byte>, o: nat, m: nat, n: nat)
    requires m <= n && o + n <= |img|
    ensures img[o..o + n] == img[o..o + m] + img[o + m..o + n]
  {
  }

  lemma SpliceApart(img: seq<byte>, off: nat, bytes: seq<byte>, a: nat, b: nat)
    requires off + |bytes| <= |img| && a <= b <= |img| && (b <= off || off + |bytes| <= a)
    ensures Splice(img, off, bytes)[a..b] == img[a..b]
  {
  }

  lemma SpliceInside(img: seq<byte>, off: nat, bytes: seq<byte>, m: nat, n: nat)
    requires off + |bytes| <= |img| && m <= n <= |bytes|
    ensures Splice(img, off, bytes)[off + m..off + n] == bytes[m..n]
  {
  }

  lemma MetaOwn(img: seq<byte>, i: nat, rec: seq<byte>)
    requires |img| == IMAGE_SIZE && i < DATA_BLOCKS && |rec| == METADATA_SIZE
    ensures var t := Splice(img, MetaOffset(i), rec);
            NameField(t, i) == rec[..FILENAME_LEN] && SizeField(t, i) == rec[FILENAME_LEN..]
  {
    SpliceInside(img, MetaOffset(i), rec, 0, FILENAME_LEN);
    SpliceInside(img, MetaOffset(i), rec, FILENAME_LEN, METADATA_SIZE);
    assert rec[FILENAME_LEN..METADATA_SIZE] == rec[FILENAME_LEN..];
  }

  lemma MetaOther(img: seq<byte>, i: nat, rec: seq<byte>, j: nat)
    requires |img| == IMAGE_SIZE && i < DATA_BLOCKS && j < DATA_BLOCKS && |rec| == METADATA_SIZE
    ensures var t := Splice(img, MetaOffset(i), rec);
            && BlockAt(t, j) == BlockAt(img, j)
            && (j != i ==> NameField(t, j) == NameField(img, j) && SizeField(t, j) == SizeField(img, j))
  {
    var o := MetaOffset(j);
    SpliceApart(img, MetaOffset(i), rec, DataOffset(j), DataOffset(j) + BLOCK_SIZE);
    if j != i {
      SpliceApart(img, MetaOffset(i), rec, o, o + FILENAME_LEN);
      SpliceApart(img, MetaOffset(i), rec, o + FILENAME_LEN, o + METADATA_SIZE);
    }
  }

  /** A metadata record lies before every data block and inside its own slot. */
  lemma MetaWrite(img: seq<byte>, i: nat, rec: seq<byte>, j: nat)
    requires |img| == IMAGE_SIZE && i < DATA_BLOCKS && j < DATA_BLOCKS && |rec| == METADATA_SIZE
    ensures var t := Splice(img, MetaOffset(i), rec);
            SlotAt(t, j) == if j == i then Slot(CStr(rec[..FILENAME_LEN]), DecodeWord(rec[FILENAME_LEN..]), BlockAt(img, i))
                            else SlotAt(img, j)
  {
    MetaOwn(img, i, rec);
    MetaOther(img, i, rec, j);
  }

  lemma BlockWrite(img: seq<byte>, i: nat, data: seq<byte>, j: nat)
    requires |img| == IMAGE_SIZE && i < DATA_BLOCKS && j < DATA_BLOCKS && |data| <= BLOCK_SIZE
    ensures DataOffset(i) + |data| <= |img|
    ensures BlockAt(Splice(img, DataOffset(i), data), j) ==
            if j == i then data + BlockAt(img, i)[|data|..] else BlockAt(img, j)
  {
    var o := DataOffset(i);
    if j != i {
      SpliceApart(img, o, data, DataOffset(j), DataOffset(j) + BLOCK_SIZE);
    } else {
      var t := Splice(img, o, data);
      SliceJoin(t, o, |data|, BLOCK_SIZE);
      SpliceInside(img, o, data, 0, |data|);
      SpliceApart(img, o, data, o + |data|, o + BLOCK_SIZE);
      assert img[o + |data|..o + BLOCK_SIZE] == BlockAt(img, i)[|data|..];
    }
  }

  /** Data written to block i stays inside it and behind the table; a shorter file leaves the stale tail. */
  lemma DataWrite(img: seq<byte>, i: nat, data: seq<byte>, j: nat)
    requires |img| == IMAGE_SIZE && i < DATA_BLOCKS && j < DATA_BLOCKS && |data| <= BLOCK_SIZE
    ensures DataOffset(i) + |data| <= |img|
    ensures var t := Splice(img, DataOffset(i), data);
            SlotAt(t, j) == if j == i then SlotAt(img, i).(block := data + BlockAt(img, i)[|data|..]) else SlotAt(img, j)
  {
    var o := MetaOffset(j);
    BlockWrite(img, i, data, j);
    SpliceApart(img, DataOffset(i), data, o, o + FILENAME_LEN);
    SpliceApart(img, DataOffset(i), data, o + FILENAME_LEN, o + METADATA_SIZE);
  }

  /** mycopyto's two writes change one slot of the table, to the name, the size, and the data over the stale block. */
  lemma CopyWrites(img: seq<byte>, i: nat, name: cstring, data: seq<byte>)
    requires |img| == IMAGE_SIZE && i < DATA_BLOCKS && |name| <= FILENAME_LEN && |data| <= BLOCK_SIZE
    ensures DataOffset(i) + |data| <= IMAGE_SIZE
    ensures var t := Splice(Splice(img, MetaOffset(i), MetaRecord(name, |data|)), DataOffset(i), data);
            Table(t) == Table(img)[i := Slot(name, |data|, data + BlockAt(img, i)[|data|..])]
  {
    var rec := MetaRecord(name, |data|);
    var mid := Splice(img, MetaOffset(i), rec);
    DataWrite(mid, i, data, i);
    var t := Splice(mid, DataOffset(i), data);
    assert rec[..FILENAME_LEN] == Pad(name, FILENAME_LEN) && rec[FILENAME_LEN..] == EncodeWord(|data|);
    CStrOfPad(name, FILENAME_LEN);
    DecodeEncodeWord(|data|);
    forall j | 0 <= j < DATA_BLOCKS
      ensures Table(t)[j] == Table(img)[i := Slot(name, |data|, data + BlockAt(img, i)[|data|..])][j]
    {
      MetaWrite(img, i, rec, j);
      DataWrite(mid, i, data, j);
    }
  }

  /** myrm's write empties one slot of the table. */
  lemma RemoveWrite(img: seq<byte>, i: nat)
    requires |img| == IMAGE_SIZE && i < DATA_BLOCKS
    ensures Table(Splice(img, MetaOffset(i), Zeros(METADATA_SIZE))) == Table(img)[i := Slot([], 0, BlockAt(img, i))]
  {
    var rec := Zeros(METADATA_SIZE);
    forall j | 0 <= j < DATA_BLOCKS
      ensures Table(Splice(img, MetaOffset(i), rec))[j] == Table(img)[i := Slot([], 0, BlockAt(img, i))][j]
    {
      MetaWrite(img, i, rec, j);
    }
  }

  lemma RecordSeen(field: seq<byte>, word: seq<byte>, s: Slot)
    requires |field| == FILENAME_LEN && s.name == CStr(field) && EncodeWord(s.size) == word
    ensures CStr(field + word) == s.Seen()
  {
    CStrJoin(field, word);
  }

  lemma SeenInRecord(img: seq<byte>, i: nat, record: seq<byte>)
    requires |img| == IMAGE_SIZE && i < DATA_BLOCKS && record == img[MetaOffset(i)..MetaOffset(i) + METADATA_SIZE]
    ensures CStr(record) == SlotAt(img, i).Seen()
  {
    var word := SizeField(img, i);
    SliceJoin(img, MetaOffset(i), FILENAME_LEN, METADATA_SIZE);
    EncodeDecodeWord(word);
    RecordSeen(NameField(img, i), word, SlotAt(img, i));
  }

  // ----- the operations on tables

  /** strncpy and strncmp look at this much of a name. */
  function Cut(name: cstring): (key: cstring)
    ensures |key| <= FILENAME_LEN && (name != [] ==> key != [])
  {
    name[..Min(|name|, FILENAME_LEN)]
  }

  /** The first slot with this name field, -1 if there is none. */
  function FirstNamed(table: seq<Slot>, key: cstring): (r: int)
    ensures -1 <= r < |table|
    ensures forall j :: 0 <= j < (if r < 0 then |table| else r) ==> table[j].name != key
    ensures r >= 0 ==> table[r].name == key
  {
    if table == [] then -1
    else
      var front := table[..|table| - 1];
      var r := FirstNamed(front, key);
      assert forall j :: 0 <= j < |front| ==> table[j] == front[j];
      if r >= 0 then r else if table[|table| - 1].name == key then |table| - 1 else -1
  }

  predicate SeenAs(s: Slot, name: cstring) {
    s.name != [] && s.Seen() == name
  }

  predicate Taken(table: seq<Slot>, name: cstring) {
    exists j :: 0 <= j < |table| && SeenAs(table[j], name)
  }

  predicate Admits(table: seq<Slot>, name: cstring, size: nat) {
    !Taken(table, name) && size <= BLOCK_SIZE && FirstNamed(table, []) >= 0
  }

  predicate Blocks(table: seq<Slot>) {
    forall i :: 0 <= i < |table| ==> |table[i].block| == BLOCK_SIZE && 0 <= table[i].size && (table[i].size <= BLOCK_SIZE || table[i].name == [])
  }

  function CopiedTo(table: seq<Slot>, name: cstring, data: seq<byte>): seq<Slot>
    requires Blocks(table)
  {
    if !Admits(table, name, |data|) then table
    else
      var u := FirstNamed(table, []);
      table[u := Slot(Cut(name), |data|, data + table[u].block[|data|..])]
  }

  function CopiedFrom(table: seq<Slot>, name: cstring): Option<seq<byte>> {
    var i := FirstNamed(table, Cut(name));
    if i < 0 then None else Some(table[i].File())
  }

  function Removed(table: seq<Slot>, name: cstring): seq<Slot> {
    var i := FirstNamed(table, Cut(name));
    if i < 0 then table else table[i := Slot([], 0, table[i].block)]
  }

  lemma FirstNamedIs(table: seq<Slot>, key: cstring, r: int)
    requires -1 <= r < |table| && (r >= 0 ==> table[r].name == key)
    requires forall j :: 0 <= j < (if r < 0 then |table| else r) ==> table[j].name != key
    ensures FirstNamed(table, key) == r
  {
  }

  /** Any name, long or short: a file just stored is what mycopyfrom finds if and only if no slot before it has the same
      first twelve characters. */
  lemma StoredIsFound(table: seq<Slot>, name: cstring, data: seq<byte>)
    requires Blocks(table) && name != [] && Admits(table, name, |data|)
    ensures var u, t := FirstNamed(table, []), CopiedTo(table, name, data);
            && FirstNamed(t, Cut(name)) == u <==> forall j :: 0 <= j < u ==> table[j].name != Cut(name)
    ensures CopiedTo(table, name, data)[FirstNamed(table, [])].File() == data
  {
    var u, t := FirstNamed(table, []), CopiedTo(table, name, data);
    if forall j :: 0 <= j < u ==> table[j].name != Cut(name) {
      FirstNamedIs(t, Cut(name), u);
    } else {
      assert forall j :: 0 <= j < u ==> t[j] == table[j];
    }
  }

  /** And a second copy of that name is refused on its account if and only if the name is short, or goes on as the bytes of
      the file's size do. */
  lemma StoredIsSeen(table: seq<Slot>, name: cstring, data: seq<byte>)
    requires Blocks(table) && name != [] && Admits(table, name, |data|)
    ensures SeenAs(CopiedTo(table, name, data)[FirstNamed(table, [])], name) <==>
            |name| < FILENAME_LEN || name[FILENAME_LEN..] == CStr(EncodeWord(|data|))
  {
    if |name| >= FILENAME_LEN {
      var tail := CStr(EncodeWord(|data|));
      assert name == Cut(name) + name[FILENAME_LEN..];
      assert (Cut(name) + tail)[FILENAME_LEN..] == tail;
    }
  }

  /** In an empty table a name of 12 characters or more is admitted a second time unless it goes on behind the twelfth as the
      bytes of the first file's size do; mycopyfrom returns the first file all the same. */
  lemma CopiedTwice(table: seq<Slot>, name: cstring, first: seq<byte>, second: seq<byte>)
    requires |table| >= 2 && Blocks(table) && forall i :: 0 <= i < |table| ==> table[i].name == []
    requires |name| >= FILENAME_LEN && |first| <= BLOCK_SIZE && |second| <= BLOCK_SIZE
    ensures Admits(table, name, |first|) && Blocks(CopiedTo(table, name, first))
    ensures Admits(CopiedTo(table, name, first), name, |second|) <==> name[FILENAME_LEN..] != CStr(EncodeWord(|first|))
    ensures CopiedFrom(CopiedTo(CopiedTo(table, name, first), name, second), name) == Some(first)
  {
    var one := CopiedTo(table, name, first);
    FirstNamedIs(table, [], 0);
    StoredIsSeen(table, name, first);
    StoredIsFound(table, name, first);
    FirstNamedIs(one, [], 1);
    assert Taken(one, name) <==> SeenAs(one[0], name);
    FirstNamedIs(CopiedTo(one, name, second), Cut(name), 0);
  }

  // ----- what the table stands for

  predicate GoodName(name: cstring) {
    1 <= |name| < FILENAME_LEN
  }

  /** at says which slot holds which name: each used slot one name, each name one slot. */
  ghost predicate Indexed(table: seq<Slot>, at: map<cstring, nat>) {
    && (forall name :: name in at ==>
          GoodName(name) && at[name] < |table| && table[at[name]].name == name
          && 0 <= table[at[name]].size <= BLOCK_SIZE == |table[at[name]].block|)
    && (forall i :: 0 <= i < |table| && table[i].name != [] ==> table[i].name in at && at[table[i].name] == i)
  }

  ghost function Files(table: seq<Slot>, at: map<cstring, nat>): map<cstring, seq<byte>>
    requires Indexed(table, at)
  {
    map name | name in at :: table[at[name]].File()
  }

  /** Storing into an empty slot adds exactly one file: the stale tail of the block is not part of it. */
  lemma StoreFile(table: seq<Slot>, at: map<cstring, nat>, i: nat, name: cstring, data: seq<byte>, stale: seq<byte>)
    requires Indexed(table, at) && i < |table| && table[i].name == [] && GoodName(name) && name !in at
    requires |data| + |stale| == BLOCK_SIZE
    ensures var t := table[i := Slot(name, |data|, data + stale)];
            Indexed(t, at[name := i]) && Files(t, at[name := i]) == Files(table, at)[name := data]
  {
    var t := table[i := Slot(name, |data|, data + stale)];
    assert t[i].File() == data;
    assert Files(t, at[name := i]) == Files(table, at)[name := data];
  }

  /** Emptying a used slot removes exactly its file. */
  lemma RemoveFile(table: seq<Slot>, at: map<cstring, nat>, name: cstring, s: Slot)
    requires Indexed(table, at) && name in at && s.name == []
    ensures var t := table[at[name] := s];
            Indexed(t, at - {name}) && Files(t, at - {name}) == Files(table, at) - {name}
  {
    var t := table[at[name] := s];
    assert Files(t, at - {name}) == Files(table, at) - {name};
  }

  // ----- counting

  lemma {:induction false} Injected(at: map<cstring, nat>, names: set<cstring>, slots: set<nat>)
    requires forall name :: name in names ==> name in at && at[name] in slots
    requires forall a, b :: a in names && b in names && a != b ==> at[a] != at[b]
    ensures |names| <= |slots|
    ensures (forall i :: i in slots ==> exists name :: name in names && at[name] == i) ==> |names| == |slots|
    decreases |names|
  {
    if name :| name in names {
      Injected(at, names - {name}, slots - {at[name]});
      if forall i :: i in slots ==> exists name :: name in names && at[name] == i {
        forall i | i in slots - {at[name]}
          ensures exists m :: m in names - {name} && at[m] == i
        {
          var m :| m in names && at[m] == i;
          assert m in names - {name};
        }
      }
    } else if i :| i in slots {
      assert names == {};
    }
  }

  /** The table is full exactly when it holds as many names as it has slots. */
  lemma FullTable(table: seq<Slot>, at: map<cstring, nat>)
    requires Indexed(table, at)
    ensures |at| == |table| <==> forall i :: 0 <= i < |table| ==> table[i].name != []
    ensures |at| <= |table|
  {
    Injected(at, at.Keys, Indices(|table|));
    if forall i :: 0 <= i < |table| ==> table[i].name != [] {
      forall i | i in Indices(|table|)
        ensures exists name :: name in at.Keys && at[name] == i
      {
        assert table[i].name in at.Keys;
      }
    }
    if i: nat :| i < |table| && table[i].name == [] {
      Injected(at, at.Keys, Indices(|table|) - {i});
    }
  }

  lemma CountFiles(table: seq<Slot>, at: map<cstring, nat>)
    requires Indexed(table, at)
    ensures Files(table, at).Keys == at.Keys && |Files(table, at)| == |at|
    ensures |at| <= |table|
    ensures |at| == |table| <==> forall i :: 0 <= i < |table| ==> table[i].name != []
  {
    FullTable(table, at);
    assert Files(table, at).Keys == at.Keys;
  }

  lemma RemoveAbsent(files: map<cstring, seq<byte>>, name: cstring)
    requires name !in files
    ensures files - {name} == files
  {
  }

  /** With names of 1 to 11 characters, mycopyto inserts only when absent and not full. */
  lemma CopyToRefines(table: seq<Slot>, at: map<cstring, nat>, name: cstring, data: seq<byte>) returns (after: map<cstring, nat>)
    requires Indexed(table, at) && Blocks(table) && GoodName(name)
    ensures Admits(table, name, |data|) <==> name !in Files(table, at) && |data| <= BLOCK_SIZE && |Files(table, at)| < |table|
    ensures Indexed(CopiedTo(table, name, data), after)
    ensures Files(CopiedTo(table, name, data), after) ==
            if Admits(table, name, |data|) then Files(table, at)[name := data] else Files(table, at)
  {
    CountFiles(table, at);
    ShortSeen(table, at, name);
    after := at;
    if Admits(table, name, |data|) {
      var u := FirstNamed(table, []);
      StoreFile(table, at, u, name, data, table[u].block[|data|..]);
      after := at[name := u];
    }
  }

  /** No slot holds a longer name, so what strcmp sees is the name. */
  lemma ShortSeen(table: seq<Slot>, at: map<cstring, nat>, name: cstring)
    requires Indexed(table, at)
    ensures Taken(table, name) <==> name in at
  {
    if name in at {
      assert SeenAs(table[at[name]], name);
    }
  }

  lemma CopyFromRefines(table: seq<Slot>, at: map<cstring, nat>, name: cstring)
    requires Indexed(table, at) && GoodName(name)
    ensures CopiedFrom(table, name) == if name in Files(table, at) then Some(Files(table, at)[name]) else None
  {
    assert Cut(name) == name;
  }

  lemma RmRefines(table: seq<Slot>, at: map<cstring, nat>, name: cstring)
    requires Indexed(table, at) && GoodName(name)
    ensures Indexed(Removed(table, name), at - {name}) && Files(Removed(table, name), at - {name}) == Files(table, at) - {name}
  {
    assert Cut(name) == name;
    if name in at {
      RemoveFile(table, at, name, Slot([], 0, table[at[name]].block));
    } else {
      assert at - {name} == at;
      RemoveAbsent(Files(table, at), name);
    }
  }

  // ----- runs

  datatype Op = CopyTo(name: cstring, data: seq<byte>) | Rm(name: cstring)

  function Apply(table: seq<Slot>, op: Op): (t: seq<Slot>)
    requires Blocks(table)
    ensures |t| == |table| && Blocks(t)
  {
    match op
    case CopyTo(name, data) => CopiedTo(table, name, data)
    case Rm(name) => Removed(table, name)
  }

  function Run(table: seq<Slot>, ops: seq<Op>): (t: seq<Slot>)
    requires Blocks(table)
    decreases |ops|
  {
    if ops == [] then table else Run(Apply(table, ops[0]), ops[1..])
  }

  /** The same on a map of at most n files. */
  function OnMap(files: map<cstring, seq<byte>>, n: nat, op: Op): map<cstring, seq<byte>> {
    match op
    case CopyTo(name, data) =>
      if name !in files && |data| <= BLOCK_SIZE && |files| < n then files[name := data] else files
    case Rm(name) => files - {name}
  }

  function RunOnMap(files: map<cstring, seq<byte>>, n: nat, ops: seq<Op>): map<cstring, seq<byte>>
    decreases |ops|
  {
    if ops == [] then files else RunOnMap(OnMap(files, n, ops[0]), n, ops[1..])
  }

  /** Every run with names of 1 to 11 characters is a run on a finite map from names to bytes. */
  lemma {:induction false} RunRefines(table: seq<Slot>, at: map<cstring, nat>, ops: seq<Op>) returns (after: map<cstring, nat>)
    requires Indexed(table, at) && Blocks(table) && forall k :: 0 <= k < |ops| ==> GoodName(ops[k].name)
    ensures Indexed(Run(table, ops), after)
    ensures Files(Run(table, ops), after) == RunOnMap(Files(table, at), |table|, ops)
    decreases |ops|
  {
    after := at;
    if ops != [] {
      assert GoodName(ops[0].name);
      match ops[0] {
        case CopyTo(name, data) => after := CopyToRefines(table, at, name, data);
        case Rm(name) =>
          RmRefines(table, at, name);
          after := at - {name};
      }
      after := RunRefines(Apply(table, ops[0]), after, ops[1..]);
    }
  }

  /** An image of zeros holds no file. */
  lemma BlankTable(img: seq<byte>)
    requires |img| == IMAGE_SIZE && forall k :: 0 <= k < |img| ==> img[k] == 0
    ensures Blocks(Table(img)) && Indexed(Table(img), map[]) && Files(Table(img), map[]) == map[]
  {
    forall i | 0 <= i < DATA_BLOCKS
      ensures Table(img)[i].name == []
    {
      InUseIsNamed(img, i);
    }
  }

  class SlotStore {
    const image: array<byte>

    ghost predicate Valid()
      reads this, image
    {
      image.Length == IMAGE_SIZE && Blocks(Table(image[..]))
    }

    ghost function Slots(): seq<Slot>
      requires image.Length == IMAGE_SIZE
      reads this, image
    {
      Table(image[..])
    }

    /** mymkfs: every block of the image is written with zeros. */
    constructor ()
      ensures Valid() && fresh(image)
      ensures Indexed(Slots(), map[]) && Files(Slots(), map[]) == map[]
      ensures image.Length == 8421376 && forall k :: 0 <= k < image.Length ==> image[k] == 0
    {
      image := new byte[IMAGE_SIZE](_ => 0);
      new;
      BlankTable(image[..]);
    }

    method Write(off: nat, bytes: seq<byte>)
      requires off + |bytes| <= image.Length
      modifies image
      ensures image[..] == Splice(old(image[..]), off, bytes)
    {
      forall k | 0 <= k < |bytes| {
        image[off + k] := bytes[k];
      }
    }

    /** lseek to a slot and read its name. */
    method ReadName(i: nat) returns (name: cstring)
      requires image.Length == IMAGE_SIZE && i < DATA_BLOCKS
      ensures name == Slots()[i].name
    {
      var field := image[i * METADATA_SIZE..i * METADATA_SIZE + FILENAME_LEN];
      assert field == NameField(image[..], i);
      name := CStr(field);
    }

    /** The name as strcmp sees it, from the whole record. */
    method ReadSeen(i: nat) returns (name: cstring)
      requires image.Length == IMAGE_SIZE && i < DATA_BLOCKS
      ensures name == Slots()[i].Seen()
    {
      var record := image[i * METADATA_SIZE..i * METADATA_SIZE + METADATA_SIZE];
      SeenInRecord(image[..], i, record);
      name := CStr(record);
    }

    /** The test meta.name[0] == 0. */
    method ReadEmpty(i: nat) returns (empty: bool)
      requires image.Length == IMAGE_SIZE && i < DATA_BLOCKS
      ensures empty <==> Slots()[i].name == []
    {
      InUseIsNamed(image[..], i);
      empty := image[i * METADATA_SIZE] == 0;
    }

    /** The whole data block, cut to the recorded size. */
    method ReadFile(i: nat) returns (data: seq<byte>)
      requires image.Length == IMAGE_SIZE && i < DATA_BLOCKS && 0 <= Slots()[i].size <= BLOCK_SIZE
      ensures data == Slots()[i].File()
    {
      var off := (METADATA_BLOCKS + i) * BLOCK_SIZE;
      var buffer := image[off..off + BLOCK_SIZE];
      assert buffer == BlockAt(image[..], i);
      var word := image[i * METADATA_SIZE + FILENAME_LEN..i * METADATA_SIZE + METADATA_SIZE];
      assert word == image[..][MetaOffset(i) + FILENAME_LEN..MetaOffset(i) + METADATA_SIZE];
      data := buffer[..DecodeWord(word)];
    }

    /** The loops of mycopyfrom and myrm: strncmp over 12 characters. */
    method Find(name: cstring) returns (index: int)
      requires image.Length == IMAGE_SIZE
      ensures index == FirstNamed(Slots(), Cut(name))
    {
      ghost var table := Slots();
      var i := 0;
      while i < DATA_BLOCKS
        invariant 0 <= i <= DATA_BLOCKS
        invariant forall j :: 0 <= j < i ==> table[j].name != Cut(name)
      {
        var metaName := ReadName(i);
        if metaName == Cut(name) {
          FirstNamedIs(table, Cut(name), i);
          return i;
        }
        i := i + 1;
      }
      FirstNamedIs(table, Cut(name), -1);
      return -1;
    }

    /** The first loop of mycopyto: strcmp over used slots. */
    method FindSeen(name: cstring) returns (taken: bool)
      requires image.Length == IMAGE_SIZE
      ensures taken <==> Taken(Slots(), name)
    {
      ghost var table := Slots();
      var i := 0;
      while i < DATA_BLOCKS
        invariant 0 <= i <= DATA_BLOCKS
        invariant forall j :: 0 <= j < i ==> !SeenAs(table[j], name)
      {
        var empty := ReadEmpty(i);
        var metaName := ReadSeen(i);
        if !empty && metaName == name {
          assert SeenAs(table[i], name);
          return true;
        }
        i := i + 1;
      }
      return false;
    }

    /** Its second loop. */
    method FindEmpty() returns (index: int)
      requires image.Length == IMAGE_SIZE
      ensures index == FirstNamed(Slots(), [])
    {
      ghost var table := Slots();
      var i := 0;
      while i < DATA_BLOCKS
        invariant 0 <= i <= DATA_BLOCKS
        invariant forall j :: 0 <= j < i ==> table[j].name != []
      {
        var empty := ReadEmpty(i);
        if empty {
          FirstNamedIs(table, [], i);
          return i;
        }
        i := i + 1;
      }
      FirstNamedIs(table, [], -1);
      return -1;
    }

    method MyCopyTo(name: cstring, data: seq<byte>) returns (ok: bool)
      requires Valid()
      modifies image
      ensures Valid()
      ensures ok <==> Admits(old(Slots()), name, |data|)
      ensures Slots() == CopiedTo(old(Slots()), name, data)
      ensures !ok ==> image[..] == old(image[..])
      ensures ok ==> FirstNamed(old(Slots()), []) >= 0
      ensures ok ==> PutBytes(old(image[..]), image[..], FirstNamed(old(Slots()), []), name, data)
    {
      var taken := FindSeen(name);
      if taken || |data| > BLOCK_SIZE {
        return false;
      }
      var index := FindEmpty();
      if index == -1 {
        return false;
      }
      PutFile(name, data, index);
      ok := true;
    }

    /** The metadata record, then the data, in place. */
    method PutFile(name: cstring, data: seq<byte>, index: nat)
      requires Valid() && index < DATA_BLOCKS && |data| <= BLOCK_SIZE
      modifies image
      ensures image.Length == IMAGE_SIZE
      ensures Slots() == old(Slots())[index := Slot(Cut(name), |data|, data + old(Slots())[index].block[|data|..])]
      ensures PutBytes(old(image[..]), image[..], index, name, data)
    {
      CopyWrites(image[..], index, Cut(name), data);
      PutBytesIs(image[..], index, name, data);
      Write(index * METADATA_SIZE, MetaRecord(Cut(name), |data|));
      Write((METADATA_BLOCKS + index) * BLOCK_SIZE, data);
    }

    /** Reads a whole block and keeps the recorded size of it. */
    method MyCopyFrom(name: cstring) returns (data: Option<seq<byte>>)
      requires Valid() && name != []
      ensures data == CopiedFrom(Slots(), name)
    {
      var index := Find(name);
      if index == -1 {
        return None;
      }
      var bytes := ReadFile(index);
      data := Some(bytes);
    }

    method MyRm(name: cstring) returns (ok: bool)
      requires Valid()
      modifies image
      ensures Valid()
      ensures ok <==> FirstNamed(old(Slots()), Cut(name)) >= 0
      ensures Slots() == Removed(old(Slots()), name)
      ensures if ok then ErasedBytes(old(image[..]), image[..], FirstNamed(old(Slots()), Cut(name)))
              else image[..] == old(image[..])
    {
      var index := Find(name);
      if index == -1 {
        return false;
      }
      RemoveWrite(image[..], index);
      Write(index * METADATA_SIZE, Zeros(METADATA_SIZE));
      ok := true;
    }

    /** The same on a new image. */
    static method StoredTwice(name: cstring, first: seq<byte>, second: seq<byte>) returns (ok: bool, got: Option<seq<byte>>)
      requires |name| >= FILENAME_LEN && |first| <= BLOCK_SIZE && |second| <= BLOCK_SIZE
      ensures ok <==> name[FILENAME_LEN..] != CStr(EncodeWord(|first|))
      ensures got == Some(first)
    {
      var store := new SlotStore();
      CopiedTwice(store.Slots(), name, first, second);
      var _ := store.MyCopyTo(name, first);
      ok := store.MyCopyTo(name, second);
      got := store.MyCopyFrom(name);
    }

    /** Any sequence of commands on a new file system. */
    method Session(ops: seq<Op>)
      requires Valid()
      modifies image
      ensures Valid() && Slots() == Run(old(Slots()), ops)
    {
      var k := 0;
      assert ops[0..] == ops;
      while k < |ops|
        invariant 0 <= k <= |ops| && Valid()
        invariant Run(Slots(), ops[k..]) == Run(old(Slots()), ops)
      {
        assert ops[k..][1..] == ops[k + 1..] && ops[k..][0] == ops[k];
        Execute(ops[k]);
        k := k + 1;
      }
    }

    method Execute(op: Op)
      requires Valid()
      modifies image
      ensures Valid() && Slots() == Apply(old(Slots()), op)
    {
      match op
      case CopyTo(name, data) => var _ := MyCopyTo(name, data);
      case Rm(name) => var _ := MyRm(name);
    }
  }
}
