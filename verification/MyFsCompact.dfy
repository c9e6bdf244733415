/**
 Directories without holes and with unique names: exactly which operations keep
 them so, and that such operations are not seen through another path.
 */
module MyFsCompact {
  import opened Bytes
  import opened MyFsBlocks
  import opened MyFsStore
  import opened MyFsDirectory
  import opened MyFsPaths
  import opened MyFsTree
  import opened MyFsOps
  import opened MyFsConservation
  import opened MyFsContents
  import opened MyFsElsewhere
  import opened MyFsMeaning

  ghost predicate Tidy(slots: seq<Fd>) {
    Compact(slots) && UniqueNames(slots)
  }

  /** Names short enough to be stored with their NUL. */
  predicate Short(path: cstring) {
    |BaseName(path)| < FILENAME_LEN
  }

  ghost predicate AllTidy(s: Store) {
    forall d :: Folder(s, d) ==> Tidy(DirSlots(s, d))
  }

  lemma BlankIsTidy()
    ensures Tidy(Slots([Zeros(BUFFER_SIZE)]))
  {
  }

  // ----- one directory

  /** In a tidy directory an overwrite fills the slot it has cleared. */
  lemma TidyRefill(slots: seq<Fd>, e: Fd, name: cstring)
    requires Tidy(slots) && FindIdx(slots, name) >= 0
    ensures FindIdx(slots, name) < FirstHole(slots) && FirstHole(Cleared(slots, name)) == FindIdx(slots, name)
    ensures WithEntry(Cleared(slots, name), e) == slots[FindIdx(slots, name) := e]
  {
    var r := FindIdx(slots, name);
    assert Match(slots, r, name);
    FirstHoleUnique(slots[r := EMPTY_FD], r);
    assert slots[r := EMPTY_FD][r := e] == slots[r := e];
  }

  /** The slots of a tidy directory after a write are without holes, whatever the entry's name. */
  lemma WriteCompact(slots: seq<Fd>, e: Fd, name: cstring)
    requires Tidy(slots) && Used(e)
    ensures Compact(WithEntry(Cleared(slots, name), e))
  {
    var after := WithEntry(Cleared(slots, name), e);
    if FindIdx(slots, name) >= 0 {
      TidyRefill(slots, e, name);
      FirstHoleUnique(after, FirstHole(slots));
    } else {
      FirstHoleUnique(after, FirstHole(slots) + 1);
    }
  }

  /** A write keeps a tidy directory tidy if and only if the name the entry is seen under was not there, but in the slot
      that the write replaces. */
  lemma TidyWrite(slots: seq<Fd>, e: Fd, name: cstring)
    requires Tidy(slots) && Used(e)
    ensures Tidy(WithEntry(Cleared(slots, name), e)) <==>
            FindIdx(slots, Seen(e)) < 0 || FindIdx(slots, Seen(e)) == FindIdx(slots, name)
  {
    var after, f := WithEntry(Cleared(slots, name), e), FirstHole(Cleared(slots, name));
    var q, r := FindIdx(slots, Seen(e)), FindIdx(slots, name);
    WriteCompact(slots, e, name);
    if r >= 0 {
      TidyRefill(slots, e, name);
    }
    if q < 0 || q == r {
      forall i | 0 <= i < |slots| && Used(slots[i]) && i != f
        ensures Seen(slots[i]) != Seen(e)
      {
        CompactFind(slots, Seen(e));
        assert q >= 0 ==> Match(slots, q, Seen(e));
      }
    } else {
      assert Match(slots, q, Seen(e));
      assert q != f && after[q] == slots[q] && after[f] == e;
    }
  }

  /** A removal keeps it tidy if and only if it takes the last entry, and that stands in the last block. */
  lemma TidyClear(slots: seq<Fd>, i: int)
    requires Tidy(slots) && 0 <= i < FirstHole(slots)
    ensures Tidy(slots[i := EMPTY_FD]) <==> i == FirstHole(slots) - 1 && |slots| - SLOTS <= i
  {
    var after := slots[i := EMPTY_FD];
    FirstHoleUnique(after, i);
    assert i != FirstHole(slots) - 1 ==> Used(after[FirstHole(slots) - 1]);
  }

  /** In a tidy directory a write under one name disturbs no other. */
  lemma TidyUndisturbed(slots: seq<Fd>, name: cstring, other: cstring)
    requires Tidy(slots) && other != name
    ensures !WriteDisturbs(slots, name, other)
  {
    var q, r, f := FindIdx(slots, other), FindIdx(slots, name), FirstHole(Cleared(slots, name));
    if r >= 0 {
      assert Match(slots, r, name);
      FirstHoleUnique(slots[r := EMPTY_FD], r);
    }
    assert q >= 0 ==> Match(slots, q, other);
    forall j | RevealedAt(slots, f, j, other)
      ensures 0 <= q <= j
    {
      CompactVisible(slots, j);
      assert Match(slots, j, other);
    }
  }

  /** It leaves what is found under any other. */
  lemma TidyFindOther(slots: seq<Fd>, e: Fd, name: cstring, other: cstring)
    requires Tidy(slots) && |slots| % SLOTS == 0 && Used(e) && Seen(e) != other && other != name
    ensures var after := WithEntry(Cleared(slots, name), e);
            && FindIdx(after, other) == FindIdx(slots, other)
            && (FindIdx(slots, other) >= 0 ==> after[FindIdx(slots, other)] == slots[FindIdx(slots, other)])
            && (FindIdx(slots, name) >= 0 ==> FindIdx(slots, other) != FindIdx(slots, name))
  {
    TidyUndisturbed(slots, name, other);
    FindAfterWrite(slots, e, name, other);
    var q, r := FindIdx(slots, other), FindIdx(slots, name);
    assert q >= 0 ==> Match(slots, q, other);
    assert r >= 0 ==> Match(slots, r, name);
    if q >= 0 {
      MatchStays(slots, e, name, other, q);
    }
  }

  // ----- every directory

  /** Folders of t other than d are folders of s, unchanged, or empty. */
  ghost predicate FoldersKept(s: Store, t: Store, d: int) {
    forall g :: Folder(t, g) && g != d ==>
      (Folder(s, g) && t.objs[g] == s.objs[g]) || t.objs[g].bufs == [Zeros(BUFFER_SIZE)]
  }

  lemma TidyFromKept(s: Store, t: Store, d: int)
    requires AllTidy(s) && FoldersKept(s, t, d) && Folder(t, d)
    ensures AllTidy(t) <==> Tidy(DirSlots(t, d))
  {
  }

  lemma MkdirFolders(s: Store, path: cstring, d: int)
    requires Ready(s) && ParentOf(s, path) == Some(d) && Lookup(s, d, path) < 0 && s.free != []
    ensures var t := AfterMkdir(s, path).0;
            && Folder(t, d) && FoldersKept(s, t, d)
            && (!CanMkdir(s, path) ==> DirSlots(t, d) == DirSlots(s, d))
  {
    FreeHeadFresh(s);
    EnterFolders(s, d, BaseName(path));
  }

  lemma EnterFolders(s: Store, d: int, name: cstring)
    requires s.free != [] && Folder(s, d) && s.free[0] !in s.objs && 0 <= s.free[0] < WORD && |name| <= FILENAME_LEN
    ensures var t := Enter(s, d, MYFOLDER, name, 0).0;
            Folder(t, d) && FoldersKept(s, t, d)
            && (FirstHole(DirSlots(s, d)) == |DirSlots(s, d)| && |s.free| <= 1 ==> DirSlots(t, d) == DirSlots(s, d))
  {
    EnterIs(s, d, MYFOLDER, name, 0);
    KeptWithNew(s, Enter(s, d, MYFOLDER, name, 0).0, d, s.free[0]);
  }

  lemma KeptWithNew(s: Store, t: Store, d: int, b: int)
    requires t.objs.Keys == s.objs.Keys + {b} && t.objs[b].bufs == [Zeros(BUFFER_SIZE)]
    requires forall h :: h in s.objs && h != d && h != b ==> t.objs[h] == s.objs[h]
    ensures FoldersKept(s, t, d)
  {
  }

  lemma VacatedObjs(s: Store, d: int, path: cstring)
    requires Ready(s) && Folder(s, d)
    ensures var v := Vacated(s, d, path);
            forall g :: g in v.objs && g != d ==> g in s.objs && v.objs[g] == s.objs[g]
  {
  }

  lemma EnteredKind(v: Store, d: int, name: cstring, data: seq<byte>)
    requires Ready(v) && Folder(v, d) && |name| <= FILENAME_LEN && |data| <= MAX_SIZE && v.free != []
    requires 0 <= v.free[0] < WORD
    ensures var r := Enter(v, d, MYFILE, name, |data|);
            && v.free[0] in r.0.objs && |r.0.objs[v.free[0]].chain| == |r.0.objs[v.free[0]].bufs| == 1
            && v.free[0] in WriteData(r.0, v.free[0], 0, data).objs
            && WriteData(r.0, v.free[0], 0, data).objs[v.free[0]].kind == MYFILE
  {
    EnteredIs(v, d, name, |data|);
    WriteDataKeeps(Enter(v, d, MYFILE, name, |data|).0, v.free[0], 0, data);
  }

  lemma KeptWithFile(s: Store, v: Store, t: Store, d: int, b: int)
    requires forall g :: g in v.objs && g != d ==> g in s.objs && v.objs[g] == s.objs[g]
    requires b !in v.objs && t.objs.Keys == v.objs.Keys + {b} && t.objs[b].kind == MYFILE
    requires forall h :: h in v.objs && h != d ==> t.objs[h] == v.objs[h]
    ensures FoldersKept(s, t, d)
  {
  }

  /** Folders after a mycopyto are folders before it, unchanged but for the parent. */
  lemma CopyToFolders(s: Store, path: cstring, data: seq<byte>, d: int)
    requires Ready(s) && |data| <= MAX_SIZE && ParentOf(s, path) == Some(d)
    ensures FoldersKept(s, AfterCopyTo(s, path, data), d)
  {
    if CanEnter(s, d, path) {
      var v := Vacated(s, d, path);
      CopyToFiles(s, path, data, d);
      EnteredKind(v, d, BaseName(path), data);
      VacatedObjs(s, d, path);
      KeptWithFile(s, v, AfterCopyTo(s, path, data), d, v.free[0]);
    } else {
      CopyToRefused(s, path, data, d);
    }
  }

  /** What an operation must meet to keep a tidy tree tidy: a new entry is seen under a name that was not there, but in the
      slot it replaces; a removal takes the last entry of its directory, out of the last block. */
  ghost predicate KeepsTidy(s: Store, op: Op)
    requires Ready(s) && op.Valid()
  {
    Succeeds(s, op) ==>
      var slots := DirSlots(s, ParentOf(s, op.path).value);
      var r := FindIdx(slots, BaseName(op.path));
      if op.OpRm? then r == FirstHole(slots) - 1 && |slots| - SLOTS <= r
      else FindIdx(slots, Seen(NewOf(s, op))) < 0 || FindIdx(slots, Seen(NewOf(s, op))) == r
  }

  lemma MkdirTidy(s: Store, path: cstring)
    requires Ready(s) && AllTidy(s)
    ensures AllTidy(AfterMkdir(s, path).0) <==> KeepsTidy(s, OpMkdir(path))
  {
    var p, t := ParentOf(s, path), AfterMkdir(s, path).0;
    if p.Some? && Lookup(s, p.value, path) < 0 && s.free != [] {
      MkdirFolders(s, path, p.value);
      TidyFromKept(s, t, p.value);
      if CanMkdir(s, path) {
        MkdirWrites(s, path, p.value);
        TidyWrite(DirSlots(s, p.value), NewOf(s, OpMkdir(path)), BaseName(path));
      }
    }
  }

  lemma CopyToTidy(s: Store, path: cstring, data: seq<byte>)
    requires Ready(s) && |data| <= MAX_SIZE && AllTidy(s)
    ensures AllTidy(AfterCopyTo(s, path, data)) <==> KeepsTidy(s, OpCopyTo(path, data))
  {
    var p := ParentOf(s, path);
    if p.Some? {
      if CanEnter(s, p.value, path) {
        CopyToSlots(s, path, data, p.value);
        CopyToFolders(s, path, data, p.value);
        TidyWrite(DirSlots(s, p.value), NewOf(s, OpCopyTo(path, data)), BaseName(path));
        TidyFromKept(s, AfterCopyTo(s, path, data), p.value);
      } else {
        CopyToRefused(s, path, data, p.value);
      }
    }
  }

  lemma RmTidy(s: Store, path: cstring)
    requires Ready(s) && AllTidy(s)
    ensures AllTidy(AfterRm(s, path)) <==> KeepsTidy(s, OpRm(path))
  {
    var p := ParentOf(s, path);
    if p.Some? && Lookup(s, p.value, path) >= 0 {
      RmFrees(s, path, p.value);
      TidyFromKept(s, AfterRm(s, path), p.value);
      assert Tidy(DirSlots(s, p.value));
      TidyClear(DirSlots(s, p.value), Lookup(s, p.value, path));
    }
  }

  /** Exactly when one operation, on any name, keeps every directory without holes and its names unique. */
  lemma ApplyTidy(s: Store, op: Op)
    requires Ready(s) && op.Valid() && AllTidy(s)
    ensures AllTidy(Apply(s, op)) <==> KeepsTidy(s, op)
  {
    match op
    case OpMkdir(path) => MkdirTidy(s, path);
    case OpCopyTo(path, data) => CopyToTidy(s, path, data);
    case OpRm(path) => RmTidy(s, path);
  }

  // ----- runs

  /** All states a run goes through are tidy. */
  ghost predicate TidyThroughout(s: Store, ops: seq<Op>)
    requires Ready(s) && ValidOps(ops)
    decreases |ops|
  {
    AllTidy(s) && (ops == [] || (ApplyInv(s, ops[0]); TidyThroughout(Apply(s, ops[0]), ops[1..])))
  }

  ghost predicate EachKeepsTidy(s: Store, ops: seq<Op>)
    requires Ready(s) && ValidOps(ops)
    decreases |ops|
  {
    ops == [] ||
    (ApplyInv(s, ops[0]);
     KeepsTidy(s, ops[0]) && EachKeepsTidy(Apply(s, ops[0]), ops[1..]))
  }

  lemma {:induction false} RunTidy(s: Store, ops: seq<Op>)
    requires Ready(s) && ValidOps(ops) && AllTidy(s)
    ensures TidyThroughout(s, ops) <==> EachKeepsTidy(s, ops)
    ensures TidyThroughout(s, ops) ==> AllTidy(Run(s, ops))
    decreases |ops|
  {
    if ops != [] {
      ApplyInv(s, ops[0]);
      ApplyTidy(s, ops[0]);
      if KeepsTidy(s, ops[0]) {
        RunTidy(Apply(s, ops[0]), ops[1..]);
      }
    }
  }

  /** No removals, and names that are stored with their NUL. */
  predicate Builds(op: Op) {
    !op.OpRm? && Short(op.path)
  }

  ghost predicate AllBuild(ops: seq<Op>) {
    forall k :: 0 <= k < |ops| ==> Builds(ops[k])
  }

  lemma ShortSeen(s: Store, op: Op)
    requires Ready(s) && op.Valid() && Succeeds(s, op) && Builds(op)
    ensures Seen(NewOf(s, op)) == BaseName(op.path)
  {
    var e := NewOf(s, op);
    SeenNew(e.kind, BaseName(op.path), e.firstblock, e.fsize);
  }

  /** Overwriting included: mycopyto's own removal opens the very slot its new entry fills. */
  lemma {:induction false} BuildTidy(s: Store, ops: seq<Op>)
    requires Ready(s) && ValidOps(ops) && AllBuild(ops) && AllTidy(s)
    ensures EachKeepsTidy(s, ops)
    decreases |ops|
  {
    if ops != [] {
      assert Builds(ops[0]);
      if Succeeds(s, ops[0]) {
        ShortSeen(s, ops[0]);
      }
      ApplyInv(s, ops[0]);
      ApplyTidy(s, ops[0]);
      BuildTidy(Apply(s, ops[0]), ops[1..]);
    }
  }

  /** From a new file system, a run keeps every directory without holes and its names unique all along if and only if each
      step meets its condition. All steps do in runs without myrm under names of at most 11 characters. */
  lemma EveryRunTidy(n: int, ops: seq<Op>)
    requires 1 <= n <= MAX_BLOCKS && ValidOps(ops)
    ensures Ready(InitStore(n))
    ensures TidyThroughout(InitStore(n), ops) <==> EachKeepsTidy(InitStore(n), ops)
    ensures AllBuild(ops) ==> TidyThroughout(InitStore(n), ops)
    ensures TidyThroughout(InitStore(n), ops) ==> AllTidy(Run(InitStore(n), ops))
  {
    InitInv(n);
    BlankIsTidy();
    RunTidy(InitStore(n), ops);
    if AllBuild(ops) {
      BuildTidy(InitStore(n), ops);
    }
  }

  /** An overwrite always finds a free block and an empty slot, in any state. In a tidy directory its entry goes back to
      the slot it came from, and no other slot changes. */
  lemma OverwriteHasRoom(s: Store, path: cstring, data: seq<byte>, d: int)
    requires Ready(s) && |data| <= MAX_SIZE && ParentOf(s, path) == Some(d) && Lookup(s, d, path) >= 0
    ensures CanEnter(s, d, path)
    ensures Folder(AfterCopyTo(s, path, data), d) && |DirSlots(AfterCopyTo(s, path, data), d)| == |DirSlots(s, d)|
    ensures Tidy(DirSlots(s, d)) ==>
              DirSlots(AfterCopyTo(s, path, data), d) == DirSlots(s, d)[Lookup(s, d, path) := NewOf(s, OpCopyTo(path, data))]
  {
    assert CanEnter(s, d, path) by { VacatedIs(s, d, path); }
    assert FirstHole(Cleared(DirSlots(s, d), BaseName(path))) < |DirSlots(s, d)| by { VacatedIs(s, d, path); }
    CopyToSlots(s, path, data, d);
    if Tidy(DirSlots(s, d)) {
      TidyRefill(DirSlots(s, d), NewOf(s, OpCopyTo(path, data)), BaseName(path));
    }
  }

  /** In a tidy directory a myrm leaves nothing behind under its name. */
  lemma TidyForgets(s: Store, path: cstring, d: int)
    requires Ready(s) && ParentOf(s, path) == Some(d) && Tidy(DirSlots(s, d))
    ensures Ready(AfterRm(s, path)) && Found(AfterRm(s, path), path) == None
  {
    RmInv(s, path);
    if Lookup(s, d, path) >= 0 {
      RmForgets(s, path, d);
      assert Match(DirSlots(s, d), Lookup(s, d, path), BaseName(path));
    }
  }

  // ----- one path does not see another

  /** Operations that cannot come between other and its file in a tidy tree. */
  predicate Avoids(op: Op, other: cstring) {
    op.OpMkdir? || !(Steps(op.path) <= Steps(other))
  }

  ghost predicate AllAvoid(ops: seq<Op>, other: cstring) {
    forall k :: 0 <= k < |ops| ==> Avoids(ops[k], other)
  }

  lemma UnderPrefix(at: seq<cstring>, cs: seq<cstring>)
    requires Under(at, cs)
    ensures at + [cs[|at|]] <= cs
  {
    assert cs[..|at| + 1] == cs[..|at|] + [cs[|at|]];
  }

  /** A name that is not there is not revealed by its own entry in a tidy directory. */
  lemma NotThere(slots: seq<Fd>, c: cstring)
    requires Tidy(slots)
    ensures FindIdx(slots, c) < 0 ==> !WriteDisturbs(slots, c, c)
  {
    if FindIdx(slots, c) < 0 {
      assert Cleared(slots, c) == slots;
    }
  }

  /** Nothing stands behind the last entry that a removal could hide. */
  lemma LastHidesNone(slots: seq<Fd>, name: cstring, c: cstring)
    requires Tidy(slots) && FindIdx(slots, name) == FirstHole(slots) - 1 && c != name
    ensures !ClearHides(FindIdx(slots, name), FindIdx(slots, c))
  {
    assert FindIdx(slots, c) >= 0 ==> Match(slots, FindIdx(slots, c), c);
    assert FindIdx(slots, name) >= 0 ==> Match(slots, FindIdx(slots, name), name);
  }

  /** In a tidy tree an operation that keeps it tidy spares every path that does not lead through its own. */
  lemma TidySpares(s: Store, op: Op, other: cstring)
    requires Ready(s) && op.Valid() && AllTidy(s) && KeepsTidy(s, op) && Avoids(op, other)
    ensures Spares(s, op, other)
  {
    if Meets(s, op, other) {
      var slots, name, c := DirSlots(s, ParentOf(s, op.path).value), BaseName(op.path), NameThere(op, other);
      assert Tidy(slots);
      UnderPrefix(ParentComponents(op.path), Steps(other));
      if Takes(s, op, other) {
        TidyTakes(s, op, other);
      } else if op.OpRm? {
        LastHidesNone(slots, name, c);
      } else if c == name {
        NotThere(slots, c);
      } else {
        TidyUndisturbed(slots, name, c);
      }
    }
  }

  /** The name of the new entry was not there; only a path below a copy can go through it without being the copy's. */
  lemma TidyTakes(s: Store, op: Op, other: cstring)
    requires Ready(s) && op.Valid() && AllTidy(s) && KeepsTidy(s, op) && Avoids(op, other) && Takes(s, op, other)
    ensures Spares(s, op, other)
  {
    var at, name, c := ParentComponents(op.path), BaseName(op.path), NameThere(op, other);
    var slots := DirSlots(s, ParentOf(s, op.path).value);
    assert FindIdx(slots, c) >= 0 ==> Match(slots, FindIdx(slots, c), c);
    assert FindIdx(slots, name) >= 0 ==> Match(slots, FindIdx(slots, name), name);
    UnderPrefix(at, Steps(other));
    if |Steps(other)| == |Steps(op.path)| {
      UnderSteps(at, other);
      FittingSeen(s, op);
    }
  }

  lemma FittingSeen(s: Store, op: Op)
    requires Ready(s) && op.Valid() && Succeeds(s, op) && !op.OpRm? && |Seen(NewOf(s, op))| <= FILENAME_LEN
    ensures Seen(NewOf(s, op)) == BaseName(op.path)
  {
    var e := NewOf(s, op);
    SeenIs(e.kind, BaseName(op.path), e.firstblock, e.fsize);
  }

  lemma TidyElsewhere(s: Store, op: Op, other: cstring)
    requires Ready(s) && op.Valid() && AllTidy(s) && KeepsTidy(s, op) && Avoids(op, other)
    ensures Ready(Apply(s, op)) && AllTidy(Apply(s, op)) && FileAt(Apply(s, op), other) == FileAt(s, other)
  {
    TidySpares(s, op, other);
    SparedFile(s, op, other);
    ApplyTidy(s, op);
  }

  lemma {:induction false} TidyRun(s: Store, ops: seq<Op>, other: cstring)
    requires Ready(s) && ValidOps(ops) && AllTidy(s) && EachKeepsTidy(s, ops) && AllAvoid(ops, other)
    ensures EachSpares(s, ops, other)
    decreases |ops|
  {
    if ops != [] {
      assert Avoids(ops[0], other);
      TidySpares(s, ops[0], other);
      TidyElsewhere(s, ops[0], other);
      TidyRun(Apply(s, ops[0]), ops[1..], other);
    }
  }

  /** From a new file system, in a run that keeps it tidy, on any names: what mycopyfrom returns right after a mycopyto it
      returns however many operations on other paths come in between. */
  lemma LastCopyInTidy(n: int, before: seq<Op>, path: cstring, data: seq<byte>, after: seq<Op>)
    requires 1 <= n <= MAX_BLOCKS && ValidOps(before) && ValidOps(after) && |data| <= MAX_SIZE && AllAvoid(after, path)
    requires Ready(InitStore(n)) && EachKeepsTidy(InitStore(n), before)
    requires KeepsTidy(Run(InitStore(n), before), OpCopyTo(path, data))
    requires Ready(AfterCopyTo(Run(InitStore(n), before), path, data))
    requires EachKeepsTidy(AfterCopyTo(Run(InitStore(n), before), path, data), after)
    ensures var t := AfterCopyTo(Run(InitStore(n), before), path, data);
            FileAt(Run(t, after), path) == FileAt(t, path)
  {
    EveryRunTidy(n, before);
    var s := Run(InitStore(n), before);
    CopyToTidy(s, path, data);
    TidyRun(AfterCopyTo(s, path, data), after, path);
    LastCopyStands(s, path, data, after);
  }

  /** Without removals and with short names there is nothing to check: a mycopyto that finds its directory and enough blocks
      is what mycopyfrom returns. */
  lemma LastCopyInBuild(n: int, before: seq<Op>, path: cstring, data: seq<byte>, after: seq<Op>)
    requires 1 <= n <= MAX_BLOCKS && ValidOps(before) && AllBuild(before) && ValidOps(after) && AllBuild(after)
    requires Short(path) && |data| <= MAX_SIZE && AllAvoid(after, path)
    ensures Ready(InitStore(n))
    ensures var s := Run(InitStore(n), before);
            && Ready(AfterCopyTo(s, path, data))
            && (FileAt(Run(AfterCopyTo(s, path, data), after), path) == Some(data) <==>
                ParentOf(s, path).Some? && var d := ParentOf(s, path).value;
                                           Needed(Vacated(s, d, path), d, |data|) <= |Vacated(s, d, path).free|)
  {
    EveryRunTidy(n, before);
    var s := Run(InitStore(n), before);
    CopyToInv(s, path, data);
    BuildTidy(s, [OpCopyTo(path, data)]);
    CopyToTidy(s, path, data);
    BuildTidy(AfterCopyTo(s, path, data), after);
    TidyRun(AfterCopyTo(s, path, data), after, path);
    LastCopyStands(s, path, data, after);
  }
}
