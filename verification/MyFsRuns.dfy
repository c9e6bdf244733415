/** Runs that show what the conditions are for: blocks are lost, files vanish and come back, long names lead nowhere. */
module MyFsRuns {
  import opened Bytes
  import opened MyFsBlocks
  import opened MyFsStore
  import opened MyFsDirectory
  import opened MyFsPaths
  import opened MyFsTree
  import opened MyFsOps
  import opened MyFsConservation
  import opened MyFsContents
  import opened MyFsElsewhere
  import opened MyFsCompact
  import opened MyFsMeaning

  const A: byte := 97
  const B: byte := 98

  predicate Word(w: cstring) {
    w != [] && SLASH !in w && |w| < 100
  }

  lemma OneWord(w: cstring)
    requires Word(w)
    ensures Components([SLASH] + w) == [w] && PathComponents([SLASH] + w) == [w]
    ensures ParentComponents([SLASH] + w) == [] && LastComponent([SLASH] + w) == w
  {
    var path: cstring := [SLASH] + w;
    assert PathCopy(path) == path && path[1..] == w;
    TokenLenIs(w, |w|);
    assert w[..|w|] == w && w[|w|..] == [];
    assert Components(w) == [w[..TokenLen(w)]] + Components(w[TokenLen(w)..]) == [w];
    assert Components(path) == Components(path[1..]);
  }

  lemma TwoWords(w: cstring, v: cstring)
    requires Word(w) && Word(v)
    ensures PathComponents([SLASH] + w + [SLASH] + v) == [w, v]
    ensures ParentComponents([SLASH] + w + [SLASH] + v) == [w] && LastComponent([SLASH] + w + [SLASH] + v) == v
  {
    OneWord(w);
    OneWord(v);
    ComponentsOfJoin([SLASH] + w, v);
    assert ([SLASH] + v)[1..] == v;
    var path: cstring := [SLASH] + w + [SLASH] + v;
    assert PathCopy(path) == path;
  }

  lemma OneComponent(c: byte)
    requires c != SLASH && c != 0
    ensures PathComponents([SLASH, c]) == [[c]] && ParentComponents([SLASH, c]) == [] && BaseName([SLASH, c]) == [c]
  {
    OneWord([c]);
    assert [SLASH] + [c] == [SLASH, c];
  }

  lemma TwoComponents(c: byte, e: byte)
    requires c != SLASH && c != 0 && e != SLASH && e != 0
    ensures ParentComponents([SLASH, c, SLASH, e]) == [[c]] && BaseName([SLASH, c, SLASH, e]) == [e]
  {
    TwoWords([c], [e]);
    assert [SLASH] + [c] + [SLASH] + [e] == [SLASH, c, SLASH, e];
  }

  lemma {:induction false} RunJoin(s: Store, a: seq<Op>, b: seq<Op>)
    requires Ready(s) && ValidOps(a) && ValidOps(b)
    ensures ValidOps(a + b) && Run(s, a + b) == Run(Run(s, a), b)
    decreases |a|
  {
    if a == [] {
      assert a + b == b;
    } else {
      assert (a + b)[1..] == a[1..] + b;
      ApplyInv(s, a[0]);
      RunJoin(Apply(s, a[0]), a[1..], b);
    }
  }

  lemma RunOne(s: Store, op: Op)
    requires Ready(s) && op.Valid()
    ensures ValidOps([op]) && Run(s, [op]) == Apply(s, op)
  {
    ApplyInv(s, op);
    assert [op][1..] == [];
  }

  lemma RunSnoc(s: Store, ops: seq<Op>, op: Op)
    requires Ready(s) && ValidOps(ops) && op.Valid()
    ensures ValidOps(ops + [op]) && Run(s, ops + [op]) == Apply(Run(s, ops), op)
  {
    RunOne(Run(s, ops), op);
    RunJoin(s, ops, [op]);
  }

  // ----- a full folder

  function FullFolderOps(pa: cstring, pb: cstring): seq<Op> {
    [OpMkdir(pa)] + [OpMkdir(pb)]
  }

  /** mkdir pa, mkdir pb in it, on a new file system of three blocks or more: pa is now a folder with an entry. */
  lemma FullFolder(n: int, pa: cstring, pb: cstring)
    requires 3 <= n <= MAX_BLOCKS && Short(pa) && Short(pb)
    requires ParentComponents(pa) == [] && ParentComponents(pb) == Steps(pa)
    ensures Ready(InitStore(n)) && ValidOps(FullFolderOps(pa, pb))
    ensures HitsFullFolder(Run(InitStore(n), FullFolderOps(pa, pb)), pa)
  {
    InitInv(n);
    var s := InitStore(n);
    FirstMkdir(s, n, pa);
    SecondMkdir(AfterMkdir(s, pa).0, pa, pb, 2);
    RunOne(s, OpMkdir(pa));
    RunSnoc(s, [OpMkdir(pa)], OpMkdir(pb));
  }

  /** myrm of such a folder, and mycopyto over it, lose the block below: any two names, any file. */
  lemma FullFolderLeaks(n: int, pa: cstring, pb: cstring, data: seq<byte>)
    requires 3 <= n <= MAX_BLOCKS && Short(pa) && Short(pb) && |data| <= MAX_SIZE
    requires ParentComponents(pa) == [] && ParentComponents(pb) == Steps(pa)
    ensures var ops := FullFolderOps(pa, pb);
            && Ready(InitStore(n)) && ValidOps(ops + [OpRm(pa)]) && ValidOps(ops + [OpCopyTo(pa, data)])
            && !NoLeak(Run(InitStore(n), ops + [OpRm(pa)])) && !NoLeak(Run(InitStore(n), ops + [OpCopyTo(pa, data)]))
  {
    FullFolder(n, pa, pb);
    var s, ops := InitStore(n), FullFolderOps(pa, pb);
    LeakAtEnd(s, ops, OpRm(pa));
    LeakAtEnd(s, ops, OpCopyTo(pa, data));
  }

  lemma LeakAtEnd(s: Store, ops: seq<Op>, op: Op)
    requires Ready(s) && ValidOps(ops) && op.Valid() && Leaks(Run(s, ops), op)
    ensures ValidOps(ops + [op]) && !NoLeak(Run(s, ops + [op]))
  {
    RunSnoc(s, ops, op);
    ApplyLeaks(Run(s, ops), op);
  }

  /** mkdir /a, mkdir /a/b, and then rm /a, or a copy to /a: the block of /a/b is lost. */
  lemma RemovingFullFolderLeaks(n: int, data: seq<byte>)
    requires 3 <= n <= MAX_BLOCKS && |data| <= MAX_SIZE
    ensures var ops := FullFolderOps([SLASH, A], [SLASH, A, SLASH, B]);
            && Ready(InitStore(n)) && ValidOps(ops + [OpRm([SLASH, A])]) && ValidOps(ops + [OpCopyTo([SLASH, A], data)])
            && !NoLeak(Run(InitStore(n), ops + [OpRm([SLASH, A])]))
            && !NoLeak(Run(InitStore(n), ops + [OpCopyTo([SLASH, A], data)]))
  {
    OneComponent(A);
    TwoComponents(A, B);
    FullFolderLeaks(n, [SLASH, A], [SLASH, A, SLASH, B], data);
  }

  lemma FirstMkdir(s: Store, n: int, pa: cstring)
    requires 3 <= n <= MAX_BLOCKS && s == InitStore(n) && Ready(s) && Short(pa) && ParentComponents(pa) == []
    ensures var t := AfterMkdir(s, pa).0;
            Ready(t) && Resolve(t, ROOT, Steps(pa)) == Some(2) && EmptyFolder(t, 2) && |t.free| >= 1
  {
    MkdirInv(s, pa);
    assert s.objs[ROOT].bufs == [Zeros(BUFFER_SIZE)];
    BlankSlots(s, ROOT);
    FirstHoleUnique(DirSlots(s, ROOT), 0);
    NothingInEmpty(s, ROOT, BaseName(pa));
    MkdirOpens(s, pa);
    FreeHeadFresh(s);
    EnterIs(s, ROOT, MYFOLDER, BaseName(pa), 0);
  }

  lemma SecondMkdir(t: Store, pa: cstring, pb: cstring, b: int)
    requires Ready(t) && Short(pa) && Short(pb) && ParentComponents(pa) == [] && ParentComponents(pb) == Steps(pa)
    requires Resolve(t, ROOT, Steps(pa)) == Some(b) && EmptyFolder(t, b) && |t.free| >= 1
    ensures var u := AfterMkdir(t, pb).0;
            Ready(u) && HitsFullFolder(u, pa)
  {
    var u := AfterMkdir(t, pb).0;
    MkdirInv(t, pb);
    MkdirOpens(t, pb);
    NothingInEmpty(t, b, BaseName(pb));
    assert |DirSlots(t, b)| > 0 by { assert ChainAccounted(t, b); }
    FirstHoleUnique(DirSlots(t, b), 0);
    ResolveSnoc(t, ROOT, [], BaseName(pa));
    assert Steps(pa) == [] + [BaseName(pa)];
    assert b != ROOT by { DescendDeeper(t, ROOT, BaseName(pa)); assert t.objs[ROOT].depth == 0; }
    FreeHeadFresh(t);
    EnterIs(t, b, MYFOLDER, BaseName(pb), 0);
    assert DirSlots(u, ROOT) == DirSlots(t, ROOT);
    assert Used(DirSlots(u, b)[0]);
  }

  // ----- long names

  /** The root of a new file system holds nothing, and block 2 is the first to be used. */
  lemma NewRoot(n: int)
    requires 2 <= n <= MAX_BLOCKS
    ensures var s := InitStore(n);
            && Ready(s) && s.free != [] && s.free[0] == 2 && |s.free| == n - 1 && FirstHole(DirSlots(s, ROOT)) == 0
            && |DirSlots(s, ROOT)| == SLOTS && (forall i :: 0 <= i < SLOTS ==> !Used(DirSlots(s, ROOT)[i]))
            && (forall name :: FindIdx(DirSlots(s, ROOT), name) == -1)
  {
    InitInv(n);
    BlankSlots(InitStore(n), ROOT);
    FirstHoleUnique(DirSlots(InitStore(n), ROOT), 0);
  }

  /** A first entry whose name is not read back is not found. */
  lemma FirstEntryLost(slots: seq<Fd>, e: Fd, name: cstring)
    requires |slots| == SLOTS && (forall i :: 0 <= i < SLOTS ==> !Used(slots[i])) && Seen(e) != name
    ensures FindIdx(WithEntry(slots, e), name) == -1
  {
    FirstHoleUnique(slots, 0);
  }

  /** On a new file system mkdir_myfs of a name with 12 characters returns 0, and the folder is not there: no path finds it. */
  lemma TwelveLettersLost(n: int, path: cstring)
    requires 2 <= n <= MAX_BLOCKS && ParentComponents(path) == [] && |BaseName(path)| == FILENAME_LEN
    ensures Ready(InitStore(n)) && AfterMkdir(InitStore(n), path).1 == 0
    ensures Ready(AfterMkdir(InitStore(n), path).0) && Found(AfterMkdir(InitStore(n), path).0, path) == None
    ensures forall other :: Found(AfterMkdir(InitStore(n), path).0, other) != Some(2)
  {
    NewRoot(n);
    MkdirOpens(InitStore(n), path);
    EmptyRootLost(InitStore(n), path);
    NotReached(InitStore(n), path);
  }

  lemma NotReached(s: Store, path: cstring)
    requires Ready(s) && CanMkdir(s, path) && !ReadBack(BaseName(path), s.free[0])
    ensures Ready(AfterMkdir(s, path).0)
    ensures forall other :: Found(AfterMkdir(s, path).0, other) != Some(s.free[0])
  {
    MkdirInv(s, path);
    forall other
      ensures Found(AfterMkdir(s, path).0, other) != Some(s.free[0])
    {
      if Found(AfterMkdir(s, path).0, other) == Some(s.free[0]) {
        MkdirReached(s, path, other);
      }
    }
  }

  lemma EmptyRootLost(s: Store, path: cstring)
    requires Ready(s) && CanMkdir(s, path) && ParentComponents(path) == [] && !ReadBack(BaseName(path), s.free[0])
    requires |DirSlots(s, ROOT)| == SLOTS && forall i :: 0 <= i < SLOTS ==> !Used(DirSlots(s, ROOT)[i])
    ensures Ready(AfterMkdir(s, path).0) && Found(AfterMkdir(s, path).0, path) == None
  {
    MkdirWrites(s, path, ROOT);
    assert Seen(NewOf(s, OpMkdir(path))) != BaseName(path) by {
      FreeHeadInRange(s);
      SeenNew(MYFOLDER, BaseName(path), s.free[0], 0);
    }
    FirstEntryLost(DirSlots(s, ROOT), NewOf(s, OpMkdir(path)), BaseName(path));
  }

  lemma BehindTwo()
    ensures Behind(2, 0) == [2]
  {
    var field := EncodeWord(2) + EncodeWord(0);
    assert field[0] == 2 && field[1] == 0;
    assert CStr(field[1..]) == [];
  }

  /** mkdir of a component with 12 characters or more, and then mkdir inside it by the same component: it is a directory
      exactly if its characters from the thirteenth on are those of the block number, which is 2. */
  lemma LongComponent(n: int, path: cstring, inside: cstring)
    requires 3 <= n <= MAX_BLOCKS && |PathComponents(path)| == 1 && |LastComponent(path)| >= FILENAME_LEN
    requires ParentComponents(inside) == PathComponents(path)
    ensures Ready(InitStore(n)) && AfterMkdir(InitStore(n), path).1 == 0 && Ready(AfterMkdir(InitStore(n), path).0)
    ensures AfterMkdir(AfterMkdir(InitStore(n), path).0, inside).1 == 0 <==> LastComponent(path)[FILENAME_LEN..] == [2]
  {
    var s, t := InitStore(n), AfterMkdir(InitStore(n), path).0;
    NewRoot(n);
    BehindTwo();
    MkdirOpens(s, path);
    MkdirWhole(s, path);
    assert Ready(t) by { MkdirInv(s, path); }
    LongInside(s, t, path, inside);
    MkdirOpens(t, inside);
  }

  lemma LongInside(s: Store, t: Store, path: cstring, inside: cstring)
    requires Ready(s) && Ready(t) && CanMkdir(s, path) && t == AfterMkdir(s, path).0 && s.free[0] == 2 && |s.free| >= 2
    requires ParentComponents(path) == [] && |PathComponents(path)| == 1 && ParentComponents(inside) == PathComponents(path)
    requires |DirSlots(s, ROOT)| == SLOTS && forall i :: 0 <= i < SLOTS ==> !Used(DirSlots(s, ROOT)[i])
    requires EmptyFolder(t, 2)
    ensures CanMkdir(t, inside) <==> Resolve(t, ROOT, PathComponents(path)) == Some(2)
  {
    var c := LastComponent(path);
    MkdirWrites(s, path, ROOT);
    FirstHoleUnique(DirSlots(s, ROOT), 0);
    assert PathComponents(path) == [c];
    ResolveOne(t, ROOT, c);
    FindsEntry(t, ROOT, c);
    assert |t.free| >= 1 by { EnterIs(s, ROOT, MYFOLDER, BaseName(path), 0); }
    NothingInEmpty(t, 2, BaseName(inside));
    assert |DirSlots(t, 2)| > 0 by { assert ChainAccounted(t, 2); }
    FirstHoleUnique(DirSlots(t, 2), 0);
  }

  function Long(x: byte): (w: cstring)
    requires x != 0
    ensures |w| == 13 && w[FILENAME_LEN..] == [x]
  {
    [A, A, A, A, A, A, A, A, A, A, A, A] + [x]
  }

  /** mkdir /aaaaaaaaaaaaa, mkdir /aaaaaaaaaaaaa/b: the first returns 0, the second -1. With the byte 2 for the thirteenth
      letter both return 0. */
  lemma ThirteenLetters(n: int)
    requires 3 <= n <= MAX_BLOCKS
    ensures var s, p, q := InitStore(n), [SLASH] + Long(A), [SLASH] + Long(A) + [SLASH] + [B];
            && Ready(s) && AfterMkdir(s, p).1 == 0 && Ready(AfterMkdir(s, p).0)
            && AfterMkdir(AfterMkdir(s, p).0, q).1 == -1
    ensures var s, p, q := InitStore(n), [SLASH] + Long(2), [SLASH] + Long(2) + [SLASH] + [B];
            && Ready(s) && AfterMkdir(s, p).1 == 0 && Ready(AfterMkdir(s, p).0)
            && AfterMkdir(AfterMkdir(s, p).0, q).1 == 0
  {
    ThirteenthLetter(n, A);
    ThirteenthLetter(n, 2);
  }

  lemma ThirteenthLetter(n: int, x: byte)
    requires 3 <= n <= MAX_BLOCKS && x != 0 && x != SLASH
    ensures var s, p, q := InitStore(n), [SLASH] + Long(x), [SLASH] + Long(x) + [SLASH] + [B];
            && Ready(s) && AfterMkdir(s, p).1 == 0 && Ready(AfterMkdir(s, p).0)
            && AfterMkdir(AfterMkdir(s, p).0, q).1 == if x == 2 then 0 else -1
  {
    OneWord(Long(x));
    TwoWords(Long(x), [B]);
    LongComponent(n, [SLASH] + Long(x), [SLASH] + Long(x) + [SLASH] + [B]);
    MkdirOpens(AfterMkdir(InitStore(n), [SLASH] + Long(x)).0, [SLASH] + Long(x) + [SLASH] + [B]);
  }

  // ----- a root with many folders

  /** Different one-character names. */
  function Char(j: nat): byte
    requires j < 200
  {
    if j < 46 then j + 1 else j + 2
  }

  function Name(j: nat): cstring
    requires j < 200
  {
    [Char(j)]
  }

  function Path(j: nat): cstring
    requires j < 200
  {
    [SLASH, Char(j)]
  }

  lemma PathIs(j: nat)
    requires j < 200
    ensures ParentComponents(Path(j)) == [] && BaseName(Path(j)) == Name(j) && Steps(Path(j)) == [Name(j)]
  {
    OneComponent(Char(j));
  }

  function Rows(k: nat): nat {
    if k <= SLOTS then 1 else 2
  }

  /** The first k slots of a directory hold the first k names; it has just the blocks they need. */
  ghost predicate Holds(slots: seq<Fd>, k: nat) {
    && k < 200 && |slots| == SLOTS * Rows(k)
    && (forall j :: 0 <= j < k ==> Used(slots[j]) && Seen(slots[j]) == Name(j))
    && (forall j :: k <= j < |slots| ==> !Used(slots[j]))
  }

  lemma HoldsFinds(slots: seq<Fd>, k: nat, j: nat)
    requires Holds(slots, k) && j < 199
    ensures FirstHole(slots) == k
    ensures FindIdx(slots, Name(j)) == if j < k then j else -1
  {
    FirstHoleUnique(slots, k);
    if j < k {
      assert Visible(slots, j);
      FirstMatchIsFindIdx(slots, Name(j), j);
    } else {
      FirstMatchIsFindIdx(slots, Name(j), -1);
    }
  }

  lemma HoldsNext(slots: seq<Fd>, k: nat, e: Fd)
    requires Holds(slots, k) && k + 1 < 199 && Used(e) && Seen(e) == Name(k)
    ensures Cleared(slots, Name(k)) == slots && Holds(WithEntry(slots, e), k + 1)
  {
    HoldsFinds(slots, k, k);
  }

  /** The root holds the first k names, and this many blocks are free. */
  ghost predicate RootHolds(s: Store, k: nat, free: int) {
    Ready(s) && |s.free| == free && Holds(DirSlots(s, ROOT), k)
  }

  lemma MkdirFills(s: Store, k: nat, free: int)
    requires RootHolds(s, k, free) && k + 1 < 199 && Rows(k + 1) - Rows(k) < free
    ensures RootHolds(AfterMkdir(s, Path(k)).0, k + 1, free - 1 - (Rows(k + 1) - Rows(k)))
  {
    PathIs(k);
    HoldsFinds(DirSlots(s, ROOT), k, k);
    MkdirWrites(s, Path(k), ROOT);
    MkdirNew(s, k);
    HoldsNext(DirSlots(s, ROOT), k, NewOf(s, OpMkdir(Path(k))));
  }

  lemma MkdirNew(s: Store, k: nat)
    requires Ready(s) && k < 199 && CanMkdir(s, Path(k)) && ParentOf(s, Path(k)) == Some(ROOT)
    requires BaseName(Path(k)) == Name(k)
    ensures Seen(NewOf(s, OpMkdir(Path(k)))) == Name(k)
    ensures |AfterMkdir(s, Path(k)).0.free| ==
            |s.free| - 1 - (if FirstHole(DirSlots(s, ROOT)) == |DirSlots(s, ROOT)| then 1 else 0)
  {
    FreeHeadFresh(s);
    SeenNew(MYFOLDER, Name(k), s.free[0], 0);
    EnterIs(s, ROOT, MYFOLDER, Name(k), 0);
  }

  function FillOps(k: nat): (ops: seq<Op>)
    requires k < 200
    ensures |ops| == k
  {
    if k == 0 then [] else FillOps(k - 1) + [OpMkdir(Path(k - 1))]
  }

  lemma {:induction false} Fill(n: int, k: nat)
    requires 1 <= n <= MAX_BLOCKS && k < 199 && k + Rows(k) <= n
    ensures Ready(InitStore(n)) && ValidOps(FillOps(k))
    ensures RootHolds(Run(InitStore(n), FillOps(k)), k, n - k - Rows(k))
  {
    InitInv(n);
    if k == 0 {
      BlankSlots(InitStore(n), ROOT);
    } else {
      Fill(n, k - 1);
      RunSnoc(InitStore(n), FillOps(k - 1), OpMkdir(Path(k - 1)));
      MkdirFills(Run(InitStore(n), FillOps(k - 1)), k - 1, n - (k - 1) - Rows(k - 1));
    }
  }

  /** 194 folders fill the one block of the root, with one block to spare: the next mkdir takes it and has no slot. */
  lemma MkdirWithoutSlotLeaks()
    ensures Ready(InitStore(SLOTS + 2)) && ValidOps(FillOps(SLOTS) + [OpMkdir(Path(SLOTS))])
    ensures !NoLeak(Run(InitStore(SLOTS + 2), FillOps(SLOTS) + [OpMkdir(Path(SLOTS))]))
  {
    Fill(SLOTS + 2, SLOTS);
    var s := Run(InitStore(SLOTS + 2), FillOps(SLOTS));
    PathIs(SLOTS);
    HoldsFinds(DirSlots(s, ROOT), SLOTS, SLOTS);
    LeakAtEnd(InitStore(SLOTS + 2), FillOps(SLOTS), OpMkdir(Path(SLOTS)));
  }

  // ----- a file that vanishes and comes back

  /** Emptying a slot hides the entries behind it in its block, and refilling it shows them again. */
  lemma HoldsHidden(slots: seq<Fd>, k: nat, i: nat, j: nat)
    requires Holds(slots, k) && k < 199 && i < k && j < 199
    requires j < k ==> i < j && j / SLOTS == i / SLOTS
    ensures FindIdx(slots[i := EMPTY_FD], Name(j)) == -1 && FirstHole(slots[i := EMPTY_FD]) == i
  {
    HoldsFinds(slots, k, j);
    var gap := slots[i := EMPTY_FD];
    FirstHoleUnique(gap, i);
    forall m | 0 <= m < |gap|
      ensures !Match(gap, m, Name(j))
    {
      MatchAfterClear(slots, i, Name(j), m);
    }
    FirstMatchIsFindIdx(gap, Name(j), -1);
  }

  lemma HoldsShown(slots: seq<Fd>, k: nat, i: nat, j: nat, e: Fd)
    requires Holds(slots, k) && k < 199 && i < j < k && Used(e) && Seen(e) != Name(j)
    ensures FindIdx(slots[i := EMPTY_FD][i := e], Name(j)) == j
  {
    var after := slots[i := EMPTY_FD][i := e];
    assert Visible(after, j);
    FirstMatchIsFindIdx(after, Name(j), j);
  }

  /** mycopyto of the next name to a root that has a slot for it. */
  lemma CopyAppends(s: Store, k: nat, free: int, data: seq<byte>)
    requires RootHolds(s, k, free) && k + 1 < 199 && k < SLOTS * Rows(k)
    requires |data| <= MAX_SIZE && Max(1, BlocksFor(|data|)) <= free
    ensures var t := AfterCopyTo(s, Path(k), data);
            && Ready(t) && Holds(DirSlots(t, ROOT), k + 1) && FileAt(t, Path(k)) == Some(data)
            && |t.free| == free - Max(1, BlocksFor(|data|))
  {
    PathIs(k);
    HoldsFinds(DirSlots(s, ROOT), k, k);
    var e := NewOf(s, OpCopyTo(Path(k), data));
    SeenNew(MYFILE, Name(k), e.firstblock, |data|);
    CopyToWrites(s, Path(k), data, ROOT);
    HoldsNext(DirSlots(s, ROOT), k, e);
    CopyRoundTrip(s, Path(k), data);
    CopyToBlocks(s, Path(k), data, ROOT);
  }

  lemma RmFirst(t: Store, k: nat)
    requires Ready(t) && Holds(DirSlots(t, ROOT), k) && 1 < k < 199
    ensures var u := AfterRm(t, Path(0));
            && Ready(u) && u.free != [] && DirSlots(u, ROOT) == DirSlots(t, ROOT)[0 := EMPTY_FD]
            && FindIdx(DirSlots(t, ROOT), Name(0)) == 0 && OnlyIn(t, u, ROOT, DirSlots(t, ROOT)[0].firstblock)
  {
    PathIs(0);
    HoldsFinds(DirSlots(t, ROOT), k, 0);
    RmClears(t, Path(0), ROOT);
    RmFrees(t, Path(0), ROOT);
    assert ChainAccounted(t, DirSlots(t, ROOT)[0].firstblock) by { FindsEntry(t, ROOT, Name(0)); }
  }

  lemma MkdirRefills(slots: seq<Fd>, u: Store, k: nat)
    requires Ready(u) && Holds(slots, k) && 1 < k < 198 && u.free != [] && DirSlots(u, ROOT) == slots[0 := EMPTY_FD]
    ensures var v := AfterMkdir(u, Path(k)).0;
            && Ready(v) && OnlyIn(u, v, ROOT, FREE) && FindIdx(DirSlots(v, ROOT), Name(1)) == 1
            && DirSlots(v, ROOT)[1] == slots[1]
  {
    PathIs(k);
    HoldsHidden(slots, k, 0, k);
    var e := NewOf(u, OpMkdir(Path(k)));
    SeenNew(MYFOLDER, Name(k), e.firstblock, 0);
    MkdirWrites(u, Path(k), ROOT);
    HoldsShown(slots, k, 0, 1, e);
  }

  lemma SameFile(t: Store, u: Store, v: Store)
    requires Ready(t) && Ready(u) && Ready(v) && OnlyIn(t, u, ROOT, DirSlots(t, ROOT)[0].firstblock) && OnlyIn(u, v, ROOT, FREE)
    requires FindIdx(DirSlots(t, ROOT), Name(0)) == 0
    requires FindIdx(DirSlots(t, ROOT), Name(1)) == 1 && FindIdx(DirSlots(v, ROOT), Name(1)) == 1
    requires DirSlots(v, ROOT)[1] == DirSlots(t, ROOT)[1]
    ensures FileAt(v, Path(1)) == FileAt(t, Path(1))
  {
    PathIs(1);
    TargetApart(t, ROOT, Name(0), Name(1));
    NoFreeObject(t);
  }

  function HidingOps(data: seq<byte>): seq<Op> {
    FillOps(1) + [OpCopyTo(Path(1), data)]
  }

  /** mkdir a, copy a file to b, rm a: now b is not found, though it was. mkdir c: b is back with its contents. */
  lemma FileVanishesAndReturns(n: int, data: seq<byte>)
    requires n <= MAX_BLOCKS && |data| <= MAX_SIZE && 2 + Max(1, BlocksFor(|data|)) <= n
    ensures var s, ops := InitStore(n), HidingOps(data);
            && Ready(s) && ValidOps(ops) && ValidOps(ops + [OpRm(Path(0))])
            && ValidOps(ops + [OpRm(Path(0))] + [OpMkdir(Path(2))])
            && FileAt(Run(s, ops), Path(1)) == Some(data)
            && Found(Run(s, ops + [OpRm(Path(0))]), Path(1)) == None
            && FileAt(Run(s, ops + [OpRm(Path(0))] + [OpMkdir(Path(2))]), Path(1)) == Some(data)
  {
    Fill(n, 1);
    RunSnoc(InitStore(n), FillOps(1), OpCopyTo(Path(1), data));
    CopyAppends(Run(InitStore(n), FillOps(1)), 1, n - 2, data);
    VanishRun(InitStore(n), HidingOps(data));
  }

  lemma VanishRun(s: Store, ops: seq<Op>)
    requires Ready(s) && ValidOps(ops) && Holds(DirSlots(Run(s, ops), ROOT), 2)
    ensures ValidOps(ops + [OpRm(Path(0))]) && ValidOps(ops + [OpRm(Path(0))] + [OpMkdir(Path(2))])
    ensures Found(Run(s, ops + [OpRm(Path(0))]), Path(1)) == None
    ensures FileAt(Run(s, ops + [OpRm(Path(0))] + [OpMkdir(Path(2))]), Path(1)) == FileAt(Run(s, ops), Path(1))
  {
    RunSnoc(s, ops, OpRm(Path(0)));
    RunSnoc(s, ops + [OpRm(Path(0))], OpMkdir(Path(2)));
    VanishesAndReturns(Run(s, ops));
  }

  lemma VanishesAndReturns(t: Store)
    requires Ready(t) && Holds(DirSlots(t, ROOT), 2)
    ensures var u := AfterRm(t, Path(0));
            && Ready(u) && Found(u, Path(1)) == None
            && Ready(AfterMkdir(u, Path(2)).0) && FileAt(AfterMkdir(u, Path(2)).0, Path(1)) == FileAt(t, Path(1))
  {
    var u := AfterRm(t, Path(0));
    RmFirst(t, 2);
    PathIs(1);
    HoldsHidden(DirSlots(t, ROOT), 2, 0, 1);
    HoldsFinds(DirSlots(t, ROOT), 2, 1);
    MkdirRefills(DirSlots(t, ROOT), u, 2);
    SameFile(t, u, AfterMkdir(u, Path(2)).0);
  }

  // ----- an overwrite that hides

  lemma GapFinds(slots: seq<Fd>, j: nat)
    requires Holds(slots, SLOTS + 2) && SLOTS <= j < SLOTS + 2
    ensures FindIdx(slots[0 := EMPTY_FD], Name(j)) == j
  {
    HoldsFinds(slots, SLOTS + 2, j);
    FindAfterClear(slots, 0, Name(j));
  }

  lemma OverwriteFinds(slots: seq<Fd>)
    requires Holds(slots, SLOTS + 2)
    ensures FindIdx(slots[0 := EMPTY_FD], Name(SLOTS)) == SLOTS
    ensures FindIdx(slots[0 := EMPTY_FD], Name(SLOTS + 1)) == SLOTS + 1
  {
    GapFinds(slots, SLOTS);
    GapFinds(slots, SLOTS + 1);
  }

  /** The slots of 196 names, of which the first was removed, once the one at 194 is overwritten: the new entry goes to slot
      0, and the name behind the slot left empty is not found. */
  lemma OverwriteSlots(slots: seq<Fd>, e: Fd)
    requires Holds(slots, SLOTS + 2) && Used(e) && Seen(e) == Name(SLOTS)
    ensures var gap := slots[0 := EMPTY_FD];
            && FindIdx(gap, Name(SLOTS)) == SLOTS && FindIdx(gap, Name(SLOTS + 1)) == SLOTS + 1
            && FindIdx(WithEntry(Cleared(gap, Name(SLOTS)), e), Name(SLOTS + 1)) == -1
  {
    var gap := slots[0 := EMPTY_FD];
    OverwriteFinds(slots);
    FirstHoleUnique(gap[SLOTS := EMPTY_FD], 0);
    assert WithEntry(Cleared(gap, Name(SLOTS)), e) == gap[SLOTS := EMPTY_FD][0 := e];
    var after, c := gap[SLOTS := EMPTY_FD][0 := e], Name(SLOTS + 1);
    forall j | 0 <= j < |after|
      ensures !Match(after, j, c)
    {
      if j == SLOTS + 1 {
        assert !Used(after[SLOTS]);
      }
    }
    FirstMatchIsFindIdx(after, c, -1);
  }

  /** 196 folders in the root, the first removed, the one in slot 194 overwritten by a file: the last one is not found any
      more, though nothing was done to it. */
  lemma OverwriteHides(n: int, data: seq<byte>)
    requires SLOTS + 4 <= n <= MAX_BLOCKS && |data| <= MAX_SIZE
    ensures var s, ops := InitStore(n), FillOps(SLOTS + 2) + [OpRm(Path(0))];
            && Ready(s) && ValidOps(ops) && ValidOps(ops + [OpCopyTo(Path(SLOTS), data)])
            && Found(Run(s, ops), Path(SLOTS + 1)).Some?
            && Found(Run(s, ops + [OpCopyTo(Path(SLOTS), data)]), Path(SLOTS + 1)) == None
  {
    Fill(n, SLOTS + 2);
    var s, ops := InitStore(n), FillOps(SLOTS + 2) + [OpRm(Path(0))];
    RunSnoc(s, FillOps(SLOTS + 2), OpRm(Path(0)));
    RunSnoc(s, ops, OpCopyTo(Path(SLOTS), data));
    RmFirst(Run(s, FillOps(SLOTS + 2)), SLOTS + 2);
    OverwriteAfterGap(DirSlots(Run(s, FillOps(SLOTS + 2)), ROOT), Run(s, ops), data);
  }

  lemma RootFound(s: Store, j: nat)
    requires Tree(s) && j < 199
    ensures var i := FindIdx(DirSlots(s, ROOT), Name(j));
            && i < |DirSlots(s, ROOT)|
            && Found(s, Path(j)) == if i < 0 then None else Some(DirSlots(s, ROOT)[i].firstblock)
  {
    PathIs(j);
    FindsEntry(s, ROOT, Name(j));
  }

  lemma OverwriteAfterGap(slots: seq<Fd>, u: Store, data: seq<byte>)
    requires Ready(u) && Holds(slots, SLOTS + 2) && DirSlots(u, ROOT) == slots[0 := EMPTY_FD] && |data| <= MAX_SIZE
    ensures Found(u, Path(SLOTS + 1)).Some? && Ready(AfterCopyTo(u, Path(SLOTS), data))
    ensures Found(AfterCopyTo(u, Path(SLOTS), data), Path(SLOTS + 1)) == None
  {
    PathIs(SLOTS);
    OverwriteFinds(slots);
    RootFound(u, SLOTS + 1);
    var e := OverwriteEntry(slots[0 := EMPTY_FD], u, data);
    OverwriteSlots(slots, e);
    RootFound(AfterCopyTo(u, Path(SLOTS), data), SLOTS + 1);
  }

  lemma OverwriteEntry(slots: seq<Fd>, u: Store, data: seq<byte>) returns (e: Fd)
    requires Ready(u) && DirSlots(u, ROOT) == slots && |data| <= MAX_SIZE && FindIdx(slots, Name(SLOTS)) == SLOTS
    requires ParentComponents(Path(SLOTS)) == [] && BaseName(Path(SLOTS)) == Name(SLOTS)
    ensures var t := AfterCopyTo(u, Path(SLOTS), data);
            && Ready(t) && Used(e) && Seen(e) == Name(SLOTS)
            && DirSlots(t, ROOT) == WithEntry(Cleared(slots, Name(SLOTS)), e)
  {
    VacatedIs(u, ROOT, Path(SLOTS));
    CopyToWrites(u, Path(SLOTS), data, ROOT);
    e := NewOf(u, OpCopyTo(Path(SLOTS), data));
    SeenNew(MYFILE, Name(SLOTS), e.firstblock, |data|);
  }

  // ----- an older file that comes back

  /** 196 entries, with others in slots 0 and 194. */
  function Patched(slots: seq<Fd>, a: Fd, b: Fd): (r: seq<Fd>)
    requires |slots| == 2 * SLOTS
    ensures |r| == |slots| && r[0] == a && r[SLOTS] == b
    ensures forall j :: 0 < j < |slots| && j != SLOTS ==> r[j] == slots[j]
  {
    slots[0 := a][SLOTS := b]
  }

  lemma PatchedVisible(slots: seq<Fd>, a: Fd, b: Fd, j: int)
    requires Holds(slots, SLOTS + 2)
    ensures Visible(Patched(slots, a, b), j) <==> 0 <= j < SLOTS + 2 && if j < SLOTS then Used(a) else Used(b)
  {
    var after := Patched(slots, a, b);
    if j >= SLOTS + 2 {
      assert j < |after| ==> !Used(after[j]);
    } else if j >= SLOTS {
      assert j - j % SLOTS == SLOTS;
    } else if j >= 0 {
      assert j - j % SLOTS == 0;
    }
  }

  /** What is found there under the name of slot 195: the entry in slot 0 if it has that name, or else the one in slot 195
      unless slot 194 is empty. */
  lemma PatchedFinds(slots: seq<Fd>, a: Fd, b: Fd)
    requires Holds(slots, SLOTS + 2) && (Used(a) ==> Seen(a) == Name(0) || Seen(a) == Name(SLOTS + 1))
    requires Used(b) ==> Seen(b) == Name(SLOTS)
    ensures var after := Patched(slots, a, b);
            && FindIdx(after, Name(SLOTS + 1)) ==
               (if Used(a) && Seen(a) == Name(SLOTS + 1) then 0 else if Used(b) then SLOTS + 1 else -1)
            && FindIdx(after, Name(SLOTS)) == (if Used(b) then SLOTS else -1)
            && (Used(a) && Seen(a) == Name(0) ==> FindIdx(after, Name(0)) == 0)
            && FirstHole(after) == if !Used(a) then 0 else if !Used(b) then SLOTS else SLOTS + 2
  {
    var after := Patched(slots, a, b);
    FirstHoleUnique(after, if !Used(a) then 0 else if !Used(b) then SLOTS else SLOTS + 2);
    forall j
      ensures Visible(after, j) <==> 0 <= j < SLOTS + 2 && if j < SLOTS then Used(a) else Used(b)
    {
      PatchedVisible(slots, a, b, j);
    }
    FirstMatchIsFindIdx(after, Name(SLOTS + 1),
                        if Used(a) && Seen(a) == Name(SLOTS + 1) then 0 else if Used(b) then SLOTS + 1 else -1);
    FirstMatchIsFindIdx(after, Name(SLOTS), if Used(b) then SLOTS else -1);
    if Used(a) && Seen(a) == Name(0) {
      FirstMatchIsFindIdx(after, Name(0), 0);
    }
  }

  /** A write under the name of slot 195 while that is hidden fills slot 0; one under the name of slot 194 fills that. */
  lemma PatchedWrite(slots: seq<Fd>, a: Fd, e: Fd)
    requires Holds(slots, SLOTS + 2)
    ensures FindIdx(Patched(slots, EMPTY_FD, EMPTY_FD), Name(SLOTS + 1)) == -1
    ensures WithEntry(Cleared(Patched(slots, EMPTY_FD, EMPTY_FD), Name(SLOTS + 1)), e) == Patched(slots, e, EMPTY_FD)
    ensures Used(a) && Seen(a) == Name(SLOTS + 1) ==>
              && FindIdx(Patched(slots, a, EMPTY_FD), Name(SLOTS)) == -1
              && WithEntry(Cleared(Patched(slots, a, EMPTY_FD), Name(SLOTS)), e) == Patched(slots, a, e)
  {
    PatchedFinds(slots, EMPTY_FD, EMPTY_FD);
    if Used(a) && Seen(a) == Name(SLOTS + 1) {
      PatchedFinds(slots, a, EMPTY_FD);
    }
  }

  /** The root of s has these slots, and the file that slot 195 names is still the one of t. */
  ghost predicate Stage(t: Store, s: Store, slots: seq<Fd>, a: Fd, b: Fd) {
    && Ready(t) && Ready(s) && DirSlots(t, ROOT) == slots && Holds(slots, SLOTS + 2)
    && DirSlots(s, ROOT) == Patched(slots, a, b)
    && var y := slots[SLOTS + 1].firstblock;
       y in t.objs && y in s.objs && s.objs[y] == t.objs[y]
  }

  lemma StartStage(t: Store)
    requires Ready(t) && Holds(DirSlots(t, ROOT), SLOTS + 2)
    ensures var slots := DirSlots(t, ROOT);
            && Stage(t, t, slots, slots[0], slots[SLOTS]) && Used(slots[0]) && Used(slots[SLOTS])
            && Seen(slots[0]) == Name(0) && Seen(slots[SLOTS]) == Name(SLOTS)
            && FindIdx(slots, Name(SLOTS + 1)) == SLOTS + 1
  {
    var slots := DirSlots(t, ROOT);
    assert slots == Patched(slots, slots[0], slots[SLOTS]);
    PatchedFinds(slots, slots[0], slots[SLOTS]);
    FindsEntry(t, ROOT, Name(SLOTS + 1));
  }

  /** Nothing but the object removed and the root changes. */
  lemma StageKept(t: Store, s: Store, u: Store, slots: seq<Fd>, a: Fd, b: Fd, a': Fd, b': Fd, x: int)
    requires Stage(t, s, slots, a, b) && Ready(u) && OnlyIn(s, u, ROOT, x) && x != slots[SLOTS + 1].firstblock
    requires DirSlots(u, ROOT) == Patched(slots, a', b')
    ensures Stage(t, u, slots, a', b')
  {
    assert SlotsOk(t, ROOT) && EntryOk(t, ROOT, SLOTS + 1, slots[SLOTS + 1]);
  }

  lemma StageRm(t: Store, s: Store, slots: seq<Fd>, a: Fd, b: Fd, j: nat, i: int)
    requires Stage(t, s, slots, a, b) && j < 199 && FindIdx(DirSlots(s, ROOT), Name(j)) == i && (i == 0 || i == SLOTS)
    ensures var u := AfterRm(s, Path(j));
            && |u.free| > |s.free|
            && if i == 0 then Stage(t, u, slots, EMPTY_FD, b) else Stage(t, u, slots, a, EMPTY_FD)
  {
    var x := RmFromRoot(s, j, i);
    OlderSlot(t, slots);
    PatchedClear(slots, a, b);
    if i == 0 {
      StageKept(t, s, AfterRm(s, Path(j)), slots, a, b, EMPTY_FD, b, x);
    } else {
      StageKept(t, s, AfterRm(s, Path(j)), slots, a, b, a, EMPTY_FD, x);
    }
  }

  lemma OlderSlot(t: Store, slots: seq<Fd>)
    requires Ready(t) && DirSlots(t, ROOT) == slots && Holds(slots, SLOTS + 2)
    ensures var y := slots[SLOTS + 1].firstblock;
            y in t.objs && t.objs[y].slot == SLOTS + 1
  {
    assert SlotsOk(t, ROOT) && EntryOk(t, ROOT, SLOTS + 1, slots[SLOTS + 1]);
  }

  lemma PatchedClear(slots: seq<Fd>, a: Fd, b: Fd)
    requires |slots| == 2 * SLOTS
    ensures Patched(slots, a, b)[0 := EMPTY_FD] == Patched(slots, EMPTY_FD, b)
    ensures Patched(slots, a, b)[SLOTS := EMPTY_FD] == Patched(slots, a, EMPTY_FD)
  {
  }

  lemma RmFromRoot(s: Store, j: nat, i: nat) returns (x: int)
    requires Ready(s) && j < 199 && FindIdx(DirSlots(s, ROOT), Name(j)) == i
    ensures var u := AfterRm(s, Path(j));
            && Ready(u) && |u.free| > |s.free| && OnlyIn(s, u, ROOT, x) && x in s.objs && s.objs[x].slot == i
            && i < |DirSlots(s, ROOT)| && DirSlots(u, ROOT) == DirSlots(s, ROOT)[i := EMPTY_FD]
  {
    PathIs(j);
    FindsEntry(s, ROOT, Name(j));
    RmClears(s, Path(j), ROOT);
    RmFrees(s, Path(j), ROOT);
    x := Target(s, ROOT, Name(j));
    assert ChainAccounted(s, x);
  }

  /** With slots 0 and 194 empty, a copy under the name of slot 195 goes to slot 0. */
  lemma StageCopy(t: Store, s: Store, slots: seq<Fd>, data: seq<byte>) returns (e: Fd)
    requires Stage(t, s, slots, EMPTY_FD, EMPTY_FD) && |data| <= MAX_SIZE && Max(1, BlocksFor(|data|)) < |s.free|
    ensures var u := AfterCopyTo(s, Path(SLOTS + 1), data);
            && Used(e) && Seen(e) == Name(SLOTS + 1) && Stage(t, u, slots, e, EMPTY_FD)
            && u.free != [] && FileAt(u, Path(SLOTS + 1)) == Some(data)
  {
    PatchedFinds(slots, EMPTY_FD, EMPTY_FD);
    e := CopyToRoot(s, SLOTS + 1, data);
    PatchedWrite(slots, EMPTY_FD, e);
    NoFreeObject(t);
    StageKept(t, s, AfterCopyTo(s, Path(SLOTS + 1), data), slots, EMPTY_FD, EMPTY_FD, e, EMPTY_FD, FREE);
  }

  lemma CopyToRoot(s: Store, j: nat, data: seq<byte>) returns (e: Fd)
    requires Ready(s) && j < 199 && FindIdx(DirSlots(s, ROOT), Name(j)) == -1
    requires FirstHole(DirSlots(s, ROOT)) < |DirSlots(s, ROOT)|
    requires |data| <= MAX_SIZE && Max(1, BlocksFor(|data|)) < |s.free|
    ensures var u := AfterCopyTo(s, Path(j), data);
            && Ready(u) && OnlyIn(s, u, ROOT, FREE) && u.free != [] && FileAt(u, Path(j)) == Some(data)
            && Used(e) && Seen(e) == Name(j) && DirSlots(u, ROOT) == WithEntry(Cleared(DirSlots(s, ROOT), Name(j)), e)
  {
    PathIs(j);
    CopyToWrites(s, Path(j), data, ROOT);
    CopyToBlocks(s, Path(j), data, ROOT);
    CopyRoundTrip(s, Path(j), data);
    e := NewOf(s, OpCopyTo(Path(j), data));
    SeenNew(MYFILE, Name(j), e.firstblock, |data|);
  }

  /** mkdir then goes to slot 194 and shows slot 195 again. */
  lemma StageMkdir(t: Store, s: Store, slots: seq<Fd>, a: Fd) returns (e: Fd)
    requires Stage(t, s, slots, a, EMPTY_FD) && Used(a) && Seen(a) == Name(SLOTS + 1) && s.free != []
    ensures var u := AfterMkdir(s, Path(SLOTS)).0;
            Used(e) && Seen(e) == Name(SLOTS) && Stage(t, u, slots, a, e) && OnlyIn(s, u, ROOT, FREE)
  {
    PatchedFinds(slots, a, EMPTY_FD);
    e := MkdirInRoot(s, SLOTS);
    PatchedWrite(slots, a, e);
    NoFreeObject(t);
    StageKept(t, s, AfterMkdir(s, Path(SLOTS)).0, slots, a, EMPTY_FD, a, e, FREE);
  }

  lemma MkdirInRoot(s: Store, j: nat) returns (e: Fd)
    requires Ready(s) && j < 199 && FindIdx(DirSlots(s, ROOT), Name(j)) == -1
    requires FirstHole(DirSlots(s, ROOT)) < |DirSlots(s, ROOT)|
    requires s.free != []
    ensures var u := AfterMkdir(s, Path(j)).0;
            && Ready(u) && OnlyIn(s, u, ROOT, FREE)
            && Used(e) && Seen(e) == Name(j) && DirSlots(u, ROOT) == WithEntry(Cleared(DirSlots(s, ROOT), Name(j)), e)
  {
    PathIs(j);
    MkdirWrites(s, Path(j), ROOT);
    e := NewOf(s, OpMkdir(Path(j)));
    SeenNew(MYFOLDER, Name(j), e.firstblock, 0);
  }

  /** An entry found in both roots, whose object is the same in both. */
  lemma FileKept(s: Store, u: Store, j: nat, e: Fd)
    requires Ready(s) && Ready(u) && j < 199
    requires var i, k := FindIdx(DirSlots(s, ROOT), Name(j)), FindIdx(DirSlots(u, ROOT), Name(j));
             && 0 <= i < |DirSlots(s, ROOT)| && DirSlots(s, ROOT)[i] == e
             && 0 <= k < |DirSlots(u, ROOT)| && DirSlots(u, ROOT)[k] == e
    requires e.firstblock in s.objs && e.firstblock in u.objs && u.objs[e.firstblock] == s.objs[e.firstblock]
    ensures FileAt(u, Path(j)) == FileAt(s, Path(j))
  {
    PathIs(j);
  }

  /** From a root of 196 entries: remove slots 194 and 0, copy to the name of slot 195, which is hidden, and fill slot 194
      again. Now two files have that name. The newer one is read; once it is removed, the older one is. */
  lemma OlderReturns(t: Store, newer: seq<byte>)
    requires Ready(t) && Holds(DirSlots(t, ROOT), SLOTS + 2) && |newer| <= MAX_SIZE && Max(1, BlocksFor(|newer|)) < |t.free| + 2
    ensures var u1 := AfterRm(t, Path(SLOTS));
            Ready(u1) &&
            var u2 := AfterRm(u1, Path(0));
            Ready(u2) &&
            var u3 := AfterCopyTo(u2, Path(SLOTS + 1), newer);
            Ready(u3) &&
            var u4 := AfterMkdir(u3, Path(SLOTS)).0;
            && Ready(u4) && FileAt(u4, Path(SLOTS + 1)) == Some(newer)
            && Ready(AfterRm(u4, Path(SLOTS + 1)))
            && FileAt(AfterRm(u4, Path(SLOTS + 1)), Path(SLOTS + 1)) == FileAt(t, Path(SLOTS + 1))
  {
    var slots := DirSlots(t, ROOT);
    StartStage(t);
    PatchedFinds(slots, slots[0], slots[SLOTS]);
    StageRm(t, t, slots, slots[0], slots[SLOTS], SLOTS, SLOTS);
    var u1 := AfterRm(t, Path(SLOTS));
    PatchedFinds(slots, slots[0], EMPTY_FD);
    StageRm(t, u1, slots, slots[0], EMPTY_FD, 0, 0);
    var u2 := AfterRm(u1, Path(0));
    var a := StageCopy(t, u2, slots, newer);
    NewerRemoved(t, AfterCopyTo(u2, Path(SLOTS + 1), newer), slots, a);
  }

  lemma NewerRemoved(t: Store, u3: Store, slots: seq<Fd>, a: Fd)
    requires Stage(t, u3, slots, a, EMPTY_FD) && Used(a) && Seen(a) == Name(SLOTS + 1) && u3.free != []
    ensures var u4 := AfterMkdir(u3, Path(SLOTS)).0;
            && Ready(u4) && FileAt(u4, Path(SLOTS + 1)) == FileAt(u3, Path(SLOTS + 1))
            && Ready(AfterRm(u4, Path(SLOTS + 1)))
            && FileAt(AfterRm(u4, Path(SLOTS + 1)), Path(SLOTS + 1)) == FileAt(t, Path(SLOTS + 1))
  {
    var u4 := AfterMkdir(u3, Path(SLOTS)).0;
    var b := StageMkdir(t, u3, slots, a);
    PatchedFinds(slots, a, EMPTY_FD);
    PatchedFinds(slots, a, b);
    FindsEntry(u3, ROOT, Name(SLOTS + 1));
    NoFreeObject(u3);
    FileKept(u3, u4, SLOTS + 1, a);
    StageRm(t, u4, slots, a, b, SLOTS + 1, 0);
    PatchedFinds(slots, EMPTY_FD, b);
    StartStage(t);
    FileKept(t, AfterRm(u4, Path(SLOTS + 1)), SLOTS + 1, slots[SLOTS + 1]);
  }

  function TwiceOps(older: seq<byte>, newer: seq<byte>): seq<Op> {
    FillOps(SLOTS + 1) + [OpCopyTo(Path(SLOTS + 1), older)]
    + [OpRm(Path(SLOTS))] + [OpRm(Path(0))] + [OpCopyTo(Path(SLOTS + 1), newer)] + [OpMkdir(Path(SLOTS))]
  }

  /** A path that myrm does not empty: 195 folders, a file, and the steps above. */
  lemma OlderFileReturns(n: int, older: seq<byte>, newer: seq<byte>)
    requires n <= MAX_BLOCKS && |older| <= MAX_SIZE && |newer| <= MAX_SIZE
    requires SLOTS + 2 + Max(1, BlocksFor(|older|)) + Max(1, BlocksFor(|newer|)) <= n
    ensures var s, ops := InitStore(n), TwiceOps(older, newer);
            && Ready(s) && ValidOps(ops) && ValidOps(ops + [OpRm(Path(SLOTS + 1))])
            && FileAt(Run(s, ops), Path(SLOTS + 1)) == Some(newer)
            && FileAt(Run(s, ops + [OpRm(Path(SLOTS + 1))]), Path(SLOTS + 1)) == Some(older)
  {
    var s, fill := InitStore(n), FillOps(SLOTS + 1);
    Fill(n, SLOTS + 1);
    RunSnoc(s, fill, OpCopyTo(Path(SLOTS + 1), older));
    CopyAppends(Run(s, fill), SLOTS + 1, n - SLOTS - 3, older);
    OlderReturns(Run(s, fill + [OpCopyTo(Path(SLOTS + 1), older)]), newer);
    TwiceRun(s, fill + [OpCopyTo(Path(SLOTS + 1), older)], newer);
  }

  lemma TwiceRun(s: Store, ops: seq<Op>, newer: seq<byte>)
    requires Ready(s) && ValidOps(ops) && |newer| <= MAX_SIZE
    ensures var u := Run(s, ops);
            var a := ops + [OpRm(Path(SLOTS))];
            var b := a + [OpRm(Path(0))];
            var c := b + [OpCopyTo(Path(SLOTS + 1), newer)];
            var d := c + [OpMkdir(Path(SLOTS))];
            && ValidOps(a) && Run(s, a) == AfterRm(u, Path(SLOTS))
            && ValidOps(b) && Run(s, b) == AfterRm(Run(s, a), Path(0))
            && ValidOps(c) && Run(s, c) == AfterCopyTo(Run(s, b), Path(SLOTS + 1), newer)
            && ValidOps(d) && Run(s, d) == AfterMkdir(Run(s, c), Path(SLOTS)).0
            && ValidOps(d + [OpRm(Path(SLOTS + 1))])
            && Run(s, d + [OpRm(Path(SLOTS + 1))]) == AfterRm(Run(s, d), Path(SLOTS + 1))
  {
    var a := ops + [OpRm(Path(SLOTS))];
    var b := a + [OpRm(Path(0))];
    var c := b + [OpCopyTo(Path(SLOTS + 1), newer)];
    RunSnoc(s, ops, OpRm(Path(SLOTS)));
    RunSnoc(s, a, OpRm(Path(0)));
    RunSnoc(s, b, OpCopyTo(Path(SLOTS + 1), newer));
    RunSnoc(s, c, OpMkdir(Path(SLOTS)));
    RunSnoc(s, c + [OpMkdir(Path(SLOTS))], OpRm(Path(SLOTS + 1)));
  }
}
