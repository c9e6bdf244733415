/** What mkdir_myfs and myrm achieve, seen through lookups, and how paths may be spelt. */
module MyFsMeaning {
  import opened Bytes
  import opened MyFsBlocks
  import opened MyFsStore
  import opened MyFsDirectory
  import opened MyFsPaths
  import opened MyFsTree
  import opened MyFsOps
  import opened MyFsConservation
  import opened MyFsContents
  import opened MyFsElsewhere

  ghost predicate EmptyFolder(s: Store, d: int) {
    Folder(s, d) && forall i :: 0 <= i < |DirSlots(s, d)| ==> !Used(DirSlots(s, d)[i])
  }

  /** In any state, holes or not: mkdir_myfs returns 0 exactly if it has what it needs. Then the block that was first on the
      free list is a new, empty folder, and the walk of the path with its last component cut, as it was stored, ends
      there exactly if the name is read back. */
  lemma MkdirOpens(s: Store, path: cstring)
    requires Ready(s)
    ensures Tree(AfterMkdir(s, path).0)
    ensures AfterMkdir(s, path).1 == if CanMkdir(s, path) then 0 else -1
    ensures CanMkdir(s, path) ==>
              && EmptyFolder(AfterMkdir(s, path).0, s.free[0]) && s.free[0] !in s.objs
              && (Resolve(AfterMkdir(s, path).0, ROOT, Steps(path)) == Some(s.free[0]) <==>
                  ReadBack(BaseName(path), s.free[0]))
  {
    MkdirInv(s, path);
    var p := ParentOf(s, path);
    if p.Some? && Lookup(s, p.value, path) < 0 && s.free != [] {
      FreeHeadFresh(s);
      EnterIs(s, p.value, MYFOLDER, BaseName(path), 0);
      if CanMkdir(s, path) {
        NewFolderEmpty(s, path, p.value);
        MkdirWalk(s, path, BaseName(path));
        SeenNew(MYFOLDER, BaseName(path), s.free[0], 0);
      }
    }
  }

  /** The new folder is found by some path if and only if its name is read back: then by its own. */
  lemma MkdirFoundIff(s: Store, path: cstring)
    requires Ready(s) && CanMkdir(s, path)
    ensures Ready(AfterMkdir(s, path).0)
    ensures var t := AfterMkdir(s, path).0;
            && ((exists other :: Found(t, other) == Some(s.free[0])) <==> ReadBack(BaseName(path), s.free[0]))
            && (Found(t, path) == Some(s.free[0]) <==> ReadBack(BaseName(path), s.free[0]))
  {
    MkdirInv(s, path);
    forall other | Found(AfterMkdir(s, path).0, other) == Some(s.free[0])
      ensures ReadBack(BaseName(path), s.free[0])
    {
      MkdirReached(s, path, other);
    }
    if ReadBack(BaseName(path), s.free[0]) {
      MkdirTakes(s, path);
      MkdirThrough(s, path, path);
    }
  }

  lemma MkdirReached(s: Store, path: cstring, other: cstring)
    requires Ready(s) && CanMkdir(s, path) && Ready(AfterMkdir(s, path).0)
    requires Found(AfterMkdir(s, path).0, other) == Some(s.free[0])
    ensures ReadBack(BaseName(path), s.free[0])
  {
    MkdirWrites(s, path, ParentOf(s, path).value);
    FreeHeadInRange(s);
    FoundBySeen(AfterMkdir(s, path).0, ParentOf(s, path).value, FirstHole(DirSlots(s, ParentOf(s, path).value)), other);
    SeenIs(MYFOLDER, BaseName(path), s.free[0], 0);
  }

  lemma MkdirTakes(s: Store, path: cstring)
    requires Ready(s) && CanMkdir(s, path) && ReadBack(BaseName(path), s.free[0])
    ensures Takes(s, OpMkdir(path), path) && !Shadowed(s, OpMkdir(path), path)
  {
    var op := OpMkdir(path);
    assert Meets(s, op, path) && NameThere(op, path) == BaseName(path) by { StepsPrefix(path, path); }
    assert Seen(NewOf(s, op)) == BaseName(path) by {
      FreeHeadInRange(s);
      SeenNew(MYFOLDER, BaseName(path), s.free[0], 0);
    }
  }

  /** But a walk through the folder compares whole components. Under any component c it comes through the new folder exactly
      if c is what the entry is seen as, and no entry found in front of it has that name too. */
  lemma MkdirWalk(s: Store, path: cstring, c: cstring)
    requires Ready(s) && CanMkdir(s, path)
    ensures Ready(AfterMkdir(s, path).0)
    ensures var slots := DirSlots(s, ParentOf(s, path).value);
            Resolve(AfterMkdir(s, path).0, ROOT, ParentComponents(path) + [c]) == Some(s.free[0]) <==>
            Seen(NewOf(s, OpMkdir(path))) == c && !(0 <= FindIdx(slots, c) < FirstHole(slots))
  {
    var d, at, t := ParentOf(s, path).value, ParentComponents(path), AfterMkdir(s, path).0;
    MkdirWrites(s, path, d);
    WalkSame(s, t, d, FREE, at, at);
    ResolveSnoc(t, ROOT, at, c);
    NewFolderEmpty(s, path, d);
    DescendsToNew(s, t, d, BaseName(path), NewOf(s, OpMkdir(path)), c);
  }

  lemma DescendsToNew(s: Store, t: Store, d: int, name: cstring, e: Fd, c: cstring)
    requires Tree(s) && Tree(t) && WrittenIn(s, t, d, name, e) && FindIdx(DirSlots(s, d), name) < 0 && e.kind == MYFOLDER
    ensures Descend(t, d, c) == Some(e.firstblock) <==>
            Seen(e) == c && !(0 <= FindIdx(DirSlots(s, d), c) < FirstHole(DirSlots(s, d)))
  {
    var f := FirstHole(DirSlots(s, d));
    FindsNew(DirSlots(s, d), e, c);
    FindsEntry(t, d, c);
    assert SlotsOk(t, d) && EntryOk(t, d, f, DirSlots(t, d)[f]);
  }

  /** So after mkdir_myfs, paths that go on behind the same components go through the new folder if and only if the last
      component has at most 11 characters, or goes on behind the twelfth as the number of the new block does, and then
      if no entry of that name stands in front. */
  lemma MkdirWhole(s: Store, path: cstring)
    requires Ready(s) && CanMkdir(s, path) && PathComponents(path) != []
    ensures Ready(AfterMkdir(s, path).0)
    ensures var slots, c := DirSlots(s, ParentOf(s, path).value), LastComponent(path);
            Resolve(AfterMkdir(s, path).0, ROOT, PathComponents(path)) == Some(s.free[0]) <==>
            |c| < FILENAME_LEN
            || (c[FILENAME_LEN..] == Behind(s.free[0], 0) && !(0 <= FindIdx(slots, c) < FirstHole(slots)))
  {
    var c := LastComponent(path);
    SplitLast(PathComponents(path));
    MkdirWalk(s, path, c);
    FreeHeadInRange(s);
    SeenWhole(MYFOLDER, c, s.free[0], 0);
    assert |c| < FILENAME_LEN ==> c == BaseName(path);
  }

  /** myrm of a path that is found frees exactly the target's blocks, in reverse in front of the free list, and leaves
      every other object and every other slot of the parent as they were. */
  lemma RmFrees(s: Store, path: cstring, d: int)
    requires Ready(s) && ParentOf(s, path) == Some(d)
    ensures Lookup(s, d, path) < 0 ==> AfterRm(s, path) == s
    ensures var i := Lookup(s, d, path);
            i >= 0 ==>
              var x, t := DirSlots(s, d)[i].firstblock, AfterRm(s, path);
              && x in s.objs && t.objs.Keys == s.objs.Keys - {x}
              && t.free == Reverse(s.objs[x].chain) + s.free
              && (forall h :: h in t.objs && h != d ==> t.objs[h] == s.objs[h])
              && Folder(t, d) && DirSlots(t, d) == DirSlots(s, d)[i := EMPTY_FD]
  {
    if Lookup(s, d, path) >= 0 {
      RemoveAtKeeps(s, d, Lookup(s, d, path));
    }
  }

  /** Entries do not all stay visible after a myrm: one that was still is exactly if it does not lie behind the emptied
      slot in the same block. */
  lemma RmHides(s: Store, path: cstring, d: int, j: int)
    requires Ready(s) && ParentOf(s, path) == Some(d) && Lookup(s, d, path) >= 0 && Visible(DirSlots(s, d), j)
    ensures Folder(AfterRm(s, path), d)
    ensures var i := Lookup(s, d, path);
            Visible(DirSlots(AfterRm(s, path), d), j) <==> j / SLOTS != i / SLOTS || j < i
  {
    RmFrees(s, path, d);
    VisibleAfterRemove(DirSlots(s, d), Lookup(s, d, path), j);
  }

  /** So a lookup in that directory returns what it did exactly if that was nothing, or not from the emptied slot on in its
      block. */
  lemma RmLookup(s: Store, path: cstring, d: int, c: cstring)
    requires Ready(s) && ParentOf(s, path) == Some(d) && Lookup(s, d, path) >= 0
    ensures Folder(AfterRm(s, path), d)
    ensures var i, q := Lookup(s, d, path), FindIdx(DirSlots(s, d), c);
            FindIdx(DirSlots(AfterRm(s, path), d), c) == q <==> q < 0 || q / SLOTS != i / SLOTS || q < i
  {
    RmFrees(s, path, d);
    FindAfterClear(DirSlots(s, d), Lookup(s, d, path), c);
  }

  /** After a myrm its path leads nowhere if and only if every entry of that name that was visible lay in the block of the
      one removed; otherwise an entry of another block comes to light. */
  lemma RmForgets(s: Store, path: cstring, d: int)
    requires Ready(s) && ParentOf(s, path) == Some(d) && Lookup(s, d, path) >= 0
    ensures Ready(AfterRm(s, path)) && ParentOf(AfterRm(s, path), path) == Some(d)
    ensures Found(AfterRm(s, path), path) == None <==>
            forall j :: Match(DirSlots(s, d), j, BaseName(path)) ==> j / SLOTS == Lookup(s, d, path) / SLOTS
  {
    var t, i, name := AfterRm(s, path), Lookup(s, d, path), BaseName(path);
    RmClears(s, path, d);
    RmFrees(s, path, d);
    WalkSame(s, t, d, Target(s, d, name), ParentComponents(path), ParentComponents(path));
    ForgottenAfterClear(DirSlots(s, d), name);
  }

  lemma ForgottenAfterClear(slots: seq<Fd>, name: cstring)
    requires 0 <= FindIdx(slots, name) < |slots|
    ensures var i := FindIdx(slots, name);
            FindIdx(slots[i := EMPTY_FD], name) < 0 <==> forall j :: Match(slots, j, name) ==> j / SLOTS == i / SLOTS
  {
    var i, after := FindIdx(slots, name), slots[FindIdx(slots, name) := EMPTY_FD];
    if FindIdx(after, name) < 0 {
      forall j | Match(slots, j, name)
        ensures j / SLOTS == i / SLOTS
      {
        MatchAfterClear(slots, i, name, j);
        assert !Match(after, j, name);
      }
    } else {
      var q := FindIdx(after, name);
      MatchAfterClear(slots, i, name, q);
      assert Match(after, q, name) && i <= q;
    }
  }

  /** Paths with the same components are the same path, however many slashes they are written with. */
  lemma SameComponents(s: Store, p: cstring, q: cstring, data: seq<byte>)
    requires Ready(s) && PathComponents(p) == PathComponents(q) && |data| <= MAX_SIZE
    ensures AfterMkdir(s, p) == AfterMkdir(s, q) && AfterRm(s, p) == AfterRm(s, q)
    ensures AfterCopyTo(s, p, data) == AfterCopyTo(s, q, data) && FileAt(s, p) == FileAt(s, q)
  {
    assert ParentComponents(p) == ParentComponents(q) && BaseName(p) == BaseName(q);
    if ParentOf(s, p).Some? {
      SameVacated(s, p, q, ParentOf(s, p).value);
    }
  }

  lemma SameVacated(s: Store, p: cstring, q: cstring, d: int)
    requires Ready(s) && Folder(s, d) && BaseName(p) == BaseName(q)
    ensures Lookup(s, d, p) == Lookup(s, d, q) && Vacated(s, d, p) == Vacated(s, d, q)
  {
  }
}
