/**
 What an operation on one path does to what another path leads to, in every
 state: exactly which lookups it disturbs, and that it changes nothing else.
 */
module MyFsElsewhere {
  import opened Bytes
  import opened MyFsBlocks
  import opened MyFsStore
  import opened MyFsDirectory
  import opened MyFsPaths
  import opened MyFsTree
  import opened MyFsOps
  import opened MyFsConservation
  import opened MyFsContents

  /** The names a lookup of path goes through, the last one cut as find_parent_dir cuts it. */
  function Steps(path: cstring): seq<cstring> {
    ParentComponents(path) + [BaseName(path)]
  }

  /** The directory or file path leads to. */
  ghost function Found(s: Store, path: cstring): Option<int>
    requires Tree(s)
  {
    match ParentOf(s, path)
    case None => None
    case Some(d) =>
      var i := Lookup(s, d, path);
      if i < 0 then None else Some(DirSlots(s, d)[i].firstblock)
  }

  /** A path is read as a file exactly if it leads to an object that is no folder, and what is read are the bytes of its
      chain, block by block from the first one on, as many as its entry says or there are. */
  lemma FileOrFolder(s: Store, path: cstring, k: nat)
    requires Ready(s)
    ensures FileAt(s, path).Some? <==> Found(s, path).Some? && !Folder(s, Found(s, path).value)
    ensures FileAt(s, path).Some? ==>
              var d, x := ParentOf(s, path).value, Found(s, path).value;
              && Lookup(s, d, path) >= 0 && x in s.objs && s.objs[x].kind == 1
              && var data, size, bufs := FileAt(s, path).value, DirSlots(s, d)[Lookup(s, d, path)].fsize, s.objs[x].bufs;
                 && |data| == (if size <= 4088 * |bufs| then size else 4088 * |bufs|)
                 && (k < |data| ==> k / 4088 < |bufs| && data[k] == bufs[k / 4088][k % 4088])
  {
    if FileAt(s, path).Some? {
      var e := DirSlots(s, ParentOf(s, path).value)[Lookup(s, ParentOf(s, path).value, path)];
      ReadBytes(s.objs[e.firstblock].bufs, e.fsize, k);
    }
  }

  // ----- paths are unique

  lemma {:induction false} ResolveAppend(s: Store, e: int, a: seq<cstring>, b: seq<cstring>)
    requires Tree(s) && Folder(s, e)
    ensures Resolve(s, e, a + b) ==
            match Resolve(s, e, a)
            case None => None
            case Some(x) => Resolve(s, x, b)
    decreases |a|
  {
    if a == [] {
      assert a + b == b;
    } else {
      assert (a + b)[1..] == a[1..] + b;
      if Descend(s, e, a[0]).Some? {
        ResolveAppend(s, Descend(s, e, a[0]).value, a[1..], b);
      }
    }
  }

  lemma ResolveSnoc(s: Store, e: int, cs: seq<cstring>, c: cstring)
    requires Tree(s) && Folder(s, e)
    ensures Resolve(s, e, cs + [c]) ==
            match Resolve(s, e, cs)
            case None => None
            case Some(x) => Descend(s, x, c)
  {
    ResolveAppend(s, e, cs, [c]);
    if Resolve(s, e, cs).Some? {
      ResolveOne(s, Resolve(s, e, cs).value, c);
    }
  }

  lemma ResolveOne(s: Store, e: int, c: cstring)
    requires Tree(s) && Folder(s, e)
    ensures Resolve(s, e, [c]) == Descend(s, e, c)
  {
  }

  lemma SplitLast(a: seq<cstring>)
    requires a != []
    ensures a == a[..|a| - 1] + [a[|a| - 1]]
  {
  }

  /** Two names that lead to one folder are one name in one directory. */
  lemma SameTarget(s: Store, d: int, a: cstring, e: int, b: cstring)
    requires Tree(s) && Folder(s, d) && Folder(s, e) && Descend(s, d, a).Some? && Descend(s, d, a) == Descend(s, e, b)
    ensures d == e && a == b
  {
  }

  lemma LastStep(s: Store, a: seq<cstring>, x: cstring, b: seq<cstring>, y: cstring)
    requires Tree(s) && Resolve(s, ROOT, a + [x]).Some? && Resolve(s, ROOT, a + [x]) == Resolve(s, ROOT, b + [y])
    ensures Resolve(s, ROOT, a).Some? && Resolve(s, ROOT, a) == Resolve(s, ROOT, b) && x == y
  {
    ResolveSnoc(s, ROOT, a, x);
    ResolveSnoc(s, ROOT, b, y);
    SameTarget(s, Resolve(s, ROOT, a).value, x, Resolve(s, ROOT, b).value, y);
  }

  /** Every folder is reached by one sequence of names only. */
  lemma {:induction false} PathUnique(s: Store, a: seq<cstring>, b: seq<cstring>)
    requires Tree(s) && Resolve(s, ROOT, a).Some? && Resolve(s, ROOT, a) == Resolve(s, ROOT, b)
    ensures a == b
    decreases |a|
  {
    assert |a| == |b| by {
      ResolveDepth(s, ROOT, a);
      ResolveDepth(s, ROOT, b);
    }
    if a != [] {
      var n := |a| - 1;
      SplitLast(a);
      SplitLast(b);
      LastStep(s, a[..n], a[n], b[..n], b[n]);
      PathUnique(s, a[..n], b[..n]);
    }
  }

  // ----- a change in one directory

  /** t differs from s only in folder d, and in x, which an entry of d names. */
  ghost predicate OnlyIn(s: Store, t: Store, d: int, x: int) {
    && Folder(s, d) && Folder(t, d)
    && (x in s.objs ==> x != ROOT && s.objs[x].parent == d && s.objs[x].depth == s.objs[d].depth + 1)
    && forall h :: h in s.objs && h != d && h != x ==> h in t.objs && t.objs[h] == s.objs[h]
  }

  /** c is found in d as before. */
  ghost predicate SameIn(s: Store, t: Store, d: int, x: int, c: cstring)
    requires d in s.objs && d in t.objs
  {
    var q := FindIdx(DirSlots(s, d), c);
    && FindIdx(DirSlots(t, d), c) == q
    && (q >= 0 ==>
          && q < |DirSlots(s, d)| && q < |DirSlots(t, d)|
          && DirSlots(t, d)[q] == DirSlots(s, d)[q] && DirSlots(s, d)[q].firstblock != x)
  }

  /** cs goes through the folder at and on from there. */
  predicate Under(at: seq<cstring>, cs: seq<cstring>) {
    |at| < |cs| && cs[..|at|] == at
  }

  lemma FindsEntry(s: Store, e: int, c: cstring)
    requires Tree(s) && Folder(s, e)
    ensures var i := FindIdx(DirSlots(s, e), c);
            i >= 0 ==> i < |DirSlots(s, e)| && Used(DirSlots(s, e)[i]) && EntryOk(s, e, i, DirSlots(s, e)[i])
  {
    var i := FindIdx(DirSlots(s, e), c);
    if i >= 0 {
      assert Match(DirSlots(s, e), i, c) && SlotsOk(s, e) && Used(DirSlots(s, e)[i]);
    }
  }

  lemma StepSame(s: Store, t: Store, d: int, x: int, e: int, c: cstring)
    requires Tree(s) && OnlyIn(s, t, d, x) && Folder(s, e) && Folder(t, e)
    requires if e == d then SameIn(s, t, d, x, c) else t.objs[e] == s.objs[e]
    ensures FindIdx(DirSlots(t, e), c) == FindIdx(DirSlots(s, e), c)
    ensures var i := FindIdx(DirSlots(s, e), c);
            i >= 0 ==>
              && i < |DirSlots(s, e)| && i < |DirSlots(t, e)| && DirSlots(t, e)[i] == DirSlots(s, e)[i]
              && var y := DirSlots(s, e)[i].firstblock;
                 y in s.objs && y in t.objs && (y != d ==> t.objs[y] == s.objs[y])
  {
    FindsEntry(s, e, c);
  }

  lemma DescendSame(s: Store, t: Store, d: int, x: int, e: int, c: cstring)
    requires Tree(s) && Tree(t) && OnlyIn(s, t, d, x) && Folder(s, e) && Folder(t, e)
    requires if e == d then SameIn(s, t, d, x, c) else t.objs[e] == s.objs[e]
    ensures Descend(t, e, c) == Descend(s, e, c)
    ensures Descend(s, e, c).Some? ==>
              var y := Descend(s, e, c).value;
              Folder(t, y) && (y != d ==> t.objs[y] == s.objs[y])
  {
    StepSame(s, t, d, x, e, c);
  }

  ghost predicate Arrives(s: Store, t: Store, d: int, cs: seq<cstring>)
    requires Tree(s) && Tree(t)
  {
    && Resolve(t, ROOT, cs) == Resolve(s, ROOT, cs)
    && (Resolve(s, ROOT, cs).Some? ==>
          var e := Resolve(s, ROOT, cs).value;
          Folder(t, e) && (e != d ==> t.objs[e] == s.objs[e]))
  }

  /** A walk ends where it did, unless it goes through d by a name that is not found there as before. */
  lemma {:induction false} WalkSame(s: Store, t: Store, d: int, x: int, at: seq<cstring>, cs: seq<cstring>)
    requires Tree(s) && Tree(t) && OnlyIn(s, t, d, x) && Resolve(s, ROOT, at) == Some(d)
    requires Under(at, cs) ==> SameIn(s, t, d, x, cs[|at|])
    ensures Arrives(s, t, d, cs)
    decreases |cs|
  {
    if cs != [] {
      var n := |cs| - 1;
      SplitLast(cs);
      assert Under(at, cs[..n]) ==> Under(at, cs) && cs[..n][|at|] == cs[|at|] by {
        assert Under(at, cs[..n]) ==> cs[..n][..|at|] == cs[..|at|];
      }
      WalkSame(s, t, d, x, at, cs[..n]);
      WalkStep(s, t, d, x, at, cs[..n], cs[n]);
    }
  }

  lemma WalkStep(s: Store, t: Store, d: int, x: int, at: seq<cstring>, cs: seq<cstring>, c: cstring)
    requires Tree(s) && Tree(t) && OnlyIn(s, t, d, x) && Resolve(s, ROOT, at) == Some(d)
    requires Under(at, cs + [c]) ==> SameIn(s, t, d, x, (cs + [c])[|at|])
    requires Arrives(s, t, d, cs)
    ensures Arrives(s, t, d, cs + [c])
  {
    ResolveSnoc(s, ROOT, cs, c);
    ResolveSnoc(t, ROOT, cs, c);
    if Resolve(s, ROOT, cs).Some? {
      var e := Resolve(s, ROOT, cs).value;
      if e == d {
        PathUnique(s, at, cs);
        assert (cs + [c])[..|at|] == at;
      }
      DescendSame(s, t, d, x, e, c);
    }
  }

  lemma UnderSteps(at: seq<cstring>, other: cstring)
    ensures var cs := ParentComponents(other);
            && (Under(at, cs) ==> Under(at, Steps(other)) && Steps(other)[|at|] == cs[|at|])
            && (at == cs ==> Under(at, Steps(other)) && Steps(other)[|at|] == BaseName(other))
            && (Under(at, Steps(other)) ==> at == cs || (Under(at, cs) && cs == (at + [Steps(other)[|at|]]) + cs[|at| + 1..]))
  {
    var cs := ParentComponents(other);
    assert Steps(other)[..|cs|] == cs;
    if |at| <= |cs| {
      assert Steps(other)[..|at|] == cs[..|at|];
    }
    if Under(at, cs) {
      assert cs == cs[..|at|] + [cs[|at|]] + cs[|at| + 1..];
    }
  }

  lemma FileSame(s: Store, t: Store, d: int, x: int, e: int, other: cstring)
    requires Inv(s) && Inv(t) && OnlyIn(s, t, d, x) && ParentOf(s, other) == ParentOf(t, other) == Some(e)
    requires if e == d then SameIn(s, t, d, x, BaseName(other)) else t.objs[e] == s.objs[e]
    ensures Found(t, other) == Found(s, other) && FileAt(t, other) == FileAt(s, other)
  {
    StepSame(s, t, d, x, e, BaseName(other));
  }

  /** So does the lookup of a whole path. */
  lemma PathSame(s: Store, t: Store, d: int, x: int, at: seq<cstring>, other: cstring)
    requires Inv(s) && Inv(t) && OnlyIn(s, t, d, x) && Resolve(s, ROOT, at) == Some(d)
    requires Under(at, Steps(other)) ==> SameIn(s, t, d, x, Steps(other)[|at|])
    ensures Found(t, other) == Found(s, other) && FileAt(t, other) == FileAt(s, other)
  {
    UnderSteps(at, other);
    WalkSame(s, t, d, x, at, ParentComponents(other));
    if ParentOf(s, other).Some? {
      var e := ParentOf(s, other).value;
      if e == d {
        PathUnique(s, at, ParentComponents(other));
      }
      FileSame(s, t, d, x, e, other);
    }
  }

  // ----- and where it does not

  /** From different objects the same names never lead to the same place. */
  lemma {:induction false} ApartStays(s: Store, t: Store, d: int, x: int, a: int, b: int, cs: seq<cstring>)
    requires Tree(s) && Tree(t) && OnlyIn(s, t, d, x) && Folder(s, a) && Folder(t, b)
    requires s.objs[a].depth > s.objs[d].depth
    requires Resolve(s, a, cs).Some? && Resolve(t, b, cs) == Resolve(s, a, cs)
    ensures a == b
    decreases |cs|
  {
    if cs != [] {
      SplitLast(cs);
      ApartStep(s, t, d, x, a, b, cs[..|cs| - 1], cs[|cs| - 1]);
      ApartStays(s, t, d, x, a, b, cs[..|cs| - 1]);
    }
  }

  lemma ApartStep(s: Store, t: Store, d: int, x: int, a: int, b: int, cs: seq<cstring>, c: cstring)
    requires Tree(s) && Tree(t) && OnlyIn(s, t, d, x) && Folder(s, a) && Folder(t, b)
    requires s.objs[a].depth > s.objs[d].depth
    requires Resolve(s, a, cs + [c]).Some? && Resolve(t, b, cs + [c]) == Resolve(s, a, cs + [c])
    ensures Resolve(s, a, cs).Some? && Resolve(t, b, cs) == Resolve(s, a, cs)
  {
    ResolveSnoc(s, a, cs, c);
    ResolveSnoc(t, b, cs, c);
    ResolveDepth(s, a, cs);
    SameParent(s, t, d, x, Resolve(s, a, cs).value, Resolve(t, b, cs).value, c, Resolve(s, a, cs + [c]).value);
  }

  lemma SameParent(s: Store, t: Store, d: int, x: int, e: int, g: int, c: cstring, p: int)
    requires Tree(s) && Tree(t) && OnlyIn(s, t, d, x) && Folder(s, e) && Folder(t, g)
    requires var i, j := FindIdx(DirSlots(s, e), c), FindIdx(DirSlots(t, g), c);
             && 0 <= i < |DirSlots(s, e)| && DirSlots(s, e)[i].firstblock == p
             && 0 <= j < |DirSlots(t, g)| && DirSlots(t, g)[j].firstblock == p
    requires s.objs[e].depth > s.objs[d].depth
    ensures e == g
  {
    FindsEntry(s, e, c);
    FindsEntry(t, g, c);
    assert p != d && p != x;
  }

  /** c is found in d in another place than before. */
  ghost predicate MovesIn(s: Store, t: Store, d: int, c: cstring)
    requires d in s.objs && d in t.objs
  {
    var q, r := FindIdx(DirSlots(s, d), c), FindIdx(DirSlots(t, d), c);
    && q != r
    && (0 <= q < |DirSlots(s, d)| && 0 <= r < |DirSlots(t, d)| ==>
          DirSlots(s, d)[q].firstblock != DirSlots(t, d)[r].firstblock)
  }

  lemma MovesHere(s: Store, t: Store, d: int, x: int, at: seq<cstring>, other: cstring)
    requires Tree(s) && Tree(t) && OnlyIn(s, t, d, x) && Resolve(s, ROOT, at) == Some(d) && ParentComponents(other) == at
    requires MovesIn(s, t, d, BaseName(other))
    ensures Found(t, other) != Found(s, other)
  {
    WalkSame(s, t, d, x, at, at);
    FindsEntry(s, d, BaseName(other));
    FindsEntry(t, d, BaseName(other));
  }

  lemma MovesBelow(s: Store, t: Store, d: int, x: int, at: seq<cstring>, c: cstring, rest: seq<cstring>, other: cstring)
    requires Tree(s) && Tree(t) && OnlyIn(s, t, d, x) && Resolve(s, ROOT, at) == Some(d)
    requires ParentComponents(other) == (at + [c]) + rest && MovesIn(s, t, d, c) && Found(s, other).Some?
    ensures Found(t, other) != Found(s, other)
  {
    WalkSame(s, t, d, x, at, at);
    BelowStart(s, d, at, c, rest);
    BelowStart(t, d, at, c, rest);
    if Found(t, other) == Found(s, other) {
      var a, b := Descend(s, d, c).value, Descend(t, d, c).value;
      ResolveDepth(s, a, rest);
      DescendDeeper(s, d, c);
      SameParent(s, t, d, x, ParentOf(s, other).value, ParentOf(t, other).value, BaseName(other), Found(s, other).value);
      ApartStays(s, t, d, x, a, b, rest);
      FindsEntry(s, d, c);
      FindsEntry(t, d, c);
      assert false;
    }
  }

  lemma BelowStart(s: Store, d: int, at: seq<cstring>, c: cstring, rest: seq<cstring>)
    requires Tree(s) && Resolve(s, ROOT, at) == Some(d)
    ensures Resolve(s, ROOT, (at + [c]) + rest) ==
            match Descend(s, d, c)
            case None => None
            case Some(a) => Resolve(s, a, rest)
  {
    ResolveAppend(s, ROOT, at + [c], rest);
    ResolveSnoc(s, ROOT, at, c);
  }

  /** A path that goes through d by a name found elsewhere leads elsewhere: if it led anywhere, or ends with that name. */
  lemma PathMoves(s: Store, t: Store, d: int, x: int, at: seq<cstring>, other: cstring)
    requires Tree(s) && Tree(t) && OnlyIn(s, t, d, x) && Resolve(s, ROOT, at) == Some(d)
    requires Under(at, Steps(other)) && MovesIn(s, t, d, Steps(other)[|at|])
    requires Found(s, other).Some? || |Steps(other)| == |at| + 1
    ensures Found(t, other) != Found(s, other)
  {
    UnderSteps(at, other);
    var cs := ParentComponents(other);
    if at == cs {
      MovesHere(s, t, d, x, at, other);
    } else {
      MovesBelow(s, t, d, x, at, Steps(other)[|at|], cs[|at| + 1..], other);
    }
  }

  // ----- the slots of the one directory that an operation changes

  /** The object that the entry found for name names; FREE, which names none, if there is no such entry. */
  ghost function Target(s: Store, d: int, name: cstring): (x: int)
    requires Tree(s) && Folder(s, d)
  {
    FindsEntry(s, d, name);
    var i := FindIdx(DirSlots(s, d), name);
    if i < 0 then FREE else DirSlots(s, d)[i].firstblock
  }

  lemma TargetApart(s: Store, d: int, name: cstring, c: cstring)
    requires Inv(s) && Folder(s, d) && FindIdx(DirSlots(s, d), c) >= 0
    ensures Target(s, d, c) in s.objs && Target(s, d, c) != d && Target(s, d, c) != ROOT
    ensures Target(s, d, c) == Target(s, d, name) <==> FindIdx(DirSlots(s, d), c) == FindIdx(DirSlots(s, d), name)
  {
    FindsEntry(s, d, name);
    FindsEntry(s, d, c);
    HeadSpot(s, Target(s, d, c));
  }

  /** t is s with an entry written under name in d. */
  ghost predicate WrittenIn(s: Store, t: Store, d: int, name: cstring, e: Fd)
    requires Tree(s)
  {
    && Folder(s, d) && OnlyIn(s, t, d, Target(s, d, name)) && Used(e)
    && DirSlots(t, d) == WithEntry(Cleared(DirSlots(s, d), name), e)
    && (Target(s, d, name) in t.objs ==>
          t.objs[Target(s, d, name)].slot == FirstHole(Cleared(DirSlots(s, d), name)))
  }

  lemma WriteSame(s: Store, t: Store, d: int, name: cstring, e: Fd, c: cstring)
    requires Inv(s) && WrittenIn(s, t, d, name, e) && Seen(e) != c
    requires !WriteDisturbs(DirSlots(s, d), name, c)
    ensures SameIn(s, t, d, Target(s, d, name), c)
  {
    WholeBlocks(DirSlots(s, d), |s.objs[d].bufs|);
    FindAfterWrite(DirSlots(s, d), e, name, c);
    var q := FindIdx(DirSlots(s, d), c);
    if q >= 0 {
      FindsEntry(s, d, c);
      TargetApart(s, d, name, c);
      MatchStays(DirSlots(s, d), e, name, c, q);
    }
  }

  lemma WriteMoves(s: Store, t: Store, d: int, name: cstring, e: Fd, c: cstring)
    requires Inv(s) && Tree(t) && WrittenIn(s, t, d, name, e) && Seen(e) != c
    requires WriteDisturbs(DirSlots(s, d), name, c)
    ensures MovesIn(s, t, d, c)
  {
    WholeBlocks(DirSlots(s, d), |s.objs[d].bufs|);
    FindAfterWrite(DirSlots(s, d), e, name, c);
    var q, r := FindIdx(DirSlots(s, d), c), FindIdx(DirSlots(t, d), c);
    if q >= 0 && r >= 0 {
      FindsEntry(s, d, c);
      FindsEntry(t, d, c);
      TargetApart(s, d, name, c);
      assert Match(DirSlots(t, d), r, c);
    }
  }

  /** t is s with the entry of name in d cleared and its object gone. */
  ghost predicate ClearedIn(s: Store, t: Store, d: int, name: cstring)
    requires Tree(s)
  {
    && Folder(s, d) && OnlyIn(s, t, d, Target(s, d, name)) && FindIdx(DirSlots(s, d), name) >= 0
    && DirSlots(t, d) == Cleared(DirSlots(s, d), name) && Target(s, d, name) !in t.objs
  }

  lemma ClearSame(s: Store, t: Store, d: int, name: cstring, c: cstring)
    requires Inv(s) && ClearedIn(s, t, d, name)
    requires !ClearHides(FindIdx(DirSlots(s, d), name), FindIdx(DirSlots(s, d), c))
    ensures SameIn(s, t, d, Target(s, d, name), c)
  {
    FindsEntry(s, d, name);
    FindAfterClear(DirSlots(s, d), FindIdx(DirSlots(s, d), name), c);
    if FindIdx(DirSlots(s, d), c) >= 0 {
      FindsEntry(s, d, c);
      TargetApart(s, d, name, c);
    }
  }

  lemma ClearMoves(s: Store, t: Store, d: int, name: cstring, c: cstring)
    requires Inv(s) && Tree(t) && ClearedIn(s, t, d, name)
    requires ClearHides(FindIdx(DirSlots(s, d), name), FindIdx(DirSlots(s, d), c))
    ensures MovesIn(s, t, d, c)
  {
    FindsEntry(s, d, name);
    FindAfterClear(DirSlots(s, d), FindIdx(DirSlots(s, d), name), c);
    if FindIdx(DirSlots(t, d), c) >= 0 {
      FindsEntry(s, d, c);
      FindsEntry(t, d, c);
      TargetApart(s, d, name, c);
    }
  }

  // ----- the operations

  /** mkdir_myfs has what it needs: the parent, a name not visible there, a block, and a slot or a second block. */
  ghost predicate CanMkdir(s: Store, path: cstring)
    requires Tree(s)
  {
    var p := ParentOf(s, path);
    p.Some? && Lookup(s, p.value, path) < 0
    && (|s.free| > 1 || (|s.free| == 1 && FirstHole(DirSlots(s, p.value)) < |DirSlots(s, p.value)|))
  }

  /** The operation finds what it needs and changes the parent directory. */
  ghost predicate Succeeds(s: Store, op: Op)
    requires Ready(s)
  {
    var p := ParentOf(s, op.path);
    p.Some? &&
    match op
    case OpMkdir(path) => CanMkdir(s, path)
    case OpCopyTo(path, _) => CanEnter(s, p.value, path)
    case OpRm(path) => Lookup(s, p.value, path) >= 0
  }

  /** The entry it makes. */
  ghost function NewOf(s: Store, op: Op): (e: Fd)
    requires Ready(s) && op.Valid() && Succeeds(s, op) && !op.OpRm?
    ensures Used(e)
  {
    match op
    case OpMkdir(path) =>
      FreeHeadInRange(s);
      NewEntry(MYFOLDER, BaseName(path), s.free[0], 0)
    case OpCopyTo(path, data) =>
      var v := Vacated(s, ParentOf(s, path).value, path);
      FreeHeadInRange(v);
      NewEntry(MYFILE, BaseName(path), v.free[0], |data|)
  }

  lemma MkdirWrites(s: Store, path: cstring, d: int)
    requires Ready(s) && ParentOf(s, path) == Some(d) && CanMkdir(s, path)
    ensures Ready(AfterMkdir(s, path).0)
    ensures WrittenIn(s, AfterMkdir(s, path).0, d, BaseName(path), NewOf(s, OpMkdir(path)))
  {
    MkdirInv(s, path);
    FreeHeadFresh(s);
    NoFreeObject(s);
    NoFreeObject(AfterMkdir(s, path).0);
    EnterWrites(s, AfterMkdir(s, path).0, d, BaseName(path));
  }

  lemma EnterWrites(s: Store, t: Store, d: int, name: cstring)
    requires Tree(s) && Folder(s, d) && FindIdx(DirSlots(s, d), name) < 0 && FREE !in s.objs && FREE !in t.objs
    requires s.free != [] && s.free[0] !in s.objs && 0 <= s.free[0] < WORD && |name| <= FILENAME_LEN
    requires FirstHole(DirSlots(s, d)) < |DirSlots(s, d)| || |s.free| > 1
    requires t == Enter(s, d, MYFOLDER, name, 0).0
    ensures WrittenIn(s, t, d, name, NewEntry(MYFOLDER, name, s.free[0], 0))
  {
    EnterIs(s, d, MYFOLDER, name, 0);
    WritesNew(s, t, d, name, NewEntry(MYFOLDER, name, s.free[0], 0));
  }

  lemma WritesNew(s: Store, t: Store, d: int, name: cstring, e: Fd)
    requires Tree(s) && Folder(s, d) && FindIdx(DirSlots(s, d), name) < 0 && FREE !in s.objs && FREE !in t.objs
    requires Folder(t, d) && Used(e) && DirSlots(t, d) == WithEntry(DirSlots(s, d), e)
    requires forall h :: h in s.objs && h != d ==> h in t.objs && t.objs[h] == s.objs[h]
    ensures WrittenIn(s, t, d, name, e)
  {
  }

  lemma NoFreeObject(s: Store)
    requires Accounted(s)
    ensures FREE !in s.objs
  {
    if FREE in s.objs {
      HeadSpot(s, FREE);
    }
  }

  lemma CopyToOnlyIn(s: Store, path: cstring, data: seq<byte>, d: int)
    requires Ready(s) && |data| <= MAX_SIZE && ParentOf(s, path) == Some(d)
    ensures OnlyIn(s, AfterCopyTo(s, path, data), d, Target(s, d, BaseName(path)))
  {
    CopyToFrame(s, path, data, d);
    FindsEntry(s, d, BaseName(path));
    NoFreeObject(s);
  }

  lemma CopyToSlots(s: Store, path: cstring, data: seq<byte>, d: int)
    requires Ready(s) && |data| <= MAX_SIZE && ParentOf(s, path) == Some(d) && CanEnter(s, d, path)
    ensures var t := AfterCopyTo(s, path, data);
            Folder(t, d) && DirSlots(t, d) == WithEntry(Cleared(DirSlots(s, d), BaseName(path)), NewOf(s, OpCopyTo(path, data)))
  {
    CopyToFiles(s, path, data, d);
    assert DirSlots(Vacated(s, d, path), d) == Cleared(DirSlots(s, d), BaseName(path)) by { VacatedIs(s, d, path); }
  }

  /** A block that is used again for the new file belongs to the slot filled. */
  lemma CopyToReuses(s: Store, path: cstring, data: seq<byte>, d: int)
    requires Ready(s) && |data| <= MAX_SIZE && ParentOf(s, path) == Some(d) && CanEnter(s, d, path)
    requires Lookup(s, d, path) >= 0
    ensures var t, x := AfterCopyTo(s, path, data), Target(s, d, BaseName(path));
            x in t.objs ==> t.objs[x].slot == FirstHole(Cleared(DirSlots(s, d), BaseName(path)))
  {
    CopyToFiles(s, path, data, d);
    assert DirSlots(Vacated(s, d, path), d) == Cleared(DirSlots(s, d), BaseName(path)) by { VacatedIs(s, d, path); }
    assert Target(s, d, BaseName(path)) !in Vacated(s, d, path).objs by { RemoveAtKeeps(s, d, Lookup(s, d, path)); }
  }

  lemma CopyToWrites(s: Store, path: cstring, data: seq<byte>, d: int)
    requires Ready(s) && |data| <= MAX_SIZE && ParentOf(s, path) == Some(d) && CanEnter(s, d, path)
    ensures Ready(AfterCopyTo(s, path, data))
    ensures WrittenIn(s, AfterCopyTo(s, path, data), d, BaseName(path), NewOf(s, OpCopyTo(path, data)))
  {
    CopyToInv(s, path, data);
    CopyToOnlyIn(s, path, data, d);
    CopyToSlots(s, path, data, d);
    if Lookup(s, d, path) >= 0 {
      CopyToReuses(s, path, data, d);
    } else {
      NoFreeObject(AfterCopyTo(s, path, data));
    }
  }

  lemma RmClears(s: Store, path: cstring, d: int)
    requires Ready(s) && ParentOf(s, path) == Some(d) && Lookup(s, d, path) >= 0
    ensures Ready(AfterRm(s, path)) && ClearedIn(s, AfterRm(s, path), d, BaseName(path))
  {
    RmInv(s, path);
    RemoveClears(s, d, BaseName(path));
  }

  lemma RemoveClears(s: Store, d: int, name: cstring)
    requires Tree(s) && Folder(s, d) && FindIdx(DirSlots(s, d), name) >= 0
    ensures FindIdx(DirSlots(s, d), name) < |DirSlots(s, d)| && Used(DirSlots(s, d)[FindIdx(DirSlots(s, d), name)])
    ensures ClearedIn(s, RemoveAt(s, d, FindIdx(DirSlots(s, d), name)), d, name)
  {
    FindsEntry(s, d, name);
    RemoveAtKeeps(s, d, FindIdx(DirSlots(s, d), name));
  }

  // ----- what the operations do to other paths

  /** The name by which other goes through, or ends in, the directory that op changes. */
  ghost predicate Meets(s: Store, op: Op, other: cstring)
    requires Ready(s)
  {
    Succeeds(s, op) && Under(ParentComponents(op.path), Steps(other))
  }

  function NameThere(op: Op, other: cstring): cstring
    requires Under(ParentComponents(op.path), Steps(other))
  {
    Steps(other)[|ParentComponents(op.path)|]
  }

  /** That name is the one the new entry is seen under. */
  ghost predicate Takes(s: Store, op: Op, other: cstring)
    requires Ready(s) && op.Valid()
  {
    Meets(s, op, other) && !op.OpRm? && NameThere(op, other) == Seen(NewOf(s, op))
  }

  /** That name is found in another slot than before, or found where it was not, or no longer found: a removal hides the
      entries behind it in its block; so does an overwrite whose entry goes to an earlier hole; and filling a hole shows
      the entries behind it. */
  ghost predicate Disturbs(s: Store, op: Op, other: cstring)
    requires Ready(s)
  {
    Meets(s, op, other) &&
    var slots, c := DirSlots(s, ParentOf(s, op.path).value), NameThere(op, other);
    if op.OpRm? then ClearHides(FindIdx(slots, BaseName(op.path)), FindIdx(slots, c))
    else WriteDisturbs(slots, BaseName(op.path), c)
  }

  /** What other leads to in t: the same as in s if it is not disturbed; else, if it led anywhere or has n steps, another. */
  ghost predicate Follows(s: Store, t: Store, n: nat, other: cstring, disturbed: bool)
    requires Inv(s) && Inv(t)
  {
    && (!disturbed ==> Found(t, other) == Found(s, other) && FileAt(t, other) == FileAt(s, other))
    && (disturbed && (Found(s, other).Some? || |Steps(other)| == n) ==> Found(t, other) != Found(s, other))
  }

  lemma MkdirElsewhere(s: Store, path: cstring, other: cstring)
    requires Ready(s) && CanMkdir(s, path) && !Takes(s, OpMkdir(path), other)
    ensures Ready(AfterMkdir(s, path).0)
    ensures Follows(s, AfterMkdir(s, path).0, |Steps(path)|, other, Disturbs(s, OpMkdir(path), other))
  {
    var d := ParentOf(s, path).value;
    MkdirWrites(s, path, d);
    WriteElsewhere(s, AfterMkdir(s, path).0, d, path, NewOf(s, OpMkdir(path)), other);
  }

  lemma CopyToElsewhere(s: Store, path: cstring, data: seq<byte>, other: cstring)
    requires Ready(s) && |data| <= MAX_SIZE && Succeeds(s, OpCopyTo(path, data)) && !Takes(s, OpCopyTo(path, data), other)
    ensures Ready(AfterCopyTo(s, path, data))
    ensures Follows(s, AfterCopyTo(s, path, data), |Steps(path)|, other, Disturbs(s, OpCopyTo(path, data), other))
  {
    var d := ParentOf(s, path).value;
    CopyToWrites(s, path, data, d);
    WriteElsewhere(s, AfterCopyTo(s, path, data), d, path, NewOf(s, OpCopyTo(path, data)), other);
  }

  lemma WriteElsewhere(s: Store, t: Store, d: int, path: cstring, e: Fd, other: cstring)
    requires Inv(s) && Inv(t) && ParentOf(s, path) == Some(d) && WrittenIn(s, t, d, BaseName(path), e)
    requires Under(ParentComponents(path), Steps(other)) ==> Steps(other)[|ParentComponents(path)|] != Seen(e)
    ensures Follows(s, t, |Steps(path)|, other,
                    Under(ParentComponents(path), Steps(other))
                    && WriteDisturbs(DirSlots(s, d), BaseName(path), Steps(other)[|ParentComponents(path)|]))
  {
    var at, x := ParentComponents(path), Target(s, d, BaseName(path));
    if Under(at, Steps(other)) {
      var c := Steps(other)[|at|];
      if WriteDisturbs(DirSlots(s, d), BaseName(path), c) {
        WriteMoves(s, t, d, BaseName(path), e, c);
        if Found(s, other).Some? || |Steps(other)| == |Steps(path)| {
          PathMoves(s, t, d, x, at, other);
        }
      } else {
        WriteSame(s, t, d, BaseName(path), e, c);
        PathSame(s, t, d, x, at, other);
      }
    } else {
      PathSame(s, t, d, x, at, other);
    }
  }

  lemma RmElsewhere(s: Store, path: cstring, other: cstring)
    requires Ready(s) && Succeeds(s, OpRm(path))
    ensures Ready(AfterRm(s, path))
    ensures Follows(s, AfterRm(s, path), |Steps(path)|, other, Disturbs(s, OpRm(path), other))
  {
    var d := ParentOf(s, path).value;
    RmClears(s, path, d);
    ClearElsewhere(s, AfterRm(s, path), d, path, other);
  }

  lemma ClearElsewhere(s: Store, t: Store, d: int, path: cstring, other: cstring)
    requires Inv(s) && Inv(t) && ParentOf(s, path) == Some(d) && ClearedIn(s, t, d, BaseName(path))
    ensures var slots, at := DirSlots(s, d), ParentComponents(path);
            Follows(s, t, |Steps(path)|, other,
                    Under(at, Steps(other)) && ClearHides(FindIdx(slots, BaseName(path)), FindIdx(slots, Steps(other)[|at|])))
  {
    var at, x := ParentComponents(path), Target(s, d, BaseName(path));
    if Under(at, Steps(other)) {
      var c := Steps(other)[|at|];
      if ClearHides(FindIdx(DirSlots(s, d), BaseName(path)), FindIdx(DirSlots(s, d), c)) {
        ClearMoves(s, t, d, BaseName(path), c);
        if Found(s, other).Some? || |Steps(other)| == |Steps(path)| {
          PathMoves(s, t, d, x, at, other);
        }
      } else {
        ClearSame(s, t, d, BaseName(path), c);
        PathSame(s, t, d, x, at, other);
      }
    } else {
      PathSame(s, t, d, x, at, other);
    }
  }

  /** An operation that does not succeed changes no directory: at most a block is lost. */
  lemma FailedElsewhere(s: Store, op: Op, other: cstring)
    requires Ready(s) && op.Valid() && !Succeeds(s, op)
    ensures Ready(Apply(s, op))
    ensures Found(Apply(s, op), other) == Found(s, other) && FileAt(Apply(s, op), other) == FileAt(s, other)
  {
    ApplyInv(s, op);
    if ParentOf(s, op.path).Some? {
      var d := ParentOf(s, op.path).value;
      match op
      case OpMkdir(path) =>
        if Lookup(s, d, path) < 0 && s.free != [] {
          FailedMkdir(s, path, d, other);
        }
      case OpCopyTo(path, data) => CopyToRefused(s, path, data, d);
      case OpRm(_) =>
    }
  }

  /** It changes nothing at all, but for the mkdir_myfs that loses the last block. */
  lemma FailedSame(s: Store, op: Op)
    requires Ready(s) && op.Valid() && !Succeeds(s, op) && !Leaks(s, op)
    ensures Apply(s, op) == s
  {
    if ParentOf(s, op.path).Some? && op.OpCopyTo? {
      CopyToRefused(s, op.path, op.data, ParentOf(s, op.path).value);
    }
  }

  lemma FailedMkdir(s: Store, path: cstring, d: int, other: cstring)
    requires Ready(s) && ParentOf(s, path) == Some(d) && !CanMkdir(s, path) && Lookup(s, d, path) < 0 && s.free != []
    requires Ready(AfterMkdir(s, path).0)
    ensures var t := AfterMkdir(s, path).0;
            Found(t, other) == Found(s, other) && FileAt(t, other) == FileAt(s, other)
  {
    var t := AfterMkdir(s, path).0;
    FreeHeadFresh(s);
    EnterIs(s, d, MYFOLDER, BaseName(path), 0);
    NoFreeObject(s);
    assert OnlyIn(s, t, d, FREE) && DirSlots(t, d) == DirSlots(s, d);
    UnchangedIn(s, t, d, ParentComponents(path), other);
  }

  lemma UnchangedIn(s: Store, t: Store, d: int, at: seq<cstring>, other: cstring)
    requires Inv(s) && Inv(t) && OnlyIn(s, t, d, FREE) && Resolve(s, ROOT, at) == Some(d) && DirSlots(t, d) == DirSlots(s, d)
    ensures Found(t, other) == Found(s, other) && FileAt(t, other) == FileAt(s, other)
  {
    if Under(at, Steps(other)) {
      FindsEntry(s, d, Steps(other)[|at|]);
      NoFreeObject(s);
    }
    PathSame(s, t, d, FREE, at, other);
  }

  /** In every state, with holes or without: what another path leads to, and the file mycopyfrom reads there, is unchanged
      unless the operation disturbs the lookup; and when it does, a path that led somewhere, or that ends in the directory
      changed, leads somewhere else. */
  lemma Elsewhere(s: Store, op: Op, other: cstring)
    requires Ready(s) && op.Valid() && !Takes(s, op, other)
    ensures Ready(Apply(s, op))
    ensures !Disturbs(s, op, other) ==> Found(Apply(s, op), other) == Found(s, other)
    ensures !Disturbs(s, op, other) ==> FileAt(Apply(s, op), other) == FileAt(s, other)
    ensures Found(s, other).Some? || |Steps(other)| == |Steps(op.path)| ==>
              (Found(Apply(s, op), other) == Found(s, other) <==> !Disturbs(s, op, other))
  {
    if !Succeeds(s, op) {
      FailedElsewhere(s, op, other);
    } else {
      match op
      case OpMkdir(path) => MkdirElsewhere(s, path, other);
      case OpCopyTo(path, data) => CopyToElsewhere(s, path, data, other);
      case OpRm(path) => RmElsewhere(s, path, other);
    }
  }

  // ----- paths through the new entry

  /** An entry in front of the slot filled has that name too, and is still the one found. */
  ghost predicate Shadowed(s: Store, op: Op, other: cstring)
    requires Ready(s) && op.Valid() && Takes(s, op, other)
  {
    var slots := DirSlots(s, ParentOf(s, op.path).value);
    0 <= FindIdx(slots, NameThere(op, other)) < FirstHole(Cleared(slots, BaseName(op.path)))
  }

  lemma ShadowedSame(s: Store, t: Store, d: int, path: cstring, e: Fd, other: cstring)
    requires Inv(s) && Inv(t) && ParentOf(s, path) == Some(d) && WrittenIn(s, t, d, BaseName(path), e)
    requires Under(ParentComponents(path), Steps(other))
    requires 0 <= FindIdx(DirSlots(s, d), Steps(other)[|ParentComponents(path)|])
               < FirstHole(Cleared(DirSlots(s, d), BaseName(path)))
    ensures Found(t, other) == Found(s, other) && FileAt(t, other) == FileAt(s, other)
  {
    var at, slots := ParentComponents(path), DirSlots(s, d);
    var c := Steps(other)[|at|];
    FindBeforeHole(slots, BaseName(path), c);
    FindsOld(Cleared(slots, BaseName(path)), e, c);
    FindsEntry(s, d, c);
    TargetApart(s, d, BaseName(path), c);
    PathSame(s, t, d, Target(s, d, BaseName(path)), at, other);
  }

  /** Otherwise the path goes through the new entry: it leads to the new object, or on from there. */
  lemma ThroughNew(s: Store, t: Store, d: int, path: cstring, e: Fd, other: cstring)
    requires Inv(s) && Inv(t) && ParentOf(s, path) == Some(d) && WrittenIn(s, t, d, BaseName(path), e)
    requires Under(ParentComponents(path), Steps(other)) && Steps(other)[|ParentComponents(path)|] == Seen(e)
    requires !(0 <= FindIdx(DirSlots(s, d), Seen(e)) < FirstHole(Cleared(DirSlots(s, d), BaseName(path))))
    ensures Resolve(t, ROOT, ParentComponents(path)) == Some(d)
    ensures FindIdx(DirSlots(t, d), Seen(e)) == FirstHole(Cleared(DirSlots(s, d), BaseName(path)))
    ensures |Steps(other)| == |Steps(path)| ==> Found(t, other) == Some(e.firstblock)
  {
    var at := ParentComponents(path);
    WalkSame(s, t, d, Target(s, d, BaseName(path)), at, at);
    NewIsFound(DirSlots(s, d), e, BaseName(path));
    if |Steps(other)| == |Steps(path)| {
      UnderSteps(at, other);
      FoundIn(t, d, other);
    }
  }

  lemma FoundIn(t: Store, d: int, other: cstring)
    requires Tree(t) && Folder(t, d) && Resolve(t, ROOT, ParentComponents(other)) == Some(d)
    ensures var i := FindIdx(DirSlots(t, d), BaseName(other));
            && i < |DirSlots(t, d)|
            && Found(t, other) == if i < 0 then None else Some(DirSlots(t, d)[i].firstblock)
  {
    FindsEntry(t, d, BaseName(other));
  }

  lemma NewIsFound(slots: seq<Fd>, e: Fd, name: cstring)
    requires Used(e) && !(0 <= FindIdx(slots, Seen(e)) < FirstHole(Cleared(slots, name)))
    ensures FindIdx(WithEntry(Cleared(slots, name), e), Seen(e)) == FirstHole(Cleared(slots, name))
  {
    FindBeforeHole(slots, name, Seen(e));
    FindsNew(Cleared(slots, name), e, Seen(e));
  }

  /** Nothing is found below a name that leads to no folder, or to an empty one. */
  ghost predicate NothingUnder(s: Store, d: int, c: cstring)
    requires Tree(s) && Folder(s, d)
  {
    match Descend(s, d, c)
    case None => true
    case Some(b) => forall i :: 0 <= i < |DirSlots(s, b)| ==> !Used(DirSlots(s, b)[i])
  }

  lemma NothingInEmpty(s: Store, b: int, name: cstring)
    requires Tree(s) && Folder(s, b) && forall i :: 0 <= i < |DirSlots(s, b)| ==> !Used(DirSlots(s, b)[i])
    ensures FindIdx(DirSlots(s, b), name) < 0 && Descend(s, b, name) == None
  {
    FindsEntry(s, b, name);
  }

  lemma NothingBelow(s: Store, d: int, at: seq<cstring>, other: cstring)
    requires Inv(s) && Resolve(s, ROOT, at) == Some(d) && Under(at, Steps(other)) && |Steps(other)| > |at| + 1
    requires NothingUnder(s, d, Steps(other)[|at|])
    ensures Found(s, other) == None && FileAt(s, other) == None
  {
    UnderSteps(at, other);
    var c, rest := Steps(other)[|at|], ParentComponents(other)[|at| + 1..];
    BelowStart(s, d, at, c, rest);
    if Descend(s, d, c).Some? {
      NothingInEmpty(s, Descend(s, d, c).value, if rest == [] then BaseName(other) else rest[0]);
    }
  }

  /** A name that is not found leads to no file, nor through it to one. */
  lemma NoFileThere(s: Store, d: int, at: seq<cstring>, other: cstring)
    requires Inv(s) && Resolve(s, ROOT, at) == Some(d) && Under(at, Steps(other))
    requires FindIdx(DirSlots(s, d), Steps(other)[|at|]) < 0
    ensures FileAt(s, other) == None
  {
    UnderSteps(at, other);
    if at != ParentComponents(other) {
      NothingBelow(s, d, at, other);
    }
  }

  /** A path through the entry that mkdir_myfs makes leads to the new folder and to nothing in it, or where it led if an
      entry of that name stands in front. */
  lemma MkdirThrough(s: Store, path: cstring, other: cstring)
    requires Ready(s) && Takes(s, OpMkdir(path), other)
    ensures Ready(AfterMkdir(s, path).0)
    ensures var t := AfterMkdir(s, path).0;
            if Shadowed(s, OpMkdir(path), other) then Found(t, other) == Found(s, other) && FileAt(t, other) == FileAt(s, other)
            else
              && Found(t, other) == (if |Steps(other)| == |Steps(path)| then Some(s.free[0]) else None)
              && FileAt(t, other) == None
  {
    var d, e := ParentOf(s, path).value, NewOf(s, OpMkdir(path));
    MkdirWrites(s, path, d);
    if Shadowed(s, OpMkdir(path), other) {
      PastWritten(s, AfterMkdir(s, path).0, OpMkdir(path), other);
    } else {
      ThroughNew(s, AfterMkdir(s, path).0, d, path, e, other);
      NewFolderEmpty(s, path, d);
      UnderSteps(ParentComponents(path), other);
      if |Steps(other)| > |Steps(path)| {
        NothingBelow(AfterMkdir(s, path).0, d, ParentComponents(path), other);
      }
    }
  }

  lemma NewFolderEmpty(s: Store, path: cstring, d: int)
    requires Ready(s) && ParentOf(s, path) == Some(d) && CanMkdir(s, path) && Ready(AfterMkdir(s, path).0)
    ensures var t := AfterMkdir(s, path).0;
            && Folder(t, s.free[0]) && (forall i :: 0 <= i < |DirSlots(t, s.free[0])| ==> !Used(DirSlots(t, s.free[0])[i]))
            && NewOf(s, OpMkdir(path)).kind == MYFOLDER && NewOf(s, OpMkdir(path)).firstblock == s.free[0]
  {
    FreeHeadFresh(s);
    EnterIs(s, d, MYFOLDER, BaseName(path), 0);
    BlankSlots(AfterMkdir(s, path).0, s.free[0]);
  }

  /** A path through the entry that mycopyto makes leads to the new file, and below it to nothing: what a copy overwrites as
      a folder is gone. */
  lemma CopyToThrough(s: Store, path: cstring, data: seq<byte>, other: cstring)
    requires Ready(s) && |data| <= MAX_SIZE && Takes(s, OpCopyTo(path, data), other)
    ensures Ready(AfterCopyTo(s, path, data))
    ensures var t, op := AfterCopyTo(s, path, data), OpCopyTo(path, data);
            if Shadowed(s, op, other) then Found(t, other) == Found(s, other) && FileAt(t, other) == FileAt(s, other)
            else
              && Found(t, other) == (if |Steps(other)| == |Steps(path)| then Some(NewOf(s, op).firstblock) else None)
              && (|Steps(other)| > |Steps(path)| ==> FileAt(t, other) == None)
  {
    CopyToWrites(s, path, data, ParentOf(s, path).value);
    NewIsFile(s, path, data);
    ThroughWritten(s, AfterCopyTo(s, path, data), OpCopyTo(path, data), other);
  }

  lemma NewIsFile(s: Store, path: cstring, data: seq<byte>)
    requires Ready(s) && |data| <= MAX_SIZE && Succeeds(s, OpCopyTo(path, data))
    ensures NewOf(s, OpCopyTo(path, data)).kind == MYFILE
  {
  }

  lemma ThroughWritten(s: Store, t: Store, op: Op, other: cstring)
    requires Ready(s) && Inv(t) && op.OpCopyTo? && op.Valid() && Takes(s, op, other) && NewOf(s, op).kind == MYFILE
    requires WrittenIn(s, t, ParentOf(s, op.path).value, BaseName(op.path), NewOf(s, op))
    ensures if Shadowed(s, op, other) then Found(t, other) == Found(s, other) && FileAt(t, other) == FileAt(s, other)
            else
              && Found(t, other) == (if |Steps(other)| == |Steps(op.path)| then Some(NewOf(s, op).firstblock) else None)
              && (|Steps(other)| > |Steps(op.path)| ==> FileAt(t, other) == None)
  {
    if Shadowed(s, op, other) {
      PastWritten(s, t, op, other);
    } else {
      ThroughFile(s, t, ParentOf(s, op.path).value, op.path, NewOf(s, op), other);
    }
  }

  lemma PastWritten(s: Store, t: Store, op: Op, other: cstring)
    requires Ready(s) && Inv(t) && op.Valid() && Takes(s, op, other) && Shadowed(s, op, other)
    requires WrittenIn(s, t, ParentOf(s, op.path).value, BaseName(op.path), NewOf(s, op))
    ensures Found(t, other) == Found(s, other) && FileAt(t, other) == FileAt(s, other)
  {
    ShadowedSame(s, t, ParentOf(s, op.path).value, op.path, NewOf(s, op), other);
  }

  lemma ThroughFile(s: Store, t: Store, d: int, path: cstring, e: Fd, other: cstring)
    requires Inv(s) && Inv(t) && ParentOf(s, path) == Some(d) && WrittenIn(s, t, d, BaseName(path), e) && e.kind == MYFILE
    requires Under(ParentComponents(path), Steps(other)) && Steps(other)[|ParentComponents(path)|] == Seen(e)
    requires !(0 <= FindIdx(DirSlots(s, d), Seen(e)) < FirstHole(Cleared(DirSlots(s, d), BaseName(path))))
    ensures Found(t, other) == if |Steps(other)| == |Steps(path)| then Some(e.firstblock) else None
    ensures |Steps(other)| > |Steps(path)| ==> FileAt(t, other) == None
  {
    ThroughNew(s, t, d, path, e, other);
    if |Steps(other)| > |Steps(path)| {
      assert Descend(t, d, Seen(e)) == None;
      NothingBelow(t, d, ParentComponents(path), other);
    }
  }

  /** A copy under a name that is read back has no other entry of that name in front of it. */
  lemma KeptTakes(s: Store, path: cstring, data: seq<byte>, other: cstring)
    requires Ready(s) && |data| <= MAX_SIZE && Succeeds(s, OpCopyTo(path, data)) && NameKept(s, ParentOf(s, path).value, path)
    requires Steps(path) <= Steps(other)
    ensures Takes(s, OpCopyTo(path, data), other) && !Shadowed(s, OpCopyTo(path, data), other)
  {
    var op := OpCopyTo(path, data);
    assert Meets(s, op, other) && NameThere(op, other) == BaseName(path) by { StepsPrefix(path, other); }
    assert Takes(s, op, other) by { KeptSeen(s, path, data); }
    NoneInFront(DirSlots(s, ParentOf(s, path).value), BaseName(path));
  }

  lemma KeptSeen(s: Store, path: cstring, data: seq<byte>)
    requires Ready(s) && |data| <= MAX_SIZE && Succeeds(s, OpCopyTo(path, data))
    ensures Seen(NewOf(s, OpCopyTo(path, data))) == BaseName(path) <==> NameKept(s, ParentOf(s, path).value, path)
  {
    var v := Vacated(s, ParentOf(s, path).value, path);
    FreeHeadInRange(v);
    SeenNew(MYFILE, BaseName(path), v.free[0], |data|);
  }

  lemma StepsPrefix(path: cstring, other: cstring)
    requires Steps(path) <= Steps(other)
    ensures var at := ParentComponents(path);
            Under(at, Steps(other)) && Steps(other)[|at|] == BaseName(path)
  {
    var at := ParentComponents(path);
    assert Steps(other)[..|at|] == Steps(path)[..|at|] == at && Steps(other)[|at|] == Steps(path)[|at|] == BaseName(path);
  }

  lemma NoneInFront(slots: seq<Fd>, name: cstring)
    ensures !(0 <= FindIdx(slots, name) < FirstHole(Cleared(slots, name)))
  {
    if FindIdx(slots, name) >= 0 {
      NoHoleBefore(slots, name);
    }
  }

  // ----- names that are not read back

  /** An entry is found by no path at all unless it is seen under a name that fits the field. */
  lemma FoundBySeen(t: Store, d: int, i: int, other: cstring)
    requires Inv(t) && Folder(t, d) && 0 <= i < |DirSlots(t, d)| && Used(DirSlots(t, d)[i])
    requires Found(t, other) == Some(DirSlots(t, d)[i].firstblock)
    ensures Seen(DirSlots(t, d)[i]) == BaseName(other)
  {
    assert SlotsOk(t, d) && EntryOk(t, d, i, DirSlots(t, d)[i]);
    FindsEntry(t, ParentOf(t, other).value, BaseName(other));
  }

  lemma CopyReached(s: Store, path: cstring, data: seq<byte>, other: cstring)
    requires Ready(s) && |data| <= MAX_SIZE && Succeeds(s, OpCopyTo(path, data))
    ensures Ready(AfterCopyTo(s, path, data))
    ensures Found(AfterCopyTo(s, path, data), other) == Some(NewOf(s, OpCopyTo(path, data)).firstblock) ==>
              NameKept(s, ParentOf(s, path).value, path)
  {
    var d, e, t := ParentOf(s, path).value, NewOf(s, OpCopyTo(path, data)), AfterCopyTo(s, path, data);
    CopyToWrites(s, path, data, d);
    if Found(t, other) == Some(e.firstblock) {
      FoundBySeen(t, d, FirstHole(Cleared(DirSlots(s, d), BaseName(path))), other);
      SeenIs(MYFILE, BaseName(path), e.firstblock, |data|);
    }
  }

  /** The file that a mycopyto enters is found by some path if and only if its name is read back: then by its own. */
  lemma CopyFoundIff(s: Store, path: cstring, data: seq<byte>)
    requires Ready(s) && |data| <= MAX_SIZE && Succeeds(s, OpCopyTo(path, data))
    ensures Ready(AfterCopyTo(s, path, data))
    ensures var b, t := NewOf(s, OpCopyTo(path, data)).firstblock, AfterCopyTo(s, path, data);
            && ((exists other :: Found(t, other) == Some(b)) <==> NameKept(s, ParentOf(s, path).value, path))
            && (Found(t, path) == Some(b) <==> NameKept(s, ParentOf(s, path).value, path))
  {
    var t := AfterCopyTo(s, path, data);
    CopyToInv(s, path, data);
    forall other
      ensures Found(t, other) == Some(NewOf(s, OpCopyTo(path, data)).firstblock) ==> NameKept(s, ParentOf(s, path).value, path)
    {
      CopyReached(s, path, data, other);
    }
    if NameKept(s, ParentOf(s, path).value, path) {
      KeptTakes(s, path, data, path);
      CopyToThrough(s, path, data, path);
    }
  }

  // ----- runs

  /** The operation does not come between other and its file. */
  ghost predicate Spares(s: Store, op: Op, other: cstring)
    requires Ready(s) && op.Valid()
  {
    if !Takes(s, op, other) then !Disturbs(s, op, other)
    else
      || Shadowed(s, op, other)
      || (FindIdx(DirSlots(s, ParentOf(s, op.path).value), NameThere(op, other)) < 0
          && (op.OpMkdir? || |Steps(other)| > |Steps(op.path)|))
  }

  lemma SparedFile(s: Store, op: Op, other: cstring)
    requires Ready(s) && op.Valid() && Spares(s, op, other)
    ensures Ready(Apply(s, op)) && FileAt(Apply(s, op), other) == FileAt(s, other)
  {
    if !Takes(s, op, other) {
      Elsewhere(s, op, other);
    } else {
      if !Shadowed(s, op, other) {
        NoFileThere(s, ParentOf(s, op.path).value, ParentComponents(op.path), other);
      }
      match op
      case OpMkdir(path) => MkdirThrough(s, path, other);
      case OpCopyTo(path, data) => CopyToThrough(s, path, data, other);
      case OpRm(_) =>
    }
  }

  ghost predicate EachSpares(s: Store, ops: seq<Op>, other: cstring)
    requires Ready(s) && ValidOps(ops)
    decreases |ops|
  {
    ops == [] ||
    (ApplyInv(s, ops[0]);
     Spares(s, ops[0], other) && EachSpares(Apply(s, ops[0]), ops[1..], other))
  }

  /** A run of any operations that each spare a path leaves the file there as it was. */
  lemma {:induction false} RunElsewhere(s: Store, ops: seq<Op>, other: cstring)
    requires Ready(s) && ValidOps(ops) && EachSpares(s, ops, other)
    ensures FileAt(Run(s, ops), other) == FileAt(s, other)
    decreases |ops|
  {
    if ops != [] {
      SparedFile(s, ops[0], other);
      RunElsewhere(Apply(s, ops[0]), ops[1..], other);
    }
  }

  /** The last copy stands: in any state, what mycopyfrom returns right after a mycopyto it returns after any further run,
      removals included, of which each step spares the path; and if the name is one that is read back, that is the data,
      exactly if the directory was found and the blocks sufficed. */
  lemma LastCopyStands(s: Store, path: cstring, data: seq<byte>, ops: seq<Op>)
    requires Ready(s) && |data| <= MAX_SIZE && ValidOps(ops) && Ready(AfterCopyTo(s, path, data))
    requires EachSpares(AfterCopyTo(s, path, data), ops, path)
    ensures FileAt(Run(AfterCopyTo(s, path, data), ops), path) == FileAt(AfterCopyTo(s, path, data), path)
    ensures (Succeeds(s, OpCopyTo(path, data)) ==> NameKept(s, ParentOf(s, path).value, path)) ==>
              (FileAt(Run(AfterCopyTo(s, path, data), ops), path) == Some(data) <==>
               ParentOf(s, path).Some? && var d := ParentOf(s, path).value;
                                          Needed(Vacated(s, d, path), d, |data|) <= |Vacated(s, d, path).free|)
  {
    RunElsewhere(AfterCopyTo(s, path, data), ops, path);
    if Succeeds(s, OpCopyTo(path, data)) ==> NameKept(s, ParentOf(s, path).value, path) {
      CopyRoundTrip(s, path, data);
    }
  }
}
