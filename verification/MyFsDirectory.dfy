/** Directory contents as one list of slots, and what find_entry and add_dir_entry look for in it. */
module MyFsDirectory {
  import opened Bytes
  import opened MyFsBlocks

  predicate Used(e: Fd) {
    e.kind != 0
  }

  /** A slot find_entry can reach: it stops at the first empty slot of each block. */
  ghost predicate Visible(slots: seq<Fd>, i: int) {
    0 <= i < |slots| && forall j :: i - i % SLOTS <= j <= i ==> Used(slots[j])
  }

  ghost predicate Match(slots: seq<Fd>, i: int, name: cstring) {
    Visible(slots, i) && Seen(slots[i]) == name
  }

  /** r is the first visible slot with this name in chain order, or -1 if no visible slot has it. */
  ghost predicate FirstMatch(slots: seq<Fd>, name: cstring, r: int) {
    && (forall i :: 0 <= i < (if r < 0 then |slots| else r) ==> !Match(slots, i, name))
    && if r < 0 then r == -1 else Match(slots, r, name)
  }

  ghost function FindIdx(slots: seq<Fd>, name: cstring): (r: int)
    ensures FirstMatch(slots, name, r)
  {
    FindFrom(slots, name, 0)
  }

  ghost function FindFrom(slots: seq<Fd>, name: cstring, i: nat): (r: int)
    requires forall j :: 0 <= j < i ==> !Match(slots, j, name)
    ensures FirstMatch(slots, name, r)
    decreases |slots| - i
  {
    if i >= |slots| then -1 else if Match(slots, i, name) then i else FindFrom(slots, name, i + 1)
  }

  lemma FirstMatchIsFindIdx(slots: seq<Fd>, name: cstring, r: int)
    requires FirstMatch(slots, name, r)
    ensures r == FindIdx(slots, name)
  {
  }

  /** Block boundaries do not move when whole blocks are dropped. */
  lemma VisibleDrop(slots: seq<Fd>, k: nat, i: int)
    requires SLOTS * k <= |slots|
    ensures Visible(slots[SLOTS * k..], i) <==> i >= 0 && Visible(slots, i + SLOTS * k)
  {
  }

  /** In one block exactly the slots before the first empty one are visible. */
  lemma VisibleInBlock(slots: seq<Fd>, e: int, i: int)
    requires 0 <= e <= SLOTS <= |slots| && 0 <= i < SLOTS
    requires forall j :: 0 <= j < e ==> Used(slots[j])
    requires e < SLOTS ==> !Used(slots[e])
    ensures Visible(slots, i) <==> i < e
  {
  }

  /** Before the end of such a scan nothing matches in this block, and behind it as in the rest. */
  lemma MatchInRest(slots: seq<Fd>, name: cstring, e: int, i: int)
    requires 0 <= e <= SLOTS <= |slots| && 0 <= i < |slots|
    requires forall j :: 0 <= j < e ==> Used(slots[j]) && Seen(slots[j]) != name
    requires e < SLOTS ==> !Used(slots[e])
    ensures Match(slots, i, name) <==> i >= SLOTS && Match(slots[SLOTS..], i - SLOTS, name)
  {
    if i < SLOTS {
      VisibleInBlock(slots, e, i);
    } else {
      VisibleDrop(slots, 1, i - SLOTS);
    }
  }

  /** A result found in the blocks behind the first is shifted by one block. */
  lemma FindInRest(slots: seq<Fd>, name: cstring, e: int, r: int)
    requires 0 <= e <= SLOTS <= |slots|
    requires forall j :: 0 <= j < e ==> Used(slots[j]) && Seen(slots[j]) != name
    requires e < SLOTS ==> !Used(slots[e])
    requires r == FindIdx(slots[SLOTS..], name)
    ensures FindIdx(slots, name) == if r >= 0 then SLOTS + r else -1
  {
    var q := if r >= 0 then SLOTS + r else -1;
    assert r >= 0 ==> Match(slots[SLOTS..], r, name);
    forall i | 0 <= i < |slots|
      ensures Match(slots, i, name) <==> i >= SLOTS && Match(slots[SLOTS..], i - SLOTS, name)
    {
      MatchInRest(slots, name, e, i);
    }
    FirstMatchIsFindIdx(slots, name, q);
  }

  /** The slot add_dir_entry fills: the first empty one of the whole chain, or none (one past the end). */
  ghost function FirstHole(slots: seq<Fd>): (r: int)
    ensures 0 <= r <= |slots|
    ensures forall i :: 0 <= i < r ==> Used(slots[i])
    ensures r < |slots| ==> !Used(slots[r])
  {
    HoleFrom(slots, 0)
  }

  ghost function HoleFrom(slots: seq<Fd>, i: nat): (r: int)
    requires i <= |slots| && forall j :: 0 <= j < i ==> Used(slots[j])
    ensures 0 <= r <= |slots|
    ensures forall i :: 0 <= i < r ==> Used(slots[i])
    ensures r < |slots| ==> !Used(slots[r])
    decreases |slots| - i
  {
    if i == |slots| || !Used(slots[i]) then i else HoleFrom(slots, i + 1)
  }

  lemma FirstHoleUnique(slots: seq<Fd>, r: int)
    requires 0 <= r <= |slots| && (r < |slots| ==> !Used(slots[r]))
    requires forall i :: 0 <= i < r ==> Used(slots[i])
    ensures r == FirstHole(slots)
  {
  }

  /** An entry put into the first hole is the one find_entry returns, however many holes follow. */
  lemma FindAfterAdd(slots: seq<Fd>, e: Fd, name: cstring)
    requires FirstHole(slots) < |slots| && Used(e) && Seen(e) == name
    requires FindIdx(slots, name) == -1
    ensures FindIdx(slots[FirstHole(slots) := e], name) == FirstHole(slots)
  {
    var f := FirstHole(slots);
    var slots' := slots[f := e];
    forall i | 0 <= i < f
      ensures !Match(slots', i, name)
    {
      assert Visible(slots, i);
      assert !Match(slots, i, name);
    }
    FirstMatchIsFindIdx(slots', name, f);
  }

  /** Clearing the slot find_entry returned leaves no visible slot of that name before the first hole. */
  lemma FindAfterReplace(slots: seq<Fd>, e: Fd, name: cstring)
    requires Used(e) && Seen(e) == name && FindIdx(slots, name) >= 0
    ensures var cleared := slots[FindIdx(slots, name) := EMPTY_FD];
            && FirstHole(cleared) <= FindIdx(slots, name)
            && FindIdx(cleared[FirstHole(cleared) := e], name) == FirstHole(cleared)
  {
    var r := FindIdx(slots, name);
    assert Match(slots, r, name);
    var cleared := slots[r := EMPTY_FD];
    var f := FirstHole(cleared);
    assert !Used(cleared[r]);
    var slots' := cleared[f := e];
    forall i | 0 <= i < f
      ensures !Match(slots', i, name)
    {
      assert forall j :: 0 <= j < f ==> slots'[j] == slots[j] == cleared[j];
      assert Visible(slots, i);
      assert !Match(slots, i, name);
    }
    assert Visible(slots', f) by {
      assert forall j :: 0 <= j < f ==> Used(slots'[j]);
    }
    FirstMatchIsFindIdx(slots', name, f);
  }

  /** After a removal a slot stays visible exactly when it does not lie behind the hole in the hole's own block. */
  lemma VisibleAfterRemove(slots: seq<Fd>, r: int, i: int)
    requires 0 <= r < |slots| && Visible(slots, i)
    ensures Visible(slots[r := EMPTY_FD], i) <==> i / SLOTS != r / SLOTS || i < r
  {
    var slots' := slots[r := EMPTY_FD];
    if i / SLOTS != r / SLOTS || i < r {
      forall j | i - i % SLOTS <= j <= i
        ensures Used(slots'[j])
      {
        assert j != r;
      }
    } else {
      assert i - i % SLOTS <= r <= i;
      assert !Used(slots'[r]);
    }
  }

  /** The slots once add_dir_entry has found room: e in the first hole, in a new block if there was none. */
  ghost function WithEntry(slots: seq<Fd>, e: Fd): (r: seq<Fd>)
    ensures |slots| <= |r| && FirstHole(slots) < |r| && r[FirstHole(slots)] == e
    ensures forall j :: 0 <= j < |slots| && j != FirstHole(slots) ==> r[j] == slots[j]
  {
    var f := FirstHole(slots);
    (if f < |slots| then slots else slots + seq(SLOTS, _ => EMPTY_FD))[f := e]
  }

  /** The slots once a previous entry of this name, if find_entry sees one, is removed. */
  ghost function Cleared(slots: seq<Fd>, name: cstring): (r: seq<Fd>)
    ensures |r| == |slots|
    ensures forall j :: 0 <= j < |slots| && j != FindIdx(slots, name) ==> r[j] == slots[j]
  {
    if FindIdx(slots, name) < 0 then slots else slots[FindIdx(slots, name) := EMPTY_FD]
  }

  /** Wherever it is put, find_entry finds the new entry, and none of the same name before it. */
  lemma FoundAfterWrite(slots: seq<Fd>, e: Fd, name: cstring)
    requires |slots| % SLOTS == 0 && Used(e) && Seen(e) == name
    ensures FindIdx(WithEntry(Cleared(slots, name), e), name) == FirstHole(Cleared(slots, name))
  {
    var cleared := Cleared(slots, name);
    if FindIdx(slots, name) >= 0 {
      FindAfterReplace(slots, e, name);
    } else if FirstHole(slots) < |slots| {
      FindAfterAdd(slots, e, name);
    } else {
      var grown := slots + seq(SLOTS, _ => EMPTY_FD);
      FindInGrown(slots, name);
      FirstHoleUnique(grown, |slots|);
      FindAfterAdd(grown, e, name);
    }
  }

  /** Under a name c, seen or not, find_entry returns the entry just added exactly if that is what the entry is seen as and
      no entry of that name is found in front of it. */
  lemma FindsNew(slots: seq<Fd>, e: Fd, c: cstring)
    requires Used(e)
    ensures FindIdx(WithEntry(slots, e), c) == FirstHole(slots) <==>
            Seen(e) == c && !(0 <= FindIdx(slots, c) < FirstHole(slots))
  {
    var after, f := WithEntry(slots, e), FirstHole(slots);
    forall j | 0 <= j < f
      ensures Match(after, j, c) <==> Match(slots, j, c)
    {
      assert forall k :: 0 <= k <= j ==> after[k] == slots[k];
    }
    assert Visible(after, f);
    if Seen(e) == c && !(0 <= FindIdx(slots, c) < f) {
      FirstMatchIsFindIdx(after, c, f);
    }
  }

  /** And an entry of that name in front of it stays the one found. */
  lemma FindsOld(slots: seq<Fd>, e: Fd, c: cstring)
    requires Used(e) && 0 <= FindIdx(slots, c) < FirstHole(slots)
    ensures FindIdx(WithEntry(slots, e), c) == FindIdx(slots, c)
    ensures WithEntry(slots, e)[FindIdx(slots, c)] == slots[FindIdx(slots, c)]
  {
    var after, q := WithEntry(slots, e), FindIdx(slots, c);
    forall j | 0 <= j <= q
      ensures Match(after, j, c) <==> Match(slots, j, c)
    {
      assert forall k :: 0 <= k <= j ==> after[k] == slots[k];
    }
    FirstMatchIsFindIdx(after, c, q);
  }

  /** In front of the slot that a write fills, nothing changes. */
  lemma FindBeforeHole(slots: seq<Fd>, name: cstring, c: cstring)
    ensures var cleared := Cleared(slots, name);
            var f, q, r := FirstHole(cleared), FindIdx(slots, c), FindIdx(cleared, c);
            && (0 <= q < f <==> 0 <= r < f) && (0 <= q < f ==> r == q && cleared[q] == slots[q] && q != FindIdx(slots, name))
  {
    var cleared := Cleared(slots, name);
    var f := FirstHole(cleared);
    assert FindIdx(slots, name) >= 0 ==> Match(slots, FindIdx(slots, name), name) && !Used(cleared[FindIdx(slots, name)]);
    forall j | 0 <= j < f
      ensures Match(cleared, j, c) <==> Match(slots, j, c)
    {
      assert forall k :: 0 <= k <= j ==> cleared[k] == slots[k];
    }
  }

  // ----- what a removal or a write does to the lookup of other names

  /** Emptying slot i changes what find_entry returns exactly for the entries from i on in i's own block. */
  ghost predicate ClearHides(i: int, q: int) {
    q >= 0 && q / SLOTS == i / SLOTS && i <= q
  }

  lemma MatchAfterClear(slots: seq<Fd>, i: int, c: cstring, j: int)
    requires 0 <= i < |slots|
    ensures Match(slots[i := EMPTY_FD], j, c) <==> Match(slots, j, c) && !ClearHides(i, j)
  {
    if Visible(slots[i := EMPTY_FD], j) {
      forall k | j - j % SLOTS <= k <= j
        ensures k != i && Used(slots[k])
      {
        assert Used(slots[i := EMPTY_FD][k]);
      }
    }
    if Visible(slots, j) {
      VisibleAfterRemove(slots, i, j);
    }
  }

  lemma FindAfterClear(slots: seq<Fd>, i: int, c: cstring)
    requires 0 <= i < |slots|
    ensures FindIdx(slots[i := EMPTY_FD], c) == FindIdx(slots, c) <==> !ClearHides(i, FindIdx(slots, c))
  {
    var after, q := slots[i := EMPTY_FD], FindIdx(slots, c);
    forall j | 0 <= j < |slots|
      ensures Match(after, j, c) <==> Match(slots, j, c) && !ClearHides(i, j)
    {
      MatchAfterClear(slots, i, c, j);
    }
    if !ClearHides(i, q) {
      FirstMatchIsFindIdx(after, c, q);
    } else {
      assert !Match(after, q, c);
    }
  }

  /** A write under name makes slot q vanish: it is the one cleared, or lies behind it in its block when the new entry goes
      to a hole further in front and leaves the cleared slot empty. */
  ghost predicate Hides(slots: seq<Fd>, name: cstring, q: int) {
    var r := FindIdx(slots, name);
    q >= 0 && r >= 0 && q / SLOTS == r / SLOTS && (q == r || (r < q && FirstHole(Cleared(slots, name)) != r))
  }

  /** Filling hole f makes slot j visible, which holds name c: nothing but used slots lies between them in one block. */
  ghost predicate RevealedAt(slots: seq<Fd>, f: int, j: int, c: cstring) {
    0 <= f < j < |slots| && j / SLOTS == f / SLOTS && (forall k :: f < k <= j ==> Used(slots[k])) && Seen(slots[j]) == c
  }

  ghost predicate Reveals(slots: seq<Fd>, name: cstring, c: cstring) {
    exists j :: RevealedAt(slots, FirstHole(Cleared(slots, name)), j, c) && (FindIdx(slots, c) < 0 || j < FindIdx(slots, c))
  }

  /** A write under name changes what find_entry returns for c. */
  ghost predicate WriteDisturbs(slots: seq<Fd>, name: cstring, c: cstring) {
    Hides(slots, name, FindIdx(slots, c)) || Reveals(slots, name, c)
  }

  /** A cleared slot that is not refilled was visible: no hole lies before it in its block. */
  lemma NoHoleBefore(slots: seq<Fd>, name: cstring)
    requires FindIdx(slots, name) >= 0
    ensures var r, f := FindIdx(slots, name), FirstHole(Cleared(slots, name));
            r < |slots| && f <= r && (f / SLOTS == r / SLOTS ==> f == r)
  {
    var r, f := FindIdx(slots, name), FirstHole(Cleared(slots, name));
    assert Match(slots, r, name);
    assert !Used(Cleared(slots, name)[r]);
    if f / SLOTS == r / SLOTS && f < r {
      assert r - r % SLOTS <= f;
      assert Used(slots[f]);
    }
  }

  lemma MatchBefore(slots: seq<Fd>, e: Fd, name: cstring, c: cstring, j: int)
    requires |slots| % SLOTS == 0 && Used(e) && Seen(e) != c
    requires Match(WithEntry(Cleared(slots, name), e), j, c)
    ensures j < |slots|
    ensures (Match(slots, j, c) && !Hides(slots, name, j)) || RevealedAt(slots, FirstHole(Cleared(slots, name)), j, c)
  {
    var after, f := WithEntry(Cleared(slots, name), e), FirstHole(Cleared(slots, name));
    assert j != f;
    assert j < |slots| && after[j] == slots[j];
    assert forall k :: j - j % SLOTS <= k <= j && k != f ==> Used(slots[k]) && slots[k] == after[k];
    if j - j % SLOTS <= f <= j {
      assert RevealedAt(slots, f, j, c);
    } else {
      assert Visible(slots, j);
      if FindIdx(slots, name) >= 0 {
        NoHoleBefore(slots, name);
      }
    }
  }

  lemma MatchStays(slots: seq<Fd>, e: Fd, name: cstring, c: cstring, j: int)
    requires |slots| % SLOTS == 0 && Used(e) && Seen(e) != c
    requires Match(slots, j, c) && !Hides(slots, name, j)
    ensures Match(WithEntry(Cleared(slots, name), e), j, c)
  {
    var after, f, r := WithEntry(Cleared(slots, name), e), FirstHole(Cleared(slots, name)), FindIdx(slots, name);
    if r >= 0 {
      NoHoleBefore(slots, name);
    }
    forall k | j - j % SLOTS <= k <= j
      ensures Used(after[k])
    {
      if k != f {
        assert k != r;
        assert after[k] == slots[k];
      }
    }
    assert j != f && j != r;
  }

  lemma MatchRevealed(slots: seq<Fd>, e: Fd, name: cstring, c: cstring, j: int)
    requires |slots| % SLOTS == 0 && Used(e) && Seen(e) != c
    requires RevealedAt(slots, FirstHole(Cleared(slots, name)), j, c)
    ensures Match(WithEntry(Cleared(slots, name), e), j, c)
  {
    var after, f := WithEntry(Cleared(slots, name), e), FirstHole(Cleared(slots, name));
    if FindIdx(slots, name) >= 0 {
      NoHoleBefore(slots, name);
    }
    forall k | j - j % SLOTS <= k <= j
      ensures Used(after[k])
    {
      if k > f {
        assert k / SLOTS == f / SLOTS;
        assert after[k] == slots[k];
      }
    }
  }

  /** Exactly when find_entry returns the same slot for another name after a write under name, new or replacing, in any
      directory, with or without holes. */
  lemma FindAfterWrite(slots: seq<Fd>, e: Fd, name: cstring, c: cstring)
    requires |slots| % SLOTS == 0 && Used(e) && Seen(e) != c
    ensures FindIdx(WithEntry(Cleared(slots, name), e), c) == FindIdx(slots, c) <==> !WriteDisturbs(slots, name, c)
  {
    var after, f := WithEntry(Cleared(slots, name), e), FirstHole(Cleared(slots, name));
    var q := FindIdx(slots, c);
    if !WriteDisturbs(slots, name, c) {
      forall j | 0 <= j < (if q < 0 then |after| else q)
        ensures !Match(after, j, c)
      {
        if Match(after, j, c) {
          assert j < |slots| ==> !Match(slots, j, c);
          MatchBefore(slots, e, name, c, j);
        }
      }
      if q >= 0 {
        MatchStays(slots, e, name, c, q);
      }
      FirstMatchIsFindIdx(after, c, q);
    } else if Hides(slots, name, q) {
      NoHoleBefore(slots, name);
      if Match(after, q, c) {
        MatchBefore(slots, e, name, c, q);
      }
    } else {
      var j :| RevealedAt(slots, f, j, c) && (q < 0 || j < q);
      MatchRevealed(slots, e, name, c, j);
    }
  }

  // ----- compact directories

  /** Used slots come first, with no hole between them, and no block but the last has an empty slot. */
  ghost predicate Compact(slots: seq<Fd>) {
    && (forall i :: FirstHole(slots) <= i < |slots| ==> !Used(slots[i]))
    && |slots| - SLOTS <= FirstHole(slots)
  }

  ghost predicate UniqueNames(slots: seq<Fd>) {
    forall i, j :: 0 <= i < j < |slots| && Used(slots[i]) && Used(slots[j]) ==> Seen(slots[i]) != Seen(slots[j])
  }

  lemma CompactVisible(slots: seq<Fd>, i: int)
    requires Compact(slots) && 0 <= i < |slots| && Used(slots[i])
    ensures Visible(slots, i)
  {
  }

  /** In a compact directory find_entry sees every name there is. */
  lemma CompactFind(slots: seq<Fd>, name: cstring)
    requires Compact(slots)
    ensures FindIdx(slots, name) == -1 <==>
            forall i :: 0 <= i < |slots| && Used(slots[i]) ==> Seen(slots[i]) != name
  {
    if FindIdx(slots, name) == -1 {
      forall i | 0 <= i < |slots| && Used(slots[i])
        ensures Seen(slots[i]) != name
      {
        CompactVisible(slots, i);
        assert !Match(slots, i, name);
      }
    } else {
      assert Match(slots, FindIdx(slots, name), name);
    }
  }

  /** Growing changes neither what is found nor where. */
  lemma FindInGrown(slots: seq<Fd>, name: cstring)
    requires |slots| % SLOTS == 0
    ensures FindIdx(slots + seq(SLOTS, _ => EMPTY_FD), name) == FindIdx(slots, name)
  {
    var grown := slots + seq(SLOTS, _ => EMPTY_FD);
    var r := FindIdx(slots, name);
    forall i | 0 <= i < |slots|
      ensures Match(grown, i, name) <==> Match(slots, i, name)
    {
      assert forall j :: 0 <= j <= i ==> grown[j] == slots[j];
      assert Visible(grown, i) <==> Visible(slots, i);
    }
    forall i | |slots| <= i < |grown|
      ensures !Match(grown, i, name)
    {
      assert !Used(grown[i]);
    }
    FirstMatchIsFindIdx(grown, name, r);
  }
}
