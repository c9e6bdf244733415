/** Paths of os_day9/myfs_adv.c: what strtok(path, "/") yields, and how the last component becomes a name. */
module MyFsPaths {
  import opened Bytes
  import opened MyFsBlocks

  const SLASH: byte := 47

  /** Length of the token at the front of s. */
  function TokenLen(s: cstring): (n: nat)
    ensures n <= |s| && SLASH !in s[..n]
    ensures n < |s| ==> s[n] == SLASH
  {
    if s == [] || s[0] == SLASH then 0 else 1 + TokenLen(s[1..])
  }

  /** The non-empty stretches of s between slashes. */
  function Components(s: cstring): (cs: seq<cstring>)
    ensures forall c :: c in cs ==> c != [] && SLASH !in c
    decreases |s|
  {
    if s == [] then []
    else if s[0] == SLASH then Components(s[1..])
    else [s[..TokenLen(s)]] + Components(s[TokenLen(s)..])
  }

  /** strncpy into path_copy keeps at most MAX_PATH_LEN - 1 characters. */
  function PathCopy(path: cstring): cstring {
    path[..Min(|path|, MAX_PATH_LEN - 1)]
  }

  function PathComponents(path: cstring): seq<cstring> {
    Components(PathCopy(path))
  }

  /** The directories to walk through: all components but the last. */
  function ParentComponents(path: cstring): seq<cstring> {
    var cs := PathComponents(path);
    if cs == [] then [] else cs[..|cs| - 1]
  }

  function LastComponent(path: cstring): cstring {
    var cs := PathComponents(path);
    if cs == [] then [] else cs[|cs| - 1]
  }

  /** A name as it is stored: at most FILENAME_LEN characters of it. */
  function CutName(c: cstring): (name: cstring)
    ensures |name| <= FILENAME_LEN
  {
    c[..Min(|c|, FILENAME_LEN)]
  }

  /** The name to look for in the parent. */
  function BaseName(path: cstring): (name: cstring)
    ensures |name| <= FILENAME_LEN
  {
    CutName(LastComponent(path))
  }

  /** The first 1023 characters of a path count, and no more. */
  lemma PathCut(path: cstring)
    ensures |path| <= 1023 ==> PathComponents(path) == Components(path)
    ensures |path| > 1023 ==> PathComponents(path) == Components(path[..1023])
  {
    if |path| <= 1023 {
      assert path[..|path|] == path;
    }
  }

  /** Nothing has no components; what contains no slash (character 47), however long, is one. */
  lemma OneToken(c: cstring)
    ensures Components([]) == []
    ensures c != [] && 47 !in c ==> Components(c) == [c]
  {
    if c != [] && 47 !in c {
      TokenLenIs(c, |c|);
      assert c[..|c|] == c && c[|c|..] == [];
    }
  }

  /** The name stored: all of a last component of at most 12 characters, the first 12 of a longer one. */
  lemma BaseNameIs(path: cstring)
    ensures PathComponents(path) == [] ==> BaseName(path) == [] && ParentComponents(path) == []
    ensures PathComponents(path) != [] ==>
              var cs := PathComponents(path);
              var c := cs[|cs| - 1];
              && cs == ParentComponents(path) + [c]
              && BaseName(path) == if |c| <= 12 then c else c[..12]
  {
    if PathComponents(path) != [] {
      var cs := PathComponents(path);
      assert cs == cs[..|cs| - 1] + [cs[|cs| - 1]];
    }
  }

  lemma SlashIsRoot()
    ensures ParentComponents([SLASH]) == [] && BaseName([SLASH]) == []
  {
    var path: cstring := [SLASH];
    assert PathCopy(path) == path && path[1..] == [];
    assert Components(path) == Components(path[1..]);
  }

  lemma {:induction false} TokenLenIs(s: cstring, n: nat)
    requires n <= |s| && SLASH !in s[..n] && (n < |s| ==> s[n] == SLASH)
    ensures TokenLen(s) == n
  {
  }

  /** A slash separates: the components of a/b are those of a followed by those of b. */
  lemma {:induction false} ComponentsOfJoin(a: cstring, b: cstring)
    ensures Components(a + [47] + b) == Components(a) + Components(b)
    decreases |a|
  {
    var s: cstring := a + [SLASH] + b;
    if a == [] {
      assert s[1..] == b;
    } else if a[0] == SLASH {
      assert s[1..] == a[1..] + [SLASH] + b;
      ComponentsOfJoin(a[1..], b);
    } else {
      ComponentsOfToken(a, b);
      ComponentsOfJoin(a[TokenLen(a)..], b);
    }
  }

  lemma ComponentsOfToken(a: cstring, b: cstring)
    requires a != [] && a[0] != SLASH
    ensures TokenLen(a) > 0
    ensures Components(a + [SLASH] + b) == [a[..TokenLen(a)]] + Components(a[TokenLen(a)..] + [SLASH] + b)
  {
    var n, s: cstring := TokenLen(a), a + [SLASH] + b;
    assert s[..n] == a[..n] && s[n..] == a[n..] + [SLASH] + b;
    TokenLenIs(s, n);
  }

  /** Repeated, leading and trailing slashes change nothing. */
  lemma SlashesDoNotMatter(a: cstring, b: cstring)
    ensures Components(a + [SLASH] + [SLASH] + b) == Components(a + [SLASH] + b)
    ensures Components([SLASH] + a) == Components(a) == Components(a + [SLASH])
  {
    ComponentsOfJoin(a, b);
    ComponentsOfJoin(a, [SLASH] + b);
    assert a + [SLASH] + [SLASH] + b == a + [SLASH] + ([SLASH] + b);
    assert ([SLASH] + b)[1..] == b;
    assert ([SLASH] + a)[1..] == a;
    ComponentsOfJoin(a, []);
    assert a + [SLASH] + [] == a + [SLASH];
  }

  /** Skipping the delimiters in front of a token skips no component. */
  lemma ComponentsSkip(s: cstring, i: nat)
    requires i < |s| && s[i] == SLASH
    ensures Components(s[i..]) == Components(s[i + 1..])
  {
  }

  /** The token found at i is the first component of the rest, and what follows it holds the others. */
  lemma ComponentsToken(s: cstring, i: nat, j: nat)
    requires i < j <= |s| && (forall k :: i <= k < j ==> s[k] != SLASH) && (j < |s| ==> s[j] == SLASH)
    ensures Components(s[i..]) == [s[i..j]] + Components(s[j..])
  {
    var t: cstring := s[i..];
    assert t[..j - i] == s[i..j];
    assert t[j - i..] == s[j..];
    TokenLenIs(t, j - i);
  }

  method SkipSlashes(s: cstring, from: nat) returns (i: nat)
    requires from <= |s|
    ensures from <= i <= |s| && (i < |s| ==> s[i] != SLASH)
    ensures Components(s[i..]) == Components(s[from..])
  {
    i := from;
    while i < |s| && s[i] == SLASH
      invariant from <= i <= |s|
      invariant Components(s[i..]) == Components(s[from..])
    {
      ComponentsSkip(s, i);
      i := i + 1;
    }
  }

  method SkipToken(s: cstring, from: nat) returns (next: nat)
    requires from < |s| && s[from] != SLASH
    ensures from < next <= |s| && (next < |s| ==> s[next] == SLASH)
    ensures forall k :: from <= k < next ==> s[k] != SLASH
  {
    next := from;
    while next < |s| && s[next] != SLASH
      invariant from <= next <= |s|
      invariant forall k :: from <= k < next ==> s[k] != SLASH
    {
      next := next + 1;
    }
  }

  /** strtok(s, "/") continuing at position from: the next token, and where the scan after it goes on. */
  method Strtok(s: cstring, from: nat) returns (token: Option<cstring>, next: nat)
    requires from <= |s|
    ensures from <= next <= |s|
    ensures token.None? <==> Components(s[from..]) == []
    ensures token.Some? ==> from < next && Components(s[from..]) == [token.value] + Components(s[next..])
  {
    var i := SkipSlashes(s, from);
    if i == |s| {
      return None, i;
    }
    next := SkipToken(s, i);
    ComponentsToken(s, i, next);
    token := Some(s[i..next]);
  }
}
