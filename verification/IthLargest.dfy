/** Selection by counting, os_day3/ithlargest_fork.c. */
module IthLargest {

  const INT_MIN := -0x8000_0000
  const INT_MAX := 0x7FFF_FFFF

  predicate IsInt(x: int) {
    -0x8000_0000 <= x <= 0x7FFF_FFFF
  }

  /** How many elements are v or more. */
  function AtLeast(s: seq<int>, v: int): (n: nat)
    ensures n <= |s|
  {
    if s == [] then 0 else AtLeast(s[..|s| - 1], v) + if s[|s| - 1] >= v then 1 else 0
  }

  /** How many elements are v. */
  function Equal(s: seq<int>, v: int): nat {
    if s == [] then 0 else Equal(s[..|s| - 1], v) + if s[|s| - 1] == v then 1 else 0
  }

  lemma {:induction false} AtLeastSplit(s: seq<int>, v: int)
    ensures AtLeast(s, v) == AtLeast(s, v + 1) + Equal(s, v)
    ensures Equal(s, v) > 0 ==> v in s
  {
    if s != [] {
      AtLeastSplit(s[..|s| - 1], v);
    }
  }

  lemma {:induction false} AllAtLeast(s: seq<int>, v: int)
    ensures (forall k :: 0 <= k < |s| ==> s[k] >= v) ==> AtLeast(s, v) == |s|
    ensures (forall k :: 0 <= k < |s| ==> s[k] < v) ==> AtLeast(s, v) == 0
  {
    if s != [] {
      AllAtLeast(s[..|s| - 1], v);
    }
  }

  lemma {:induction false} AtLeastJoin(a: seq<int>, b: seq<int>, v: int)
    ensures AtLeast(a + b, v) == AtLeast(a, v) + AtLeast(b, v)
  {
    if b == [] {
      assert a + b == a;
    } else {
      assert (a + b)[..|a + b| - 1] == a + b[..|b| - 1];
      AtLeastJoin(a, b[..|b| - 1], v);
    }
  }

  /** Counting does not depend on the order. */
  lemma {:induction false} AtLeastPermuted(s: seq<int>, t: seq<int>, v: int)
    requires multiset(s) == multiset(t)
    ensures AtLeast(s, v) == AtLeast(t, v)
    decreases |s|
  {
    if s == [] {
      assert |multiset(t)| == 0;
    } else {
      var x := s[|s| - 1];
      assert s == s[..|s| - 1] + [x];
      assert x in multiset(s);
      var k :| 0 <= k < |t| && t[k] == x;
      var rest := t[..k] + t[k + 1..];
      assert t == t[..k] + [x] + t[k + 1..];
      assert multiset(rest) == multiset(t) - multiset{x};
      assert multiset(s[..|s| - 1]) == multiset(s) - multiset{x};
      AtLeastPermuted(s[..|s| - 1], rest, v);
      AtLeastJoin(t[..k], t[k + 1..], v);
      AtLeastJoin(t[..k] + [x], t[k + 1..], v);
      AtLeastJoin(t[..k], [x], v);
      assert AtLeast([x], v) == AtLeast([], v) + if x >= v then 1 else 0;
    }
  }

  ghost predicate Descending(s: seq<int>) {
    forall i, j :: 0 <= i < j < |s| ==> s[i] >= s[j]
  }

  /** r is the i-th largest: fewer than i elements are larger, at least i are as large. */
  ghost predicate IsIthLargest(s: seq<int>, i: int, r: int) {
    r in s && AtLeast(s, r + 1) < i <= AtLeast(s, r)
  }

  /** That is the element at index i - 1 of any descending arrangement of s. */
  lemma IthOfSorted(s: seq<int>, sorted: seq<int>, i: int, r: int)
    requires IsIthLargest(s, i, r) && multiset(sorted) == multiset(s) && Descending(sorted)
    ensures 1 <= i <= |sorted| && sorted[i - 1] == r
  {
    AtLeastPermuted(sorted, s, r);
    AtLeastPermuted(sorted, s, r + 1);
    assert sorted == sorted[..i - 1] + [sorted[i - 1]] + sorted[i..];
    forall v
      ensures AtLeast(sorted, v) == AtLeast(sorted[..i - 1], v) + (if sorted[i - 1] >= v then 1 else 0) + AtLeast(sorted[i..], v)
    {
      AtLeastJoin(sorted[..i - 1], [sorted[i - 1]], v);
      AtLeastJoin(sorted[..i - 1] + [sorted[i - 1]], sorted[i..], v);
      assert AtLeast([sorted[i - 1]], v) == AtLeast([], v) + if sorted[i - 1] >= v then 1 else 0;
    }
    if sorted[i - 1] > r {
      AllAtLeast(sorted[..i - 1], r + 1);
    } else if sorted[i - 1] < r {
      AllAtLeast(sorted[i..], r);
    }
  }

  /** The value range, by one pass over the elements. */
  method Range(arr: array<int>) returns (min: int, max: int)
    requires arr.Length >= 1 && forall k :: 0 <= k < arr.Length ==> IsInt(arr[k])
    ensures forall k :: 0 <= k < arr.Length ==> min <= arr[k] <= max
    ensures min in arr[..] && max in arr[..]
  {
    max := INT_MIN;
    min := INT_MAX;
    var j := 0;
    while j < arr.Length
      invariant 0 <= j <= arr.Length
      invariant forall k :: 0 <= k < j ==> min <= arr[k] <= max
      invariant j > 0 ==> min in arr[..j] && max in arr[..j]
      invariant j == 0 ==> max == INT_MIN && min == INT_MAX
    {
      if arr[j] > max {
        max := arr[j];
      }
      if arr[j] < min {
        min := arr[j];
      }
      assert arr[..j + 1] == arr[..j] + [arr[j]];
      j := j + 1;
    }
    assert arr[..j] == arr[..];
  }

  /** One counter per value from min on. */
  method Tally(arr: array<int>, min: int, range: nat) returns (count: array<nat>)
    requires forall k :: 0 <= k < arr.Length ==> min <= arr[k] < min + range
    ensures fresh(count) && count.Length == range
    ensures forall v :: 0 <= v < range ==> count[v] == Equal(arr[..], min + v)
  {
    count := new nat[range](_ => 0);
    var j := 0;
    while j < arr.Length
      invariant 0 <= j <= arr.Length
      invariant forall v :: 0 <= v < range ==> count[v] == Equal(arr[..j], min + v)
    {
      assert arr[..j + 1][..j] == arr[..j];
      count[arr[j] - min] := count[arr[j] - min] + 1;
      j := j + 1;
    }
    assert arr[..j] == arr[..];
  }

  /** Walks down the values and stops at the first one reached by i elements; -1 only if there are fewer than i. */
  method FindIthLargest(arr: array<int>, i: int) returns (r: int)
    requires arr.Length >= 1 && forall k :: 0 <= k < arr.Length ==> IsInt(arr[k])
    requires forall j, k :: 0 <= j < arr.Length && 0 <= k < arr.Length ==> arr[j] - arr[k] < 0x7FFF_FFFF
    ensures 1 <= i <= arr.Length ==> IsIthLargest(arr[..], i, r)
    ensures i > arr.Length ==> r == -1
    ensures i < 1 ==> r in arr[..] && forall k :: 0 <= k < arr.Length ==> arr[k] <= r
  {
    var min, max := Range(arr);
    var range := max - min + 1;
    var count := Tally(arr, min, range);
    var total := 0;
    AllAtLeast(arr[..], max + 1);
    var j := range - 1;
    while j >= 0
      invariant -1 <= j < range
      invariant total == AtLeast(arr[..], min + j + 1)
      invariant i >= 1 ==> total < i
      invariant i < 1 ==> j == range - 1
      invariant forall v :: 0 <= v < range ==> count[v] == Equal(arr[..], min + v)
    {
      AtLeastSplit(arr[..], min + j);
      total := total + count[j];
      if total >= i {
        return j + min;
      }
      j := j - 1;
    }
    AllAtLeast(arr[..], min);
    return -1;
  }
}
