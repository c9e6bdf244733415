/** Bytes, NUL-terminated names and little-endian words, as the C programs lay them out. */
module Bytes {

  datatype Option<+T> = None | Some(value: T)

  type byte = b: int | 0 <= b < 256

  /** A C string without its terminating NUL. */
  type cstring = s: seq<byte> | 0 !in s

  const WORD := 0x1_0000_0000

  function Zeros(n: nat): (z: seq<byte>)
    ensures |z| == n && forall i :: 0 <= i < n ==> z[i] == 0
  {
    seq(n, _ => 0)
  }

  function Indices(n: nat): (r: set<nat>)
    ensures forall i :: i in r <==> 0 <= i < n
    ensures |r| == n
  {
    if n == 0 then {} else Indices(n - 1) + {n - 1}
  }

  function Min(a: int, b: int): int {
    if a <= b then a else b
  }

  /** What strcmp sees of a char array: everything before the first NUL. */
  function CStr(field: seq<byte>): (s: cstring)
    ensures |s| <= |field| && s == field[..|s|]
    ensures |s| < |field| ==> field[|s|] == 0
  {
    if field == [] || field[0] == 0 then [] else [field[0]] + CStr(field[1..])
  }

  /** strncpy(dst, name, n) for a name that fits: the name, then NULs up to n. */
  function Pad(name: cstring, n: nat): (field: seq<byte>)
    requires |name| <= n
    ensures |field| == n && field[..|name|] == name && forall i :: |name| <= i < n ==> field[i] == 0
  {
    name + Zeros(n - |name|)
  }

  /** A padded name is read back unchanged, whether or not a NUL was left over. */
  lemma {:induction false} CStrOfPad(name: cstring, n: nat)
    requires |name| <= n
    ensures CStr(Pad(name, n)) == name
  {
    if name == [] {
    } else {
      var rest: cstring := name[1..];
      CStrOfPad(rest, n - 1);
      assert Pad(name, n)[1..] == Pad(rest, n - 1);
    }
  }

  /** Reading stops at a NUL. */
  lemma {:induction false} CStrStops(field: seq<byte>, k: nat)
    requires k < |field| && field[k] == 0
    ensures |CStr(field)| <= k
  {
    if k > 0 && field[0] != 0 {
      CStrStops(field[1..], k - 1);
    }
  }

  /** A field without a NUL is read on into what follows it. */
  lemma {:induction false} CStrJoin(field: seq<byte>, tail: seq<byte>)
    ensures CStr(field + tail) == if |CStr(field)| < |field| then CStr(field) else field + CStr(tail)
  {
    if field == [] {
      assert field + tail == tail;
    } else if field[0] != 0 {
      CStrJoin(field[1..], tail);
      assert (field + tail)[1..] == field[1..] + tail;
    }
  }

  /** The four low bytes of x, least significant first. */
  function EncodeWord(x: int): (w: seq<byte>)
    ensures |w| == 4
  {
    [x % 256, x / 0x100 % 256, x / 0x1_0000 % 256, x / 0x100_0000 % 256]
  }

  function DecodeWord(w: seq<byte>): (x: int)
    requires |w| == 4
    ensures 0 <= x < WORD
  {
    var b0: int, b1: int, b2: int, b3: int := w[0], w[1], w[2], w[3];
    b0 + 0x100 * b1 + 0x1_0000 * b2 + 0x100_0000 * b3
  }

  lemma DecodeEncodeWord(x: int)
    requires 0 <= x < WORD
    ensures DecodeWord(EncodeWord(x)) == x
  {
    var y := x / 0x100;
    var z := y / 0x100;
    assert x / 0x1_0000 == z;
    assert x / 0x100_0000 == z / 0x100;
  }

  /** Least significant first: what the four bytes weigh. */
  lemma WordBytes(x: int)
    requires 0 <= x < 0x1_0000_0000
    ensures var w := EncodeWord(x);
            w[0] as int + 256 * w[1] as int + 65536 * w[2] as int + 16777216 * w[3] as int == x
  {
    DecodeEncodeWord(x);
  }

  lemma EncodeDecodeWord(w: seq<byte>)
    requires |w| == 4
    ensures EncodeWord(DecodeWord(w)) == w
  {
    var b0: int, b1: int, b2: int, b3: int := w[0], w[1], w[2], w[3];
    var x := DecodeWord(w);
    assert x / 0x100 == b1 + 0x100 * b2 + 0x1_0000 * b3;
    assert x / 0x1_0000 == b2 + 0x100 * b3;
    assert x / 0x100_0000 == b3;
  }

  /** The entries of s in the opposite order. */
  function Reverse<T>(s: seq<T>): (r: seq<T>)
    ensures |r| == |s|
    ensures forall i :: 0 <= i < |s| ==> r[i] == s[|s| - 1 - i]
  {
    if s == [] then [] else Reverse(s[1..]) + [s[0]]
  }
}
