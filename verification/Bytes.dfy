/** Bytes, fixed-width big-endian integers and Go's unsigned-to-signed conversion. */
module Bytes {

  type byte = b: int | 0 <= b < 256
  type uint32 = x: int | 0 <= x < 0x1_0000_0000
  type uint64 = x: int | 0 <= x < 0x1_0000_0000_0000_0000
  type int64 = x: int | -0x8000_0000_0000_0000 <= x < 0x8000_0000_0000_0000

  const TWO16: int := 0x1_0000
  const TWO32: int := 0x1_0000_0000
  const TWO63: int := 0x8000_0000_0000_0000
  const TWO64: int := 0x1_0000_0000_0000_0000

  /** The number of values a `w`-byte unsigned integer can take. */
  function Pow256(w: nat): (p: nat)
    ensures p > 0
  {
    if w == 0 then 1 else 256 * Pow256(w - 1)
  }

  lemma Pow256Widths()
    ensures Pow256(2) == TWO16 && Pow256(4) == TWO32 && Pow256(8) == TWO64
  {
    assert Pow256(4) == 256 * (256 * Pow256(2));
    assert Pow256(6) == 256 * (256 * Pow256(4));
    assert Pow256(8) == 256 * (256 * Pow256(6));
  }

  /** The `w` low-order bytes of `n`, most significant first (`binary.BigEndian.PutUintN` of a truncated value). */
  function Big(n: nat, w: nat): (s: seq<byte>)
    ensures |s| == w
  {
    if w == 0 then [] else Big(n / 256, w - 1) + [n % 256]
  }

  /** The number written in `s`, most significant byte first (`binary.BigEndian.UintN`). */
  function Value(s: seq<byte>): nat
  {
    if s == [] then 0 else 256 * Value(s[..|s| - 1]) + s[|s| - 1]
  }

  /** The `w`-byte integer found at `from`. */
  function Uint(s: seq<byte>, from: nat, w: nat): nat
    requires from + w <= |s|
  {
    Value(s[from..from + w])
  }

  lemma {:induction false} ValueBound(s: seq<byte>)
    ensures Value(s) < Pow256(|s|)
  {
    if s != [] {
      ValueBound(s[..|s| - 1]);
    }
  }

  /** Writing and reading back keeps a number exactly when it fits the width. */
  lemma {:induction false} BigRoundTrip(n: nat, w: nat)
    ensures Value(Big(n, w)) == n <==> n < Pow256(w)
  {
    ValueBound(Big(n, w));
    if w > 0 {
      var s := Big(n, w);
      assert s[..w - 1] == Big(n / 256, w - 1);
      BigRoundTrip(n / 256, w - 1);
    }
  }

  /** Every byte string is the encoding of the number it spells. */
  lemma {:induction false} ValueRoundTrip(s: seq<byte>)
    ensures Big(Value(s), |s|) == s
  {
    if s != [] {
      var front := s[..|s| - 1];
      ValueRoundTrip(front);
      assert Value(s) / 256 == Value(front) && Value(s) % 256 == s[|s| - 1];
      assert s == front + [s[|s| - 1]];
    }
  }

  /** The first byte is the most significant one. */
  lemma {:induction false} BigEndian(s: seq<byte>)
    requires s != []
    ensures Value(s) == s[0] * Pow256(|s| - 1) + Value(s[1..])
  {
    if |s| == 1 {
      assert s[..0] == [] && s[1..] == [];
    } else {
      var n := |s| - 1;
      BigEndian(s[..n]);
      assert s[..n][1..] == s[1..][..n - 1];
      assert s[0] * Pow256(n) == 256 * (s[0] * Pow256(n - 1));
    }
  }

  /** Go's `uint64(x)` of a signed 64-bit `x`. */
  function Unsigned64(x: int64): (u: uint64)
    ensures Signed64(u) == x
  {
    if x < 0 then x + TWO64 else x
  }

  /** Go's `int64(u)` of an unsigned 64-bit `u`. */
  function Signed64(u: uint64): (x: int64)
  {
    if u < TWO63 then u else u - TWO64
  }

  lemma SignedRoundTrip(u: uint64)
    ensures Unsigned64(Signed64(u)) == u
  {
  }

  lemma SliceOfSlice(s: seq<byte>, i: nat, j: nat, a: nat, b: nat)
    requires i <= j <= |s| && a <= b <= j - i
    ensures s[i..j][a..b] == s[i + a..i + b]
  {
    assert forall k :: 0 <= k < b - a ==> s[i..j][a..b][k] == s[i..j][a + k] == s[i + a..i + b][k];
  }

  lemma Regroup<T>(a: seq<T>, b: seq<T>, c: seq<T>)
    ensures (a + b) + c == a + (b + c)
  {
  }
}
