/** Bytes and the little-endian integer encodings the protocol uses. */
module Bytes {

  type uint8 = x: int | 0 <= x < 0x100
  type Bytes = seq<uint8>

  type int8 = x: int | -0x80 <= x < 0x80
  type int16 = x: int | -0x8000 <= x < 0x8000
  type int32 = x: int | -0x8000_0000 <= x < 0x8000_0000
  type uint64 = x: int | 0 <= x < 0x1_0000_0000_0000_0000

  function Pow256(n: nat): (p: nat)
    ensures p > 0
  {
    if n == 0 then 1 else 256 * Pow256(n - 1)
  }

  lemma Pow256Values()
    ensures Pow256(1) == 0x100 && Pow256(2) == 0x1_0000
    ensures Pow256(4) == 0x1_0000_0000 && Pow256(8) == 0x1_0000_0000_0000_0000
  {
    assert Pow256(2) == 0x1_0000;
    assert Pow256(4) == 0x1_0000_0000;
  }

  /** The unsigned little-endian value of a byte string. */
  function UIntLE(s: Bytes): (v: nat)
    ensures v < Pow256(|s|)
  {
    if s == [] then 0 else s[0] + 256 * UIntLE(s[1..])
  }

  /** The two's complement reading of an n-byte unsigned value. */
  function ToSigned(u: int, n: nat): int
    requires n > 0
  {
    if u >= Pow256(n) / 2 then u - Pow256(n) else u
  }

  /** The n low bytes of v, least significant first. */
  function UIntLEBytes(v: nat, n: nat): (s: Bytes)
    ensures |s| == n
  {
    if n == 0 then [] else [v % 256] + UIntLEBytes(v / 256, n - 1)
  }

  /** The n-byte two's complement encoding of v, least significant first. */
  function IntLEBytes(v: int, n: nat): (s: Bytes)
    ensures |s| == n
  {
    UIntLEBytes(v % Pow256(n), n)
  }

  lemma {:induction false} UIntLERoundTrip(v: nat, n: nat)
    requires v < Pow256(n)
    ensures UIntLE(UIntLEBytes(v, n)) == v
  {
    if n > 0 {
      assert v / 256 < Pow256(n - 1);
      UIntLERoundTrip(v / 256, n - 1);
    }
  }

  lemma ModInRange(v: int, p: int)
    requires p > 0 && -p <= v < p
    ensures v % p == (if v < 0 then v + p else v)
  {
    if v < 0 {
      assert v == -1 * p + (v + p);
    }
  }

  /** Decoding a two's complement encoding gives the value back, for every value the width can hold. */
  lemma IntLERoundTrip(v: int, n: nat)
    requires n > 0
    requires -(Pow256(n) / 2) <= v < Pow256(n) / 2
    ensures ToSigned(UIntLE(IntLEBytes(v, n)), n) == v
  {
    var p := Pow256(n);
    assert p == 256 * Pow256(n - 1);
    ModInRange(v, p);
    var u := v % p;
    UIntLERoundTrip(u, n);
    assert UIntLE(IntLEBytes(v, n)) == u;
  }

  /** The other direction: a byte string is the encoding of its own value. */
  lemma {:induction false} UIntLEBytesOfUIntLE(s: Bytes)
    ensures UIntLEBytes(UIntLE(s), |s|) == s
  {
    if s != [] {
      var rest := UIntLE(s[1..]);
      var v := s[0] + 256 * rest;
      assert v % 256 == s[0] && v / 256 == rest;
      UIntLEBytesOfUIntLE(s[1..]);
      assert s == [s[0]] + s[1..];
    }
  }
}
