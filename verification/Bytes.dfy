/**
 Bytes, fixed-width integers and their little-endian form.

 Integers are mathematical; the widths of the wire format are subset types, and
 `LE` truncates to its width, as a Go conversion to an unsigned type does.
 */
module Bytes {

  type byte = b: int | 0 <= b < 256
  type bytes = seq<byte>

  const TWO31: int := 0x8000_0000
  const TWO32: int := 0x1_0000_0000
  const TWO63: int := 0x8000_0000_0000_0000
  const TWO64: int := 0x1_0000_0000_0000_0000

  type uint16 = n: int | 0 <= n < 0x1_0000
  type uint32 = n: int | 0 <= n < 0x1_0000_0000
  type uint64 = n: int | 0 <= n < 0x1_0000_0000_0000_0000
  type int32 = n: int | -0x8000_0000 <= n < 0x8000_0000
  type int64 = n: int | -0x8000_0000_0000_0000 <= n < 0x8000_0000_0000_0000

  // A 32-byte hash, as chainhash.Hash.
  type Hash = h: bytes | |h| == 32 witness seq(32, _ => 0)

  // Two's complement conversions between the signed fields and their wire form.
  function AsInt32(u: uint32): int32 { if u < TWO31 then u else u - TWO32 }
  function AsUint32(i: int32): uint32 { if 0 <= i then i else i + TWO32 }
  function AsInt64(u: uint64): int64 { if u < TWO63 then u else u - TWO64 }
  function AsUint64(i: int64): uint64 { if 0 <= i then i else i + TWO64 }

  function Zeros(n: nat): (z: bytes)
    ensures |z| == n
    ensures forall i :: 0 <= i < n ==> z[i] == 0
  {
    seq(n, _ => 0)
  }

  // ---------- Little-endian integers ----------

  function Pow256(n: nat): (r: nat)
    ensures r >= 1
  {
    if n == 0 then 1 else 256 * Pow256(n - 1)
  }

  // The n low-order bytes of v, least significant first.
  function LE(n: nat, v: nat): (r: bytes)
    ensures |r| == n
  {
    if n == 0 then [] else [v % 256] + LE(n - 1, v / 256)
  }

  function FromLE(b: bytes): (v: nat)
    ensures v < Pow256(|b|)
  {
    if b == [] then 0 else b[0] + 256 * FromLE(b[1..])
  }

  lemma Pow256Values()
    ensures Pow256(1) == 256
    ensures Pow256(2) == 0x1_0000
    ensures Pow256(4) == TWO32
    ensures Pow256(8) == TWO64
  {
    assert Pow256(2) == 256 * Pow256(1);
    assert Pow256(3) == 256 * Pow256(2);
    assert Pow256(4) == 256 * Pow256(3);
    assert Pow256(5) == 256 * Pow256(4);
    assert Pow256(6) == 256 * Pow256(5);
    assert Pow256(7) == 256 * Pow256(6);
  }

  lemma {:induction false} FromLEOfLE(n: nat, v: nat)
    requires v < Pow256(n)
    ensures FromLE(LE(n, v)) == v
  {
    if n > 0 {
      FromLEOfLE(n - 1, v / 256);
      assert LE(n, v)[1..] == LE(n - 1, v / 256);
    }
  }

  lemma {:induction false} LEOfFromLE(b: bytes)
    ensures LE(|b|, FromLE(b)) == b
  {
    if b != [] {
      LEOfFromLE(b[1..]);
      assert b == [b[0]] + b[1..];
    }
  }

  // ---------- Occurrences inside a stream ----------

  // The bytes e stand in s at position p.
  predicate Has(s: bytes, p: nat, e: bytes) {
    p + |e| <= |s| && s[p..p + |e|] == e
  }

  lemma HasConcat(s: bytes, p: nat, a: bytes, b: bytes)
    ensures Has(s, p, a + b) <==> Has(s, p, a) && Has(s, p + |a|, b)
  {
    if p + |a| + |b| <= |s| {
      var t := s[p..p + |a| + |b|];
      assert t == s[p..p + |a|] + s[p + |a|..p + |a| + |b|];
      if t == a + b {
        assert t[..|a|] == a && t[|a|..] == b;
      }
    }
  }

  lemma HasWhole(a: bytes, e: bytes, b: bytes)
    ensures Has(a + e + b, |a|, e)
  {
    assert (a + e + b)[|a|..|a| + |e|] == e;
  }

  lemma HasWithin(s: bytes, p: nat, e: bytes)
    requires Has(s, p, e)
    ensures p + |e| <= |s|
  {
  }

  lemma HasEmpty(s: bytes, p: nat)
    requires p <= |s|
    ensures Has(s, p, [])
  {
  }
}
