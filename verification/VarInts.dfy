/**
 Variable-length integers and length-prefixed byte strings (common.go), as a pure
 parser and printer.
 */
module VarInts {
  import opened Bytes
  import opened Parsing

  function EncVarInt(v: nat): (r: bytes)
    ensures 1 <= |r| <= 9
  {
    if v < 0xfd then [v]
    else if v <= 0xffff then [0xfd] + LE(2, v)
    else if v <= 0xffff_ffff then [0xfe] + LE(4, v)
    else [0xff] + LE(8, v)
  }

  // The payload of a multi-byte form: n bytes whose value must be at least least.
  function TakeWide(s: bytes, p: nat, n: nat, least: nat): (r: Parsed<nat>)
    ensures Bounded(r, s, p)
    ensures r.Ok? ==> least <= r.value < Pow256(n)
  {
    match TakeUint(s, p, n)
    case Fail(e, q) => Fail(e, q)
    case Ok(v, q) => if v < least then Fail(NonCanonicalVarInt, q) else Ok(v, q)
  }

  function TakeVarInt(s: bytes, p: nat): (r: Parsed<uint64>)
    ensures Bounded(r, s, p)
  {
    Pow256Values();
    match TakeUint(s, p, 1)
    case Fail(e, q) => Fail(e, q)
    case Ok(d, q) =>
      if d == 0xff then TakeWide(s, q, 8, 0x1_0000_0000)
      else if d == 0xfe then TakeWide(s, q, 4, 0x1_0000)
      else if d == 0xfd then TakeWide(s, q, 2, 0xfd)
      else Ok(d, q)
  }

  lemma TakeWideIff(s: bytes, p: nat, n: nat, least: nat, v: nat, q: nat)
    requires p <= |s|
    ensures TakeWide(s, p, n, least) == Ok(v, q)
       <==> least <= v < Pow256(n) && Has(s, p, LE(n, v)) && q == p + n
  {
    TakeUintIff(s, p, n, v, q);
  }

  lemma DiscriminantIff(s: bytes, p: nat, d: byte, q: nat)
    requires p <= |s|
    ensures TakeUint(s, p, 1) == Ok(d, q) <==> Has(s, p, [d]) && q == p + 1
  {
    Pow256Values();
    TakeUintIff(s, p, 1, d, q);
    assert LE(1, d) == [d] + LE(0, d / 256);
  }

  lemma TakeVarIntSound(s: bytes, p: nat)
    requires p <= |s|
    requires TakeVarInt(s, p).Ok?
    ensures Has(s, p, EncVarInt(TakeVarInt(s, p).value))
    ensures TakeVarInt(s, p).next == p + |EncVarInt(TakeVarInt(s, p).value)|
  {
    Pow256Values();
    var Ok(d, q) := TakeUint(s, p, 1);
    DiscriminantIff(s, p, d, q);
    var v := TakeVarInt(s, p).value;
    var n := if d == 0xff then 8 else if d == 0xfe then 4 else 2;
    if d >= 0xfd {
      var least := if d == 0xff then 0x1_0000_0000 else if d == 0xfe then 0x1_0000 else 0xfd;
      TakeWideIff(s, q, n, least, v, q + n);
      HasConcat(s, p, [d], LE(n, v));
    }
  }

  lemma TakeVarIntComplete(s: bytes, p: nat, v: uint64)
    requires Has(s, p, EncVarInt(v))
    ensures TakeVarInt(s, p) == Ok(v, p + |EncVarInt(v)|)
  {
    Pow256Values();
    var d := EncVarInt(v)[0];
    var n := if d == 0xff then 8 else if d == 0xfe then 4 else 2;
    if v >= 0xfd {
      var least := if d == 0xff then 0x1_0000_0000 else if d == 0xfe then 0x1_0000 else 0xfd;
      HasConcat(s, p, [d], LE(n, v));
      TakeWideIff(s, p + 1, n, least, v, p + 1 + n);
    }
    DiscriminantIff(s, p, d, p + 1);
  }

  // Reading accepts exactly the shortest form of each uint64, whatever follows it.
  lemma TakeVarIntIff(s: bytes, p: nat, v: uint64, q: nat)
    requires p <= |s|
    ensures TakeVarInt(s, p) == Ok(v, q) <==> Has(s, p, EncVarInt(v)) && q == p + |EncVarInt(v)|
  {
    if TakeVarInt(s, p).Ok? {
      TakeVarIntSound(s, p);
    }
    if Has(s, p, EncVarInt(v)) {
      TakeVarIntComplete(s, p, v);
    }
  }

  lemma TakeVarIntShift(s: bytes, a: nat, p: nat)
    requires a <= |s|
    ensures TakeVarInt(s, a + p) == TakeVarInt(s[a..], p).Shift(a)
  {
    hide TakeUint;
    TakeUintShift(s, a, p, 1);
    TakeUintShift(s, a, p + 1, 8);
    TakeUintShift(s, a, p + 1, 4);
    TakeUintShift(s, a, p + 1, 2);
  }

  // No encoding is a prefix of the encoding of another value.
  lemma VarIntPrefixFree(u: uint64, v: uint64, t: bytes)
    requires EncVarInt(u) <= EncVarInt(v) + t
    ensures u == v
  {
    var s := EncVarInt(v) + t;
    assert Has(s, 0, EncVarInt(u)) && Has(s, 0, EncVarInt(v));
    TakeVarIntComplete(s, 0, u);
    TakeVarIntComplete(s, 0, v);
  }

  // No other accepted byte string denotes v, and none is shorter.
  lemma VarIntShortestForm(b: bytes, v: uint64)
    requires TakeVarInt(b, 0) == Ok(v, |b|)
    ensures b == EncVarInt(v)
    ensures v < 0xfd ==> |b| == 1
    ensures 0xfd <= v <= 0xffff ==> |b| == 3
    ensures 0xffff < v <= 0xffff_ffff ==> |b| == 5
    ensures 0xffff_ffff < v ==> |b| == 9
  {
    TakeVarIntSound(b, 0);
    assert b[0..|b|] == b;
  }

  // ---------- Length-prefixed byte strings ----------

  function EncVarBytes(b: bytes): (r: bytes)
    ensures |r| == |EncVarInt(|b|)| + |b|
  {
    EncVarInt(|b|) + b
  }

  // A length above max is refused with the error kind tooLong before any byte is read.
  function TakeVarBytes(s: bytes, p: nat, max: uint64, tooLong: Error): (r: Parsed<bytes>)
    ensures Bounded(r, s, p)
    ensures r.Ok? ==> |r.value| <= max
  {
    match TakeVarInt(s, p)
    case Fail(e, q) => Fail(e, q)
    case Ok(n, q) => if n > max then Fail(tooLong, q) else TakeN(s, q, n)
  }

  lemma TakeVarBytesIff(s: bytes, p: nat, max: uint64, tooLong: Error, b: bytes, q: nat)
    requires p <= |s|
    ensures TakeVarBytes(s, p, max, tooLong) == Ok(b, q)
       <==> |b| <= max && Has(s, p, EncVarBytes(b)) && q == p + |EncVarBytes(b)|
  {
    hide Has, TakeVarInt, TakeN, EncVarInt;
    HasConcat(s, p, EncVarInt(|b|), b);
    if TakeVarInt(s, p).Ok? {
      var Ok(n, t) := TakeVarInt(s, p);
      TakeVarIntSound(s, p);
      TakeNIff(s, t, n, b, q);
    }
    if |b| <= max && Has(s, p, EncVarBytes(b)) {
      TakeVarIntComplete(s, p, |b|);
    }
  }

  lemma TakeVarBytesShift(s: bytes, a: nat, p: nat, max: uint64, tooLong: Error)
    requires a <= |s|
    ensures TakeVarBytes(s, a + p, max, tooLong) == TakeVarBytes(s[a..], p, max, tooLong).Shift(a)
  {
    hide TakeVarInt, TakeN;
    TakeVarIntShift(s, a, p);
    var r := TakeVarInt(s[a..], p);
    if r.Ok? {
      TakeNShift(s, a, r.next, r.value);
    }
  }
}
