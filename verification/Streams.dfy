/**
 Readers. A Stream is an underlying io.Reader: its bytes and how far it has been
 read. A Source is what decoders read from: a Stream, possibly behind an
 io.LimitedReader, possibly teed into a hasher. Reads of io.ReadFull are atomic;
 a short read happens only at the end of the data.
 */
module Streams {
  import opened Bytes
  import opened Parsing
  import opened VarInts

  class Stream {
    const data: bytes
    var pos: nat

    constructor (data: bytes)
      ensures this.data == data && pos == 0
    {
      this.data := data;
      pos := 0;
    }
  }

  lemma SliceOfPrefix(s: bytes, e: nat, p: nat, q: nat)
    requires p <= q <= e <= |s|
    ensures s[..e][p..q] == s[p..q]
  {
  }

  function Min(a: nat, b: nat): nat { if a <= b then a else b }

  class Source {
    const base: Stream
    const limited: bool // an io.LimitedReader is in between
    const bound: nat    // its initial N
    const tee: bool     // bytes read also go to the hasher
    const start: nat    // position of the base when the chain was built
    var n: int          // the N left
    var hashed: bytes   // what the hasher has been given

    ghost function End(): nat {
      if limited then Min(|base.data|, start + bound) else |base.data|
    }

    // All that can ever be read through this source, in place.
    ghost function View(): bytes { base.data[..End()] }

    ghost predicate Valid()
      reads this, base
    {
      && start <= base.pos <= End()
      && (limited ==> n == start + bound - base.pos)
      && (tee ==> hashed == base.data[start..base.pos])
    }

    // A bytes.Buffer or bytes.Reader: neither limit nor tee.
    constructor Plain(base: Stream)
      requires base.pos <= |base.data|
      ensures this.base == base && start == base.pos && !limited && !tee
      ensures Valid()
    {
      this.base := base;
      limited, bound, tee, start, n, hashed := false, 0, false, base.pos, 0, [];
    }

    constructor Limited(base: Stream, bound: nat, tee: bool)
      requires base.pos <= |base.data|
      ensures this.base == base && start == base.pos
      ensures limited && this.bound == bound && this.tee == tee
      ensures Valid()
    {
      this.base := base;
      this.bound := bound;
      this.tee := tee;
      limited, start, n, hashed := true, base.pos, bound, [];
    }

    // What repeated Read calls yield for a buffer of k bytes: all k, or all that is left.
    method Fetch(k: nat) returns (got: bytes)
      requires Valid()
      modifies this, base
      ensures Valid()
      ensures base.pos == old(base.pos) + Min(k, End() - old(base.pos))
      ensures got == View()[old(base.pos)..base.pos]
    {
      var avail := |base.data| - base.pos;
      if limited && n < avail {
        avail := n;
      }
      var m := Min(k, avail);
      got := base.data[base.pos..base.pos + m];
      assert base.pos + m <= End();
      SliceOfPrefix(base.data, End(), base.pos, base.pos + m);
      assert base.data[start..base.pos] + got == base.data[start..base.pos + m];
      if limited {
        n := n - m;
      }
      if tee {
        hashed := hashed + got;
      }
      base.pos := base.pos + m;
    }

    // io.ReadFull into a buffer of k bytes.
    method ReadFull(k: nat) returns (r: Parsed<bytes>)
      requires Valid()
      modifies this, base
      ensures Valid()
      ensures r == TakeN(View(), old(base.pos), k) && base.pos == r.next
    {
      var got := Fetch(k);
      if |got| == k {
        return Ok(got, base.pos);
      }
      if |got| == 0 {
        return Fail(Eof, base.pos);
      }
      return Fail(UnexpectedEof, base.pos);
    }

    // What is left to read, without reading it.
    method Peek() returns (rest: bytes)
      requires Valid()
      ensures rest == View()[base.pos..]
    {
      var end := if limited then Min(|base.data|, start + bound) else |base.data|;
      rest := base.data[base.pos..end];
      SliceOfPrefix(base.data, end, base.pos, end);
    }

    // The bytes left in a buffer.
    function Len(): (n: nat)
      requires Valid() && !limited
      reads this, base
      ensures n == |View()| - base.pos
    {
      |base.data| - base.pos
    }

    // io.Copy to io.Discard through the tee.
    method Drain()
      requires Valid()
      modifies this, base
      ensures Valid()
      ensures base.pos == End()
    {
      var avail := |base.data| - base.pos;
      if limited && n < avail {
        avail := n;
      }
      var _ := Fetch(avail);
    }

    // io.Copy to io.Discard from the limited reader itself, past the tee.
    method DrainUnderTee()
      requires Valid()
      modifies this, base
      ensures base.pos == End() && hashed == old(hashed)
    {
      var avail := |base.data| - base.pos;
      if limited && n < avail {
        avail := n;
      }
      if limited {
        n := n - avail;
      }
      base.pos := base.pos + avail;
    }
  }

  // ---------- Primitive reads (common.go) ----------

  method ReadUint(src: Source, k: nat) returns (r: Parsed<nat>)
    requires src.Valid()
    modifies src, src.base
    ensures src.Valid()
    ensures r == TakeUint(src.View(), old(src.base.pos), k) && src.base.pos == r.next
  {
    var b := src.ReadFull(k);
    match b
    case Fail(e, q) => r := Fail(e, q);
    case Ok(v, q) => r := Ok(FromLE(v), q);
  }

  method ReadU32(src: Source) returns (r: Parsed<uint32>)
    requires src.Valid()
    modifies src, src.base
    ensures src.Valid()
    ensures r == TakeU32(src.View(), old(src.base.pos)) && src.base.pos == r.next
  {
    Pow256Values();
    var u := ReadUint(src, 4);
    match u
    case Fail(e, q) => r := Fail(e, q);
    case Ok(v, q) => r := Ok(v, q);
  }

  method ReadU64(src: Source) returns (r: Parsed<uint64>)
    requires src.Valid()
    modifies src, src.base
    ensures src.Valid()
    ensures r == TakeU64(src.View(), old(src.base.pos)) && src.base.pos == r.next
  {
    Pow256Values();
    var u := ReadUint(src, 8);
    match u
    case Fail(e, q) => r := Fail(e, q);
    case Ok(v, q) => r := Ok(v, q);
  }

  method ReadHash(src: Source) returns (r: Parsed<Hash>)
    requires src.Valid()
    modifies src, src.base
    ensures src.Valid()
    ensures r == TakeHash(src.View(), old(src.base.pos)) && src.base.pos == r.next
  {
    var u := src.ReadFull(32);
    match u
    case Fail(e, q) => r := Fail(e, q);
    case Ok(v, q) => r := Ok(v, q);
  }

  method ReadVarInt(src: Source) returns (r: Parsed<uint64>)
    requires src.Valid()
    modifies src, src.base
    ensures src.Valid()
    ensures r == TakeVarInt(src.View(), old(src.base.pos)) && src.base.pos == r.next
  {
    hide TakeUint;
    Pow256Values();
    var discriminant := ReadUint(src, 1);
    if discriminant.Fail? {
      return Fail(discriminant.err, discriminant.next);
    }
    var rv, minVal;
    if discriminant.value == 0xff {
      rv := ReadUint(src, 8);
      minVal := 0x1_0000_0000;
    } else if discriminant.value == 0xfe {
      rv := ReadUint(src, 4);
      minVal := 0x1_0000;
    } else if discriminant.value == 0xfd {
      rv := ReadUint(src, 2);
      minVal := 0xfd;
    } else {
      return Ok(discriminant.value, discriminant.next);
    }
    if rv.Fail? {
      return Fail(rv.err, rv.next);
    }
    if rv.value < minVal {
      return Fail(NonCanonicalVarInt, rv.next);
    }
    return Ok(rv.value, rv.next);
  }

  method ReadVarBytes(src: Source, max: uint64, tooLong: Error) returns (r: Parsed<bytes>)
    requires src.Valid()
    modifies src, src.base
    ensures src.Valid()
    ensures r == TakeVarBytes(src.View(), old(src.base.pos), max, tooLong) && src.base.pos == r.next
  {
    hide TakeVarInt, TakeN;
    var count := ReadVarInt(src);
    if count.Fail? {
      return Fail(count.err, count.next);
    }
    if count.value > max {
      return Fail(tooLong, count.next);
    }
    r := src.ReadFull(count.value);
  }
}
