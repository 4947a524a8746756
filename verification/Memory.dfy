/**
 Go byte slices over arrays: a nil slice, or a window (array, offset, length,
 capacity). Two windows can share an array.
 */
module Memory {
  import opened Bytes
  import opened Parsing
  import opened Streams

  datatype Slice = Nil | Slice(arr: array<byte>, off: nat, len: nat, cap: nat) {

    ghost predicate Sound() {
      Slice? ==> len <= cap && off + cap <= arr.Length
    }

    function Len(): nat { if Nil? then 0 else len }

    function Cap(): nat { if Nil? then 0 else cap }

    ghost function Arrays(): set<array<byte>> { if Nil? then {} else {arr} }

    ghost function Contents(): bytes
      requires Sound()
      reads Arrays()
    {
      if Nil? then [] else arr[off..off + len]
    }
  }

  // The memory of two slices, up to their capacities, does not overlap.
  ghost predicate Disjoint(a: Slice, b: Slice) {
    a.Nil? || b.Nil? || a.arr != b.arr || a.off + a.cap <= b.off || b.off + b.cap <= a.off
  }

  // The bytes of an array after b was stored from offset off on, as far as there is room.
  function Stored(was: bytes, off: nat, b: bytes): bytes {
    if off + |b| <= |was| then was[..off] + b + was[off + |b|..] else was
  }

  // io.ReadFull into the slice; on a short read the bytes that came are stored too.
  method ReadInto(src: Source, s: Slice) returns (err: Outcome)
    requires src.Valid()
    requires s.Slice? && s.Sound()
    modifies src, src.base, s.arr
    ensures src.Valid()
    ensures var spec := TakeN(src.View(), old(src.base.pos), s.len);
            && err == spec.Outcome() && src.base.pos == spec.next
            && (err.Success? ==> s.Contents() == spec.value)
    ensures s.arr[..] == Stored(old(s.arr[..]), s.off, src.View()[old(src.base.pos)..src.base.pos])
    ensures forall i :: 0 <= i < s.arr.Length && !(s.off <= i < s.off + s.len) ==> s.arr[i] == old(s.arr[i])
  {
    var got := src.Fetch(s.len);
    forall i | 0 <= i < |got| {
      s.arr[s.off + i] := got[i];
    }
    if |got| == s.len {
      assert s.arr[s.off..s.off + s.len] == got;
      return Success;
    }
    if |got| == 0 {
      return Failure(Eof);
    }
    return Failure(UnexpectedEof);
  }
}
