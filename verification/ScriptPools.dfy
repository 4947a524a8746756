/**
 The free list of script buffers (scriptFreeList in msg_tx.go). The channel is a
 bounded queue; `lent` records every buffer that is out on loan and what it holds.
 Handing a buffer back requires it to be on loan, so a decoder that verifies
 against this class never returns a buffer twice.
 */
module ScriptPools {
  import opened Bytes
  import opened Parsing
  import opened VarInts
  import opened Limits
  import opened Streams
  import opened Memory
  import opened Arenas

  // The slice starts its array and its capacity is the whole of it.
  ghost predicate Whole(s: Slice) {
    s.Slice? && s.off == 0 && s.len <= s.cap == s.arr.Length
  }

  // Every buffer is in the queue at most once or on loan at most once, never both.
  ghost predicate Owned(free: seq<Slice>, lent: map<Slice, bytes>, repr: set<array<byte>>) {
    && (forall i :: 0 <= i < |free| ==>
          Whole(free[i]) && free[i].cap == BUFFER_SIZE && free[i].arr in repr)
    && (forall i, j :: 0 <= i < j < |free| ==> free[i].arr != free[j].arr)
    && (forall s :: s in lent ==> Whole(s) && s.arr in repr)
    && (forall s, t :: s in lent && t in lent && s != t ==> s.arr != t.arr)
    && (forall i, s :: 0 <= i < |free| && s in lent ==> free[i].arr != s.arr)
  }

  lemma OwnedNew(free: seq<Slice>, lent: map<Slice, bytes>, repr: set<array<byte>>, s: Slice, b: bytes)
    requires Owned(free, lent, repr) && Whole(s) && s.arr !in repr
    ensures s !in lent && Owned(free, lent[s := b], repr + {s.arr})
  {
  }

  lemma OwnedTaken(free: seq<Slice>, lent: map<Slice, bytes>, repr: set<array<byte>>, s: Slice, b: bytes)
    requires Owned(free, lent, repr) && free != [] && Whole(s) && s.arr == free[0].arr
    ensures s !in lent && Owned(free[1..], lent[s := b], repr) && s.arr in repr
  {
    assert forall i :: 0 <= i < |free[1..]| ==> free[1..][i] == free[i + 1];
  }

  lemma OwnedReturned(free: seq<Slice>, lent: map<Slice, bytes>, repr: set<array<byte>>, s: Slice)
    requires Owned(free, lent, repr) && s in lent
    ensures Owned(free, lent - {s}, repr)
    ensures s.cap == BUFFER_SIZE ==> Owned(free + [s], lent - {s}, repr)
  {
  }

  lemma OwnedSameKeys(free: seq<Slice>, lent: map<Slice, bytes>, repr: set<array<byte>>, lent': map<Slice, bytes>)
    requires Owned(free, lent, repr) && lent'.Keys == lent.Keys
    ensures Owned(free, lent', repr)
  {
    assert forall s :: s in lent' ==> s in lent;
  }

  lemma LoansApart(free: seq<Slice>, lent: map<Slice, bytes>, repr: set<array<byte>>, s: Slice)
    requires Owned(free, lent, repr) && s in lent
    ensures Whole(s)
    ensures forall t :: t in lent && t != s ==> t.Slice? && t.arr != s.arr
  {
  }

  // On top of the loans in base, exactly the buffers in held are on loan, each once.
  ghost predicate OnLoan(base: map<Slice, bytes>, lent: map<Slice, bytes>, held: seq<Slice>) {
    && Extends(lent, base)
    && (forall i :: 0 <= i < |held| ==> held[i] in lent && held[i] !in base)
    && (forall i, j :: 0 <= i < j < |held| ==> held[i] != held[j])
    && (forall s :: s in lent ==> s in base || s in held)
  }

  lemma NothingHeld(base: map<Slice, bytes>, lent: map<Slice, bytes>)
    ensures OnLoan(base, base, [])
    ensures OnLoan(base, lent, []) ==> lent == base
  {
  }

  lemma OneMoreHeld(base: map<Slice, bytes>, lent: map<Slice, bytes>, held: seq<Slice>, s: Slice, b: bytes)
    requires OnLoan(base, lent, held) && s !in lent
    ensures OnLoan(base, lent[s := b], held + [s])
  {
  }

  lemma FirstReturned(base: map<Slice, bytes>, lent: map<Slice, bytes>, held: seq<Slice>)
    requires OnLoan(base, lent, held) && held != []
    ensures OnLoan(base, lent - {held[0]}, held[1..])
  {
  }

  // The capacity of the memory for a script: a buffer, or its own when it is longer.
  function CapFor(size: nat): nat { if size > BUFFER_SIZE then size else BUFFER_SIZE }

  // Slices the pool ignores: none is on loan and none has a buffer's capacity.
  ghost predicate Foreign(lent: map<Slice, bytes>, ss: seq<Slice>) {
    forall i :: 0 <= i < |ss| ==> ss[i].Nil? || (ss[i].cap != BUFFER_SIZE && ss[i] !in lent)
  }

  // The queue after slices were handed in one after another.
  function Returned(free: seq<Slice>, ss: seq<Slice>): seq<Slice> {
    if ss == [] then free
    else
      var q, s := Returned(free, ss[..|ss| - 1]), ss[|ss| - 1];
      if s.Cap() == BUFFER_SIZE && |q| < POOL_ITEMS then q + [s] else q
  }

  class Pool {
    var free: seq<Slice>
    ghost var lent: map<Slice, bytes>

    // The arrays of all buffers this pool has ever made.
    ghost var repr: set<array<byte>>

    ghost predicate Stocked()
      reads this
    {
      |free| <= POOL_ITEMS && Owned(free, lent, repr)
    }

    ghost predicate Valid()
      reads this, repr
    {
      Stocked() && forall s :: s in lent ==> Whole(s) && s.Contents() == lent[s]
    }

    constructor ()
      ensures Valid() && free == [] && lent == map[] && repr == {}
    {
      free, lent, repr := [], map[], {};
    }

    method Borrow(size: nat) returns (s: Slice)
      requires Valid()
      modifies this
      ensures Valid()
      ensures Whole(s) && s.len == size && s !in old(lent)
      ensures s.cap == if size > 512 then size else 512
      ensures s in lent && lent == old(lent)[s := lent[s]] && s.arr in repr
      ensures free == (if size > 512 || old(free) == [] then old(free) else old(free)[1..])
      ensures if size > 512 || old(free) == [] then fresh(s.arr) else s.arr == old(free)[0].arr
      ensures fresh(s.arr) ==> s.arr[..] == Zeros(s.cap)
      ensures old(repr) <= repr && fresh(repr - old(repr))
    {
      hide Owned;
      if size > BUFFER_SIZE {
        var buf := new byte[size](_ => 0);
        s := Slice(buf, 0, size, size);
        OwnedNew(free, lent, repr, s, s.Contents());
      } else if free != [] {
        FreeIsWhole(0);
        s := Slice(free[0].arr, 0, size, BUFFER_SIZE);
        OwnedTaken(free, lent, repr, s, s.Contents());
        assert repr + {s.arr} == repr;
        free := free[1..];
      } else {
        var buf := new byte[BUFFER_SIZE](_ => 0);
        s := Slice(buf, 0, size, BUFFER_SIZE);
        OwnedNew(free, lent, repr, s, s.Contents());
      }
      lent, repr := lent[s := s.Contents()], repr + {s.arr};
    }

    lemma FreeIsWhole(i: nat)
      requires Stocked() && i < |free|
      ensures Whole(free[i]) && free[i].cap == BUFFER_SIZE
    {
    }

    // Any slice can be handed in. One of a buffer's capacity that is not on loan is taken
    // into the queue as well, and then nothing is exclusive any more.
    method Return(s: Slice)
      modifies this
      ensures old(Valid()) && (s in old(lent) || s.Cap() != BUFFER_SIZE) ==> Valid()
      ensures lent == old(lent) - {s}
      ensures free == Returned(old(free), [s])
      ensures repr == old(repr)
    {
      hide Owned;
      assert [s][..0] == [];
      if Valid() && s in lent {
        OwnedReturned(free, lent, repr, s);
      }
      assert s !in lent ==> lent - {s} == lent;
      lent := lent - {s};
      if s.Cap() != BUFFER_SIZE {
        return;
      }
      if |free| < POOL_ITEMS {
        free := free + [s];
      }
    }

    // io.ReadFull into a buffer on loan. No other buffer changes.
    method Fill(src: Source, s: Slice) returns (err: Outcome)
      requires Valid() && src.Valid()
      requires s in lent
      modifies this`lent, src, src.base, s.Arrays()
      ensures Valid() && src.Valid()
      ensures s in lent && lent == old(lent)[s := lent[s]]
      ensures var spec := TakeN(src.View(), old(src.base.pos), s.Len());
              && err == spec.Outcome() && src.base.pos == spec.next
              && (err.Success? ==> lent[s] == spec.value)
      ensures s.arr[..] == Stored(old(s.arr[..]), 0, src.View()[old(src.base.pos)..src.base.pos])
    {
      hide Owned, TakeN, Stored;
      LoansApart(free, lent, repr, s);
      err := ReadInto(src, s);
      OwnedSameKeys(free, lent, repr, lent[s := s.Contents()]);
      lent := lent[s := s.Contents()];
    }
  }

  // readScript: on success the buffer stays on loan with the script in it; on every
  // error path the loans are as before.
  method ReadScript(src: Source, pool: Pool, max: uint64) returns (s: Slice, err: Outcome)
    requires pool.Valid() && src.Valid()
    modifies src, src.base, pool, pool.repr
    ensures pool.Valid() && src.Valid()
    ensures old(pool.repr) <= pool.repr && fresh(pool.repr - old(pool.repr))
    ensures var spec := TakeVarBytes(src.View(), old(src.base.pos), max, ScriptTooLong);
            && err == spec.Outcome() && src.base.pos == spec.next
            && (err.Success? ==>
                  && s.Slice? && s.len == |spec.value| && s.cap == CapFor(|spec.value|)
                  && (s.cap == BUFFER_SIZE || fresh(s.arr))
                  && s !in old(pool.lent) && pool.lent == old(pool.lent)[s := spec.value])
    ensures err.Failure? ==> s == Nil && pool.lent == old(pool.lent)
  {
    hide TakeVarInt, TakeN, Pool.Valid;
    var count := ReadVarInt(src);
    if count.Fail? {
      return Nil, Failure(count.err);
    }
    if count.value > max {
      return Nil, Failure(ScriptTooLong);
    }
    s := pool.Borrow(count.value);
    err := pool.Fill(src, s);
    if err.Failure? {
      pool.Return(s);
      s := Nil;
    }
  }
}
