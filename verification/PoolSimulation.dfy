/**
 The pool of the schedules is the pool on the heap: borrowing, filling and returning a
 buffer do the same to the queue of numbers as the free list does to its queue of slices.
 */
module PoolSimulation {
  import opened Bytes
  import opened Parsing
  import opened VarInts
  import opened Limits
  import opened Transactions
  import opened TxForms
  import opened Streams
  import opened Memory
  import opened ScriptPools
  import opened Interleaving
  import opened PoolFlow
  import opened DecodeProgress
  import opened OldScripts

  // The queue holds the buffers with these numbers, in this order.
  ghost predicate SameQueue(free: seq<Slice>, ids: seq<nat>, name: map<array<byte>, nat>) {
    && |free| == |ids|
    && forall i :: 0 <= i < |ids| ==> free[i].Slice? && free[i].arr in name && ids[i] == name[free[i].arr]
  }

  // The queue holds the buffers with the numbers in sh, every buffer has the contents sh has
  // for its number, and no two buffers share a number.
  ghost predicate Mirrors(pool: Pool, sh: Shared, name: map<array<byte>, nat>)
    reads pool, name.Keys
  {
    && SameQueue(pool.free, sh.pool, name)
    && (forall a :: a in name ==> a in pool.repr && name[a] < sh.made)
    && (forall a :: a in name ==> name[a] in sh.mem && sh.mem[name[a]] == a[..])
    && (forall a, b :: a in name && b in name && name[a] == name[b] ==> a == b)
  }

  // The slice and the cell are the same memory: a buffer, or memory of its own.
  ghost predicate SameCell(s: Slice, c: Cell, name: map<array<byte>, nat>) {
    && c.len == s.Len() && (c.Pooled? <==> s.Cap() == 512)
    && (if c.Pooled? then s.Slice? && s.arr in name && c.id == name[s.arr] else s.Slice? ==> s.arr !in name)
  }

  method BorrowBoth(pool: Pool, size: nat, ghost sh: Shared, ghost name: map<array<byte>, nat>)
    returns (s: Slice, ghost name': map<array<byte>, nat>)
    requires pool.Valid() && Mirrors(pool, sh, name)
    modifies pool
    ensures pool.Valid() && s in pool.lent
    ensures var (c, sh') := Borrow(sh, size); SameCell(s, c, name') && Mirrors(pool, sh', name')
    ensures forall a :: a in name ==> a in name' && name'[a] == name[a]
  {
    hide Pool.Valid;
    ghost var isNew := pool.free == [] && size <= 512;
    s := pool.Borrow(size);
    name' := if isNew then name[s.arr := sh.made] else name;
  }

  method ReturnBoth(pool: Pool, s: Slice, ghost sh: Shared, ghost c: Cell, ghost name: map<array<byte>, nat>)
    requires Mirrors(pool, sh, name) && SameCell(s, c, name)
    modifies pool
    ensures Mirrors(pool, Return(sh, c), name)
  {
    hide Pool.Valid;
    assert [s][..0] == [];
    pool.Return(s);
  }

  lemma TakenBytes(s: bytes, p: nat, n: nat)
    requires p <= |s|
    ensures var r := TakeN(s, p, n);
            && p <= r.next <= |s| && r.next <= p + n
            && (r.Ok? ==> r.value == s[p..r.next])
  {
  }

  lemma OnLoanIsWhole(pool: Pool, s: Slice)
    requires pool.Valid() && s in pool.lent
    ensures Whole(s)
  {
  }

  lemma InsideView(src: Source)
    requires src.Valid()
    ensures src.base.pos <= |src.View()|
  {
  }

  // Storing b in an array of the pool is writing it into the cell.
  lemma StoredIsWritten(sh: Shared, c: Cell, was: bytes, b: bytes)
    requires c.Pooled? ==> c.id in sh.mem && sh.mem[c.id] == was && |b| <= |was|
    ensures var (c', sh') := Write(sh, c, b);
            if c.Pooled? then c' == c && sh' == sh.(mem := sh.mem[c.id := Stored(was, 0, b)])
            else c'.Private? && c'.len == c.len && sh' == sh
  {
    assert was[..0] + b == b;
  }

  // Whatever could be read, the whole script or the rest of the stream, is stored on both
  // sides; the script is in the cell if it could be read in full.
  method FillBoth(
    pool: Pool, src: Source, s: Slice, ghost sh: Shared, ghost c: Cell, ghost name: map<array<byte>, nat>)
    returns (err: Outcome)
    requires pool.Valid() && src.Valid() && s in pool.lent
    requires SharedOk(sh) && Mirrors(pool, sh, name) && SameCell(s, c, name)
    modifies pool`lent, src, src.base, s.Arrays()
    ensures pool.Valid() && src.Valid() && s in pool.lent
    ensures old(src.base.pos) <= src.base.pos <= |src.View()|
    ensures var (c', sh') := Write(sh, c, src.View()[old(src.base.pos)..src.base.pos]);
            && SameCell(s, c', name) && Mirrors(pool, sh', name)
            && (err.Success? ==> Content(sh'.mem, c') == pool.lent[s])
  {
    hide Pool.Valid, Source.Valid, Source.View, TakeN, Stored, SharedOk, Write, Content;
    OnLoanIsWhole(pool, s);
    InsideView(src);
    TakenBytes(src.View(), src.base.pos, s.len);
    err := pool.Fill(src, s);
    ghost var b := src.View()[old(src.base.pos)..src.base.pos];
    StoredIsWritten(sh, c, old(s.arr[..]), b);
    if err.Success? {
      WriteStores(sh, c, b);
    }
  }
  // ---------- Failing decoders ----------

  // What one step of a decoder stores is what could be read of the script.
  lemma FillStores(ebs: uint64, d: Dec, sh: Shared)
    requires d.phase.FillIn? || d.phase.FillSpent? || d.phase.FillOut?
    requires d.pos <= |d.stream|
    ensures var q := TakeN(d.stream, d.pos, d.phase.cell.len).next;
            StepDec(ebs, d, sh).1 == Write(sh, d.phase.cell, d.stream[d.pos..q]).1
  {
    hide Write, InCells, OutCells;
    TakenBytes(d.stream, d.pos, d.phase.cell.len);
    assert d.stream[d.pos..] == d.stream[d.pos..|d.stream|];
    assert d.pos == |d.stream| ==> d.stream[d.pos..] == [];
  }

  // A decoder that fails gives back the buffer of the script it could not read, then those
  // of the input scripts, then those of the output scripts: the receiver's old ones before
  // the outputs are replaced.
  function GivenBack(d: Dec): seq<Cell> {
    (if d.phase.FillIn? || d.phase.FillSpent? || d.phase.FillOut? then [d.phase.cell] else [])
    + (InCells(d.ins)
       + (if d.phase.EndIn? then [d.phase.cell]
          else if d.phase.Spent? || d.phase.FillSpent? then [d.phase.rec.cell]
          else [])
       + (if d.phase.Outputs? || d.phase.FillOut? || d.phase.Lock? then OutCells(d.outs) else d.stale))
  }

  // The pool after cells were given back one after another.
  function GaveBack(sh: Shared, cells: seq<Cell>): Shared {
    if cells == [] then sh else Return(GaveBack(sh, cells[..|cells| - 1]), cells[|cells| - 1])
  }

  lemma UnwindsOne(ebs: uint64, d: Dec, sh: Shared)
    requires d.phase.Unwind?
    ensures var Unwind(e, cells) := d.phase;
            StepDec(ebs, d, sh)
            == if cells == [] then (d.(phase := Failed(e)), sh)
               else (d.(phase := Unwind(e, cells[1..])), Return(sh, cells[0]))
  {
    hide Return;
  }

  lemma {:induction false} Unwinds(ebs: uint64, d: Dec, sh: Shared, k: nat)
    requires d.phase.Unwind? && k <= |d.phase.cells|
    ensures Alone(ebs, d, sh, k)
         == (d.(phase := Unwind(d.phase.err, d.phase.cells[k..])), GaveBack(sh, d.phase.cells[..k]))
  {
    hide StepDec, Return;
    var cells := d.phase.cells;
    if k == 0 {
      assert cells[0..] == cells && cells[..0] == [];
    } else {
      Unwinds(ebs, d, sh, k - 1);
      var (d', sh') := Alone(ebs, d, sh, k - 1);
      UnwindsOne(ebs, d', sh');
      assert cells[k - 1..][1..] == cells[k..] && cells[k - 1..][0] == cells[k - 1];
      assert cells[..k][..k - 1] == cells[..k - 1] && cells[..k][k - 1] == cells[k - 1];
    }
  }

  lemma AbortCells(ebs: uint64, d: Dec, sh: Shared)
    requires !d.phase.Unwind? && StepDec(ebs, d, sh).0.phase.Unwind?
    ensures StepDec(ebs, d, sh).0.phase.cells == GivenBack(d)
  {
    hide Borrow, Write, InCells, OutCells, TakeN, TakeVarInt, TakeU32, TakeU64, TakeOutPoint, TakeInputCount,
      MaxTxInPerMessage, MaxTxOutPerMessage, MaxMessagePayload;
    var ins, outs := InCells(d.ins), OutCells(d.outs);
    assert ins + [] + d.stale == ins + d.stale && [] + (ins + d.stale) == ins + d.stale;
    assert ins + [] + outs == ins + outs && [] + (ins + outs) == ins + outs;
  }

  // From the step that fails on: the buffers go back in that order and the error is reported.
  lemma FailureGivesBack(ebs: uint64, d: Dec, sh: Shared)
    requires !d.phase.Unwind? && StepDec(ebs, d, sh).0.phase.Unwind?
    ensures var (d', sh') := StepDec(ebs, d, sh);
            Alone(ebs, d', sh', |GivenBack(d)| + 1)
            == (d'.(phase := Failed(d'.phase.err)), GaveBack(sh', GivenBack(d)))
  {
    hide StepDec, GivenBack, GaveBack;
    AbortCells(ebs, d, sh);
    var (d', sh') := StepDec(ebs, d, sh);
    var cells := d'.phase.cells;
    assert cells[..|cells|] == cells && cells[|cells|..] == [];
    Unwinds(ebs, d', sh', |cells|);
    UnwindsOne(ebs, Alone(ebs, d', sh', |cells|).0, Alone(ebs, d', sh', |cells|).1);
  }

  // The free list takes slices back as the pool takes the cells back.
  lemma {:induction false} ReturnedSame(
    free: seq<Slice>, ss: seq<Slice>, sh: Shared, cells: seq<Cell>, name: map<array<byte>, nat>)
    requires SameQueue(free, sh.pool, name)
    requires |ss| == |cells| && forall i :: 0 <= i < |ss| ==> SameCell(ss[i], cells[i], name)
    ensures SameQueue(Returned(free, ss), GaveBack(sh, cells).pool, name)
    decreases |ss|
  {
    if ss != [] {
      ReturnedSame(free, ss[..|ss| - 1], sh, cells[..|ss| - 1], name);
    }
  }
}
