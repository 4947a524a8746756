/**
 What one step of a decoder does to the shared script buffers: it moves them between
 the pool and the stepping decoder, and writes only into those the decoder holds.
 */
module PoolFlow {
  import opened Bytes
  import opened Parsing
  import opened VarInts
  import opened Limits
  import opened Transactions
  import opened Interleaving

  // ---------- Ownership ----------

  function IdOf(c: Cell): multiset<nat> { if c.Pooled? then multiset{c.id} else multiset{} }

  function CellIds(cs: seq<Cell>): multiset<nat> {
    if cs == [] then multiset{} else IdOf(cs[0]) + CellIds(cs[1..])
  }

  // The cells a decoder has on loan and will give back.
  function Loans(d: Dec): seq<Cell> {
    match d.phase
    case Start => []
    case Inputs(_) => InCells(d.ins)
    case FillIn(_, _, c) => InCells(d.ins) + [c]
    case EndIn(_, _, c) => InCells(d.ins) + [c]
    case Spent(_, rec) => InCells(d.ins) + [rec.cell]
    case FillSpent(_, rec, _, c) => InCells(d.ins) + [rec.cell] + [c]
    case Outputs(_) => Cells(d)
    case FillOut(_, _, c) => Cells(d) + [c]
    case Lock => Cells(d)
    case Copy(k, _) => if k <= |Cells(d)| then Cells(d)[k..] else []
    case GiveBack(k, _) => if k <= |Cells(d)| then Cells(d)[k..] else []
    case Unwind(_, cells) => cells
    case Done(_) => []
    case Failed(_) => []
  }

  // Those and the ones it keeps for good.
  function Held(d: Dec): seq<Cell> { Loans(d) + SpentCells(d.spent) }

  function SumIds(decs: seq<Dec>): multiset<nat> {
    if decs == [] then multiset{} else CellIds(Held(decs[0])) + SumIds(decs[1..])
  }

  // Every buffer that is anywhere, with the number of places it is in.
  function AllIds(st: State): multiset<nat> { multiset(st.sh.pool) + SumIds(st.decs) }

  ghost predicate SharedOk(sh: Shared) {
    && |sh.pool| <= POOL_ITEMS
    && (forall i :: 0 <= i < |sh.pool| ==> sh.pool[i] < sh.made)
    && (forall id: nat :: id in sh.mem <==> id < sh.made)
    && (forall id :: id in sh.mem ==> |sh.mem[id]| == BUFFER_SIZE)
  }

  // Buffers are in the pool at most once or with one decoder once, never both.
  ghost predicate Exclusive(st: State) {
    && (forall id: nat :: AllIds(st)[id] <= 1)
    && (forall id: nat :: id in AllIds(st) ==> id < st.sh.made)
  }

  // The old output scripts of a receiver include no 512-byte capacity.
  predicate Clean(stale: seq<Cell>) { forall i :: 0 <= i < |stale| ==> stale[i].Private? }

  lemma {:induction false} CellIdsConcat(a: seq<Cell>, b: seq<Cell>)
    ensures forall id: nat :: CellIds(a + b)[id] == CellIds(a)[id] + CellIds(b)[id]
  {
    if a == [] {
      assert a + b == b;
      assert CellIds(a) == multiset{};
    } else {
      CellIdsConcat(a[1..], b);
      assert (a + b)[1..] == a[1..] + b && (a + b)[0] == a[0];
    }
  }

  lemma {:induction false} CellIdsPrivate(cs: seq<Cell>)
    requires Clean(cs)
    ensures forall id: nat :: CellIds(cs)[id] == 0
  {
    if cs != [] {
      CellIdsPrivate(cs[1..]);
    }
  }

  lemma {:induction false} CellIdsMember(cs: seq<Cell>, i: nat)
    requires i < |cs| && cs[i].Pooled?
    ensures cs[i].id in CellIds(cs)
  {
    if i > 0 {
      CellIdsMember(cs[1..], i - 1);
    }
  }

  lemma {:induction false} SumIdsUpdate(decs: seq<Dec>, i: nat, d: Dec)
    requires i < |decs|
    ensures forall id: nat ::
              SumIds(decs[i := d])[id] + CellIds(Held(decs[i]))[id] == SumIds(decs)[id] + CellIds(Held(d))[id]
  {
    hide Held, CellIds;
    var decs' := decs[i := d];
    if i == 0 {
      assert decs'[1..] == decs[1..];
      assert decs'[0] == d;
    } else {
      SumIdsUpdate(decs[1..], i - 1, d);
      assert decs'[1..] == decs[1..][i - 1 := d];
      assert decs'[0] == decs[0];
    }
  }

  lemma {:induction false} SumIdsMember(decs: seq<Dec>, i: nat)
    requires i < |decs|
    ensures CellIds(Held(decs[i])) <= SumIds(decs)
  {
    hide Held, CellIds;
    if i > 0 {
      SumIdsMember(decs[1..], i - 1);
    }
  }

  lemma {:induction false} SumIdsPair(decs: seq<Dec>, i: nat, j: nat)
    requires i < j < |decs|
    ensures CellIds(Held(decs[i])) + CellIds(Held(decs[j])) <= SumIds(decs)
  {
    hide Held, CellIds;
    if i == 0 {
      SumIdsMember(decs[1..], j - 1);
    } else {
      SumIdsPair(decs[1..], i - 1, j - 1);
    }
  }

  // The number of places buffer id is in, as far as one decoder and the pool go.
  function Places(d: Dec, sh: Shared, id: nat): nat { multiset(sh.pool)[id] + CellIds(Held(d))[id] }

  // A buffer can only be lost when it is given back to a full pool, which stays as it is.
  ghost predicate MayDrop(d: Dec, sh: Shared) { |sh.pool| >= POOL_ITEMS && exists id: nat :: id in CellIds(Held(d)) }

  // What one step does to the buffers: it moves them between the pool and the stepping
  // decoder, drops them, or makes the next new one.
  ghost predicate Flow(d: Dec, sh: Shared, d': Dec, sh': Shared) {
    && (sh'.made == sh.made || sh'.made == sh.made + 1)
    && (forall id: nat :: Places(d', sh', id) <= Places(d, sh, id) + (if id == sh.made < sh'.made then 1 else 0))
    && ((MayDrop(d, sh) && sh'.pool == sh.pool) ||
        forall id: nat :: Places(d', sh', id) == Places(d, sh, id) + (if id == sh.made < sh'.made then 1 else 0))
  }

  // A script of at most 512 bytes takes the oldest buffer of the pool, or the next new one
  // if the pool is empty; a longer one leaves the pool alone.
  lemma BorrowInOrder(sh: Shared, size: nat)
    ensures var (c, sh') := Borrow(sh, size);
            && c.len == size && (c.Pooled? <==> size <= 512)
            && (c.Pooled? && sh.pool != [] ==>
                  c.id == sh.pool[0] && sh'.pool == sh.pool[1..] && sh'.made == sh.made && sh'.mem == sh.mem)
            && (c.Pooled? && sh.pool == [] ==>
                  && c.id == sh.made && sh'.pool == [] && sh'.made == sh.made + 1
                  && sh'.mem == sh.mem[sh.made := Zeros(512)])
            && (c.Private? ==> sh' == sh)
  {
  }

  lemma BorrowFlow(sh: Shared, size: nat)
    requires SharedOk(sh)
    ensures var (c, sh') := Borrow(sh, size);
            && SharedOk(sh') && c.len == size && (c.Pooled? <==> size <= 512) && (c.Pooled? ==> c.id < sh'.made)
            && (sh'.made == sh.made || sh'.made == sh.made + 1)
            && (forall id :: id in sh.mem ==> id in sh'.mem && sh'.mem[id] == sh.mem[id])
            && forall id: nat ::
                 multiset(sh'.pool)[id] + IdOf(c)[id]
                 == multiset(sh.pool)[id] + (if id == sh.made < sh'.made then 1 else 0)
  {
    if size <= BUFFER_SIZE && sh.pool != [] {
      assert sh.pool == [sh.pool[0]] + sh.pool[1..];
    }
  }

  // A buffer goes to the end of the queue while that has fewer than 12500 entries.
  lemma ReturnFlow(sh: Shared, c: Cell)
    requires SharedOk(sh) && (c.Pooled? ==> c.id < sh.made)
    ensures SharedOk(Return(sh, c))
    ensures c.Pooled? && |sh.pool| < 12_500 ==> Return(sh, c).pool == sh.pool + [c.id]
    ensures c.Private? || |sh.pool| >= 12_500 ==> Return(sh, c) == sh
    ensures forall id: nat :: multiset(Return(sh, c).pool)[id] <= multiset(sh.pool)[id] + IdOf(c)[id]
    ensures |sh.pool| < 12_500 || c.Private? ==>
              forall id: nat :: multiset(Return(sh, c).pool)[id] == multiset(sh.pool)[id] + IdOf(c)[id]
    ensures Return(sh, c).made == sh.made && Return(sh, c).mem == sh.mem
  {
  }

  // Nothing has been read yet at the start, no output while inputs are read, and the
  // scripts still to be moved are among those read.
  predicate ShapeOk(d: Dec) {
    && (d.phase.Start? ==> d.ins == [] && d.spent == [])
    && (d.phase.Start? || d.phase.Inputs? || d.phase.FillIn? || d.phase.EndIn? || d.phase.Spent? || d.phase.FillSpent?
        ==> d.outs == [])
    && (d.phase.Copy? ==> d.phase.k <= |Cells(d)|)
    && (d.phase.GiveBack? ==> d.phase.k < |Cells(d)|)
  }

  lemma NoOutCells(d: Dec)
    requires d.outs == []
    ensures Cells(d) == InCells(d.ins)
  {
  }

  // The buffers a decoder holds exist, and scripts longer than a buffer are not in one.
  predicate Known(cs: seq<Cell>, sh: Shared) {
    forall i :: 0 <= i < |cs| ==> (cs[i].Pooled? ==> cs[i].id < sh.made && cs[i].len <= BUFFER_SIZE)
  }

  lemma KnownConcat(a: seq<Cell>, b: seq<Cell>, sh: Shared)
    ensures Known(a + b, sh) <==> Known(a, sh) && Known(b, sh)
  {
    if Known(a + b, sh) {
      assert forall i :: 0 <= i < |a| ==> a[i] == (a + b)[i];
      assert forall i :: 0 <= i < |b| ==> b[i] == (a + b)[|a| + i];
    }
  }

  lemma KnownPrivate(cs: seq<Cell>, sh: Shared)
    requires Clean(cs)
    ensures Known(cs, sh)
  {
  }

  // Everything one step keeps apart from the decoder's progress.
  ghost predicate Stepped(d: Dec, sh: Shared, d': Dec, sh': Shared) {
    && Flow(d, sh, d', sh') && SharedOk(sh') && ShapeOk(d') && Clean(d'.stale)
    && Known(Held(d'), sh')
    && (forall id :: id in sh.mem && id !in CellIds(Held(d)) ==> id in sh'.mem && sh'.mem[id] == sh.mem[id])
  }

  ghost predicate Ready(d: Dec, sh: Shared) {
    SharedOk(sh) && Clean(d.stale) && ShapeOk(d) && Known(Held(d), sh)
  }

  lemma HeldSplit(d: Dec, sh: Shared)
    ensures forall id: nat :: CellIds(Held(d))[id] == CellIds(Loans(d))[id] + CellIds(SpentCells(d.spent))[id]
    ensures Known(Held(d), sh) <==> Known(Loans(d), sh) && Known(SpentCells(d.spent), sh)
  {
    hide CellIds, Loans, SpentCells, Known;
    CellIdsConcat(Loans(d), SpentCells(d.spent));
    KnownConcat(Loans(d), SpentCells(d.spent), sh);
  }

  // A step that borrows one more cell.
  lemma LoanStepped(d: Dec, sh: Shared, d': Dec, sh': Shared, c: Cell)
    requires Ready(d, sh) && ShapeOk(d') && Clean(d'.stale) && d'.spent == d.spent
    requires (c, sh') == Borrow(sh, c.len) && Loans(d') == Loans(d) + [c]
    ensures Stepped(d, sh, d', sh')
  {
    hide SharedOk, Borrow, CellIds, Held, Loans, SpentCells;
    BorrowFlow(sh, c.len);
    OneCell(Loans(d), c);
    HeldSplit(d, sh);
    HeldSplit(d', sh');
  }

  // A step that leaves the pool alone and holds the same cells, and perhaps some that are
  // no buffers.
  lemma KeepStepped(d: Dec, sh: Shared, d': Dec, rest: seq<Cell>)
    requires Ready(d, sh) && ShapeOk(d') && Clean(d'.stale) && d'.spent == d.spent
    requires Loans(d') == Loans(d) + rest && Clean(rest)
    ensures Stepped(d, sh, d', sh)
  {
    hide SharedOk, CellIds, Held, Loans, SpentCells, Known, Clean;
    HeldSplit(d, sh);
    HeldSplit(d', sh);
    CellIdsPrivate(rest);
    KnownPrivate(rest, sh);
    CellIdsConcat(Loans(d), rest);
    KnownConcat(Loans(d), rest, sh);
  }

  lemma SameStepped(d: Dec, sh: Shared, d': Dec)
    requires Ready(d, sh) && ShapeOk(d') && Clean(d'.stale) && d'.spent == d.spent
    requires Loans(d') == Loans(d)
    ensures Stepped(d, sh, d', sh)
  {
    assert Loans(d) + [] == Loans(d);
    KeepStepped(d, sh, d', []);
  }

  // A step that gives the first cell back.
  lemma ReturnStepped(d: Dec, sh: Shared, d': Dec)
    requires Ready(d, sh) && ShapeOk(d') && Clean(d'.stale) && d'.spent == d.spent
    requires Loans(d) != [] && Loans(d') == Loans(d)[1..]
    ensures Stepped(d, sh, d', Return(sh, Loans(d)[0]))
  {
    hide SharedOk, Return, CellIds, Held, Loans, SpentCells;
    HeldSplit(d, sh);
    ReturnFlow(sh, Loans(d)[0]);
    HeldSplit(d', Return(sh, Loans(d)[0]));
    CellIdsFirst(Loans(d));
    if Loans(d)[0].Pooled? {
      CellIdsMember(Loans(d), 0);
      assert Loans(d)[0].id in CellIds(Held(d));
    }
  }

  // A write into a cell the decoder holds, which may change who is to give it back.
  lemma WriteStepped(d: Dec, sh: Shared, d': Dec, c: Cell, b: bytes)
    requires Ready(d, sh) && ShapeOk(d') && Clean(d'.stale)
    requires c in Loans(d) && |b| <= c.len
    requires Known(Held(d'), sh)
    requires forall id: nat :: CellIds(Held(d'))[id] == CellIds(Held(d))[id]
    ensures Stepped(d, sh, d', Write(sh, c, b).1)
  {
    hide CellIds, Held, Loans, SpentCells;
    var i :| 0 <= i < |Loans(d)| && Loans(d)[i] == c;
    HeldSplit(d, sh);
    if c.Pooled? {
      CellIdsMember(Loans(d), i);
    }
    WriteFlow(sh, c, b);
  }

  // The outcomes of a step over the inputs.
  lemma StepInputsCases(ebs: uint64, d: Dec, sh: Shared)
    requires d.phase.Inputs?
    ensures var (d', sh') := StepDec(ebs, d, sh);
            var p := d'.phase;
            || (p.Unwind? && d' == Abort(d, p.err, InCells(d.ins) + d.stale) && sh' == sh)
            || (p.FillIn? && d' == d.(pos := d'.pos, phase := p) && p.n == d.phase.n
                && (p.cell, sh') == Borrow(sh, p.cell.len))
            || (p.Outputs? && d' == d.(pos := d'.pos, phase := p, stale := []) && sh' == sh)
  {
    hide TakeVarInt, TakeOutPoint, MaxTxInPerMessage, MaxTxOutPerMessage;
  }

  lemma StepInputsFlow(ebs: uint64, d: Dec, sh: Shared)
    requires Ready(d, sh) && d.phase.Inputs?
    ensures var (d', sh') := StepDec(ebs, d, sh); Stepped(d, sh, d', sh')
  {
    hide StepDec, SharedOk, Borrow, CellIds, Stepped;
    StepInputsCases(ebs, d, sh);
    var (d', sh') := StepDec(ebs, d, sh);
    var cells := InCells(d.ins);
    NoOutCells(d);
    match d'.phase {
      case Unwind(_, _) => KeepStepped(d, sh, d', d.stale);
      case FillIn(_, _, c) => LoanStepped(d, sh, d', sh', c);
      case Outputs(_) => SameStepped(d, sh, d');
    }
  }

  lemma TakeNShort(d: Dec, n: nat)
    ensures TakeN(d.stream, d.pos, n).Fail? ==> |Left(d)| <= n
  {
  }

  lemma SameKnown(c: Cell, c': Cell, sh: Shared)
    requires c'.Pooled? == c.Pooled? && (c.Pooled? ==> c' == c)
    ensures Known([c], sh) ==> Known([c'], sh)
  {
    if Known([c], sh) {
      assert [c][0] == c;
    }
  }

  lemma StepFillInFlow(ebs: uint64, d: Dec, sh: Shared)
    requires Ready(d, sh) && d.phase.FillIn?
    ensures var (d', sh') := StepDec(ebs, d, sh); Stepped(d, sh, d', sh')
  {
    hide TakeN, SharedOk, Write, CellIds, Stepped, InCells, Known;
    var FillIn(n, o, c) := d.phase;
    var cells := InCells(d.ins);
    assert Loans(d)[|cells|] == c;
    TakeNShort(d, c.len);
    var d' := StepDec(ebs, d, sh).0;
    var r := TakeN(d.stream, d.pos, c.len);
    if r.Ok? {
      FilledStepped(d, sh, d', cells, c, r.value);
    } else {
      FillFailedStepped(d, sh, d', cells, c, d.stale);
    }
  }

  // A script read in full, after the given cells.
  lemma FilledStepped(d: Dec, sh: Shared, d': Dec, cells: seq<Cell>, c: Cell, b: bytes)
    requires Ready(d, sh) && ShapeOk(d') && Clean(d'.stale) && d'.spent == d.spent
    requires |b| <= c.len && c in Loans(d) && Loans(d) == cells + [c] && Loans(d') == cells + [Write(sh, c, b).0]
    ensures Stepped(d, sh, d', Write(sh, c, b).1)
  {
    hide SharedOk, Write, CellIds, Stepped, Held, Loans, SpentCells, Known;
    var c' := Write(sh, c, b).0;
    WriteFlow(sh, c, b);
    HeldSplit(d, sh);
    HeldSplit(d', sh);
    OneCell(cells, c);
    OneCell(cells, c');
    SameKnown(c, c', sh);
    KnownConcat(cells, [c], sh);
    KnownConcat(cells, [c'], sh);
    WriteStepped(d, sh, d', c, b);
  }

  // A script cut short: its buffer goes back first, then the given cells, then the rest.
  lemma FillFailedStepped(d: Dec, sh: Shared, d': Dec, cells: seq<Cell>, c: Cell, rest: seq<Cell>)
    requires Ready(d, sh) && ShapeOk(d') && Clean(d'.stale) && d'.spent == d.spent
    requires Clean(rest)
    requires |Left(d)| <= c.len && c in Loans(d) && Loans(d) == cells + [c] && Loans(d') == [c] + (cells + rest)
    ensures Stepped(d, sh, d', Write(sh, c, Left(d)).1)
  {
    hide SharedOk, Write, CellIds, Stepped, Held, Loans, SpentCells, Known, Clean;
    HeldSplit(d, sh);
    HeldSplit(d', sh);
    OneCell(cells, c);
    CellIdsPrivate(rest);
    CellIdsConcat(cells, rest);
    CellIdsConcat([c], cells + rest);
    KnownPrivate(rest, sh);
    KnownConcat(cells, [c], sh);
    KnownConcat(cells, rest, sh);
    KnownConcat([c], cells + rest, sh);
    WriteStepped(d, sh, d', c, Left(d));
  }

  // The script of a spent output read in full: its buffer is kept for good.
  lemma SpentFilledStepped(d: Dec, sh: Shared, d': Dec, c: Cell, b: bytes, v: uint64)
    requires Ready(d, sh) && ShapeOk(d') && Clean(d'.stale)
    requires |b| <= c.len && c in Loans(d) && Loans(d) == Loans(d') + [c]
    requires d'.spent == d.spent + [SpentRec(v, Write(sh, c, b).0)]
    ensures Stepped(d, sh, d', Write(sh, c, b).1)
  {
    hide SharedOk, Write, CellIds, Stepped, Held, Loans, Known;
    var c' := Write(sh, c, b).0;
    var kept := SpentCells(d.spent);
    assert SpentCells(d'.spent) == kept + [c'];
    WriteFlow(sh, c, b);
    HeldSplit(d, sh);
    HeldSplit(d', sh);
    OneCell(Loans(d'), c);
    OneCell(kept, c');
    SameKnown(c, c', sh);
    KnownConcat(Loans(d'), [c], sh);
    KnownConcat(kept, [c'], sh);
    WriteStepped(d, sh, d', c, b);
  }

  lemma StepEndInFlow(ebs: uint64, d: Dec, sh: Shared)
    requires Ready(d, sh) && d.phase.EndIn?
    ensures var (d', sh') := StepDec(ebs, d, sh); Stepped(d, sh, d', sh')
  {
    hide TakeU32, SharedOk, CellIds, Stepped, InCells;
    var EndIn(n, o, c) := d.phase;
    var (d', sh') := StepDec(ebs, d, sh);
    var cells := InCells(d.ins);
    var x := TakeU32(d.stream, d.pos);
    if x.Ok? {
      InCellsAppend(d.ins, InRec(o, c, x.value));
      SameStepped(d, sh, d');
    } else {
      KeepStepped(d, sh, d', d.stale);
    }
  }

  lemma StepSpentFlow(ebs: uint64, d: Dec, sh: Shared)
    requires Ready(d, sh) && d.phase.Spent?
    ensures var (d', sh') := StepDec(ebs, d, sh); Stepped(d, sh, d', sh')
  {
    hide TakeU64, TakeVarInt, MaxTxInPerMessage, SharedOk, CellIds, Stepped, InCells;
    var (d', sh') := StepDec(ebs, d, sh);
    if d'.phase.Unwind? {
      KeepStepped(d, sh, d', d.stale);
    } else {
      LoanStepped(d, sh, d', sh', d'.phase.cell);
    }
  }

  lemma StepFillSpentFlow(ebs: uint64, d: Dec, sh: Shared)
    requires Ready(d, sh) && d.phase.FillSpent?
    ensures var (d', sh') := StepDec(ebs, d, sh); Stepped(d, sh, d', sh')
  {
    hide TakeN, SharedOk, Write, CellIds, Stepped, InCells, Known;
    var FillSpent(n, rec, v, c) := d.phase;
    var cells := InCells(d.ins) + [rec.cell];
    assert Loans(d)[|cells|] == c;
    TakeNShort(d, c.len);
    var d' := StepDec(ebs, d, sh).0;
    var r := TakeN(d.stream, d.pos, c.len);
    if r.Ok? {
      InCellsAppend(d.ins, rec);
      SpentFilledStepped(d, sh, d', c, r.value, v);
    } else {
      FillFailedStepped(d, sh, d', cells, c, d.stale);
    }
  }

  lemma StepOutputsCases(ebs: uint64, d: Dec, sh: Shared)
    requires d.phase.Outputs?
    ensures var (d', sh') := StepDec(ebs, d, sh);
            var p := d'.phase;
            || (p.Unwind? && d' == Abort(d, p.err, Cells(d)) && sh' == sh)
            || (p.FillOut? && d' == d.(pos := d'.pos, phase := p) && p.m == d.phase.m
                && (p.cell, sh') == Borrow(sh, p.cell.len))
            || (p.Lock? && d' == d.(phase := p) && sh' == sh)
  {
    hide TakeVarInt, TakeU64, MaxMessagePayload;
  }

  lemma StepOutputsFlow(ebs: uint64, d: Dec, sh: Shared)
    requires Ready(d, sh) && d.phase.Outputs?
    ensures var (d', sh') := StepDec(ebs, d, sh); Stepped(d, sh, d', sh')
  {
    hide StepDec, SharedOk, Borrow, CellIds, Stepped;
    StepOutputsCases(ebs, d, sh);
    var (d', sh') := StepDec(ebs, d, sh);
    match d'.phase {
      case Unwind(_, _) => SameStepped(d, sh, d');
      case FillOut(_, _, c) => LoanStepped(d, sh, d', sh', c);
      case Lock => SameStepped(d, sh, d');
    }
  }

  lemma StepFillOutFlow(ebs: uint64, d: Dec, sh: Shared)
    requires Ready(d, sh) && d.phase.FillOut?
    ensures var (d', sh') := StepDec(ebs, d, sh); Stepped(d, sh, d', sh')
  {
    hide TakeN, SharedOk, Write, CellIds, Stepped, InCells, OutCells, Known;
    var FillOut(m, v, c) := d.phase;
    assert Loans(d)[|Cells(d)|] == c;
    TakeNShort(d, c.len);
    var d' := StepDec(ebs, d, sh).0;
    var r := TakeN(d.stream, d.pos, c.len);
    if r.Ok? {
      OutCellsAppend(d, OutRec(v, Write(sh, c, r.value).0));
      FilledStepped(d, sh, d', Cells(d), c, r.value);
    } else {
      assert Cells(d) + [] == Cells(d);
      FillFailedStepped(d, sh, d', Cells(d), c, []);
    }
  }

  lemma StepLockFlow(ebs: uint64, d: Dec, sh: Shared)
    requires Ready(d, sh) && d.phase.Lock?
    ensures var (d', sh') := StepDec(ebs, d, sh); Stepped(d, sh, d', sh')
  {
    hide TakeU32, SharedOk, CellIds, Stepped, Known, InCells, OutCells;
    assert Cells(d)[0..] == Cells(d);
    SameStepped(d, sh, StepDec(ebs, d, sh).0);
  }

  lemma StepCopyFlow(ebs: uint64, d: Dec, sh: Shared)
    requires Ready(d, sh) && d.phase.Copy?
    ensures var (d', sh') := StepDec(ebs, d, sh); Stepped(d, sh, d', sh')
  {
    hide SharedOk, CellIds, Stepped, Content, Built, Known, InCells, OutCells;
    SameStepped(d, sh, StepDec(ebs, d, sh).0);
  }

  lemma StepGiveBackFlow(ebs: uint64, d: Dec, sh: Shared)
    requires Ready(d, sh) && d.phase.GiveBack?
    ensures var (d', sh') := StepDec(ebs, d, sh); Stepped(d, sh, d', sh')
  {
    hide SharedOk, CellIds, Stepped, Return, Known, InCells, OutCells;
    var k := d.phase.k;
    assert Cells(d)[k..][1..] == Cells(d)[k + 1..] && Cells(d)[k..][0] == Cells(d)[k];
    ReturnStepped(d, sh, StepDec(ebs, d, sh).0);
  }

  lemma StepUnwindFlow(ebs: uint64, d: Dec, sh: Shared)
    requires Ready(d, sh) && d.phase.Unwind?
    ensures var (d', sh') := StepDec(ebs, d, sh); Stepped(d, sh, d', sh')
  {
    hide SharedOk, CellIds, Stepped, Return, Known;
    if d.phase.cells == [] {
      SameStepped(d, sh, StepDec(ebs, d, sh).0);
    } else {
      ReturnStepped(d, sh, StepDec(ebs, d, sh).0);
    }
  }

  lemma StepStartFlow(ebs: uint64, d: Dec, sh: Shared)
    requires Ready(d, sh) && d.phase.Start?
    ensures var (d', sh') := StepDec(ebs, d, sh); Stepped(d, sh, d', sh')
  {
    hide TakeU32, TakeVarInt, MaxTxInPerMessage, SharedOk, CellIds, Stepped;
    var (d', sh') := StepDec(ebs, d, sh);
    InCellsNone();
    SameStepped(d, sh, d');
  }

  lemma StepFlow(ebs: uint64, d: Dec, sh: Shared)
    requires Ready(d, sh)
    ensures var (d', sh') := StepDec(ebs, d, sh); Stepped(d, sh, d', sh')
  {
    hide SharedOk, CellIds, Stepped;
    match d.phase {
      case Start => StepStartFlow(ebs, d, sh);
      case Inputs(_) => StepInputsFlow(ebs, d, sh);
      case FillIn(_, _, _) => StepFillInFlow(ebs, d, sh);
      case EndIn(_, _, _) => StepEndInFlow(ebs, d, sh);
      case Spent(_, _) => StepSpentFlow(ebs, d, sh);
      case FillSpent(_, _, _, _) => StepFillSpentFlow(ebs, d, sh);
      case Outputs(_) => StepOutputsFlow(ebs, d, sh);
      case FillOut(_, _, _) => StepFillOutFlow(ebs, d, sh);
      case Done(_) => SameStepped(d, sh, d);
      case Failed(_) => SameStepped(d, sh, d);
      case Lock => StepLockFlow(ebs, d, sh);
      case Copy(_, _) => StepCopyFlow(ebs, d, sh);
      case GiveBack(_, _) => StepGiveBackFlow(ebs, d, sh);
      case Unwind(_, _) => StepUnwindFlow(ebs, d, sh);
    }
  }

  lemma InCellsNone()
    ensures InCells([]) == []
  {
  }

  lemma InCellsAppend(ins: seq<InRec>, r: InRec)
    ensures InCells(ins + [r]) == InCells(ins) + [r.cell]
  {
  }

  lemma OutCellsAppend(d: Dec, r: OutRec)
    ensures InCells(d.ins) + OutCells(d.outs + [r]) == Cells(d) + [r.cell]
  {
  }

  lemma OneCell(cs: seq<Cell>, c: Cell)
    ensures CellIds([c]) == IdOf(c)
    ensures forall id: nat :: CellIds(cs + [c])[id] == CellIds(cs)[id] + IdOf(c)[id]
  {
    CellIdsConcat(cs, [c]);
    assert [c][1..] == [];
    assert IdOf(c) + CellIds([]) == IdOf(c);
  }

  lemma CellIdsFirst(cs: seq<Cell>)
    requires cs != []
    ensures forall id: nat :: CellIds(cs)[id] == IdOf(cs[0])[id] + CellIds(cs[1..])[id]
  {
  }

  lemma WriteFlow(sh: Shared, c: Cell, b: bytes)
    requires SharedOk(sh)
    ensures var (c', sh') := Write(sh, c, b);
            && IdOf(c') == IdOf(c) && c'.len == c.len && c'.Pooled? == c.Pooled? && (c.Pooled? ==> c' == c)
            && sh'.pool == sh.pool && sh'.made == sh.made
            && ((c.Pooled? ==> c.id in sh.mem && |b| <= BUFFER_SIZE) ==> SharedOk(sh'))
            && (forall id :: id in sh.mem && id !in IdOf(c) ==> id in sh'.mem && sh'.mem[id] == sh.mem[id])
  {
  }
}
