/**
 Any number of decoders of single transactions, plain and extended, sharing the script
 pool (msg_tx.go, msg_extended_tx.go), as a state machine. One step is one channel
 operation, one write into a borrowed buffer or purely local work, so every interleaving
 of running goroutines is a schedule.
 */
module Interleaving {
  import opened Bytes
  import opened Parsing
  import opened VarInts
  import opened Limits
  import opened Transactions
  import opened TxForms

  // ---------- State ----------

  // Memory for one script: a 512-byte buffer of the pool, or an allocation of its own
  // when the script is longer than that.
  datatype Cell = Pooled(id: nat, len: nat) | Private(len: nat, data: bytes)

  datatype InRec = InRec(previousOutPoint: OutPoint, cell: Cell, sequence: uint32)
  datatype OutRec = OutRec(value: int64, cell: Cell)

  // The output an extended input spends; its script stays in its cell for good.
  datatype SpentRec = SpentRec(satoshis: uint64, cell: Cell)

  datatype Phase =
    | Start
    | Inputs(n: nat)                                 // reading the next of n inputs
    | FillIn(n: nat, op: OutPoint, cell: Cell)       // buffer borrowed, script not yet read
    | EndIn(n: nat, op: OutPoint, cell: Cell)        // script read, sequence not yet
    | Spent(n: nat, rec: InRec)                      // the spent output of an extended input comes next
    | FillSpent(n: nat, rec: InRec, satoshis: uint64, cell: Cell)
    | Outputs(m: nat)
    | FillOut(m: nat, value: int64, cell: Cell)
    | Lock
    | Copy(k: nat, moved: seq<bytes>)                // k scripts are consolidated and given back
    | GiveBack(k: nat, moved: seq<bytes>)            // script k is copied, its buffer not yet back
    | Unwind(err: Error, cells: seq<Cell>)           // giving buffers back after an error
    | Done(tx: Tx)
    | Failed(err: Error)

  // stale: the output scripts the receiver held before; they are given back as well
  // if decoding fails before the outputs are replaced.
  datatype Dec = Dec(
    stream: bytes, ext: bool, pos: nat, phase: Phase, version: int32, ins: seq<InRec>,
    spent: seq<SpentRec>, outs: seq<OutRec>, lockTime: uint32, stale: seq<Cell>)

  // pool: the channel, oldest first; made: buffers made so far are 0 .. made - 1.
  datatype Shared = Shared(pool: seq<nat>, made: nat, mem: map<nat, bytes>)

  datatype State = State(sh: Shared, decs: seq<Dec>)

  // ---------- The pool ----------

  function Borrow(sh: Shared, size: nat): (Cell, Shared) {
    if size > BUFFER_SIZE then (Private(size, []), sh)
    else if sh.pool != [] then (Pooled(sh.pool[0], size), sh.(pool := sh.pool[1..]))
    else (Pooled(sh.made, size), Shared(sh.pool, sh.made + 1, sh.mem[sh.made := Zeros(BUFFER_SIZE)]))
  }

  function Return(sh: Shared, c: Cell): Shared {
    if c.Pooled? && |sh.pool| < POOL_ITEMS then sh.(pool := sh.pool + [c.id]) else sh
  }

  // Writing b over the start of a cell.
  function Overwrite(was: bytes, b: bytes): bytes {
    if |b| <= |was| then b + was[|b|..] else b
  }

  function Write(sh: Shared, c: Cell, b: bytes): (Cell, Shared) {
    if c.Private? then (c.(data := b), sh)
    else (c, sh.(mem := sh.mem[c.id := Overwrite(if c.id in sh.mem then sh.mem[c.id] else [], b)]))
  }

  function Content(mem: map<nat, bytes>, c: Cell): bytes {
    match c
    case Private(_, data) => data
    case Pooled(id, len) => if id in mem && len <= |mem[id]| then mem[id][..len] else []
  }

  // ---------- One decoder ----------

  function InCells(ins: seq<InRec>): seq<Cell> { seq(|ins|, i requires 0 <= i < |ins| => ins[i].cell) }
  function OutCells(outs: seq<OutRec>): seq<Cell> { seq(|outs|, i requires 0 <= i < |outs| => outs[i].cell) }
  function SpentCells(spent: seq<SpentRec>): seq<Cell> { seq(|spent|, i requires 0 <= i < |spent| => spent[i].cell) }

  // The scripts that are consolidated and whose buffers go back.
  function Cells(d: Dec): seq<Cell> { InCells(d.ins) + OutCells(d.outs) }

  function Abort(d: Dec, e: Error, cells: seq<Cell>): Dec { d.(phase := Unwind(e, cells)) }

  // Version, marker if there is one, and number of inputs.
  function StepStart(ebs: uint64, d: Dec): Dec {
    match TakeInputCount(ebs, d.ext, d.stream)
    case Fail(e, _) => d.(phase := Failed(e))
    case Ok(n, q) => d.(pos := q, phase := Inputs(n), version := AsInt32(TakeU32(d.stream, 0).value))
  }

  // The next input up to its script length, or the output count.
  function StepInputs(ebs: uint64, d: Dec, sh: Shared): (Dec, Shared)
    requires d.phase.Inputs?
  {
    var n, cells := d.phase.n, InCells(d.ins) + d.stale;
    if |d.ins| < n then
      match TakeOutPoint(d.stream, d.pos)
      case Fail(e, _) => (Abort(d, e, cells), sh)
      case Ok(o, q) =>
        match TakeVarInt(d.stream, q)
        case Fail(e, _) => (Abort(d, e, cells), sh)
        case Ok(len, t) =>
          if len > MaxTxInPerMessage(ebs) then (Abort(d, ScriptTooLong, cells), sh)
          else var (c, sh') := Borrow(sh, len); (d.(pos := t, phase := FillIn(n, o, c)), sh')
    else
      match TakeVarInt(d.stream, d.pos)
      case Fail(e, _) => (Abort(d, e, cells), sh)
      case Ok(m, t) =>
        if m > MaxTxOutPerMessage(ebs) then (Abort(d, TooManyOutputs, cells), sh)
        else (d.(pos := t, phase := Outputs(m), stale := []), sh)
  }

  // What is left of the stream.
  function Left(d: Dec): bytes { if d.pos <= |d.stream| then d.stream[d.pos..] else [] }

  function StepFillIn(d: Dec, sh: Shared): (Dec, Shared)
    requires d.phase.FillIn?
  {
    var FillIn(n, o, c) := d.phase;
    match TakeN(d.stream, d.pos, c.len)
    case Ok(b, q) =>
      var (c', sh') := Write(sh, c, b);
      (d.(pos := q, phase := EndIn(n, o, c')), sh')
    case Fail(e, _) =>
      (Abort(d, e, [c] + (InCells(d.ins) + d.stale)), Write(sh, c, Left(d)).1)
  }

  function StepEndIn(d: Dec): Dec
    requires d.phase.EndIn?
  {
    var EndIn(n, o, c) := d.phase;
    match TakeU32(d.stream, d.pos)
    case Fail(e, _) => Abort(d, e, InCells(d.ins) + [c] + d.stale)
    case Ok(x, q) =>
      var rec := InRec(o, c, x);
      if d.ext then d.(pos := q, phase := Spent(n, rec))
      else d.(pos := q, phase := Inputs(n), ins := d.ins + [rec])
  }

  // The amount and the script length of the spent output.
  function StepSpent(ebs: uint64, d: Dec, sh: Shared): (Dec, Shared)
    requires d.phase.Spent?
  {
    var Spent(n, rec) := d.phase;
    var cells := InCells(d.ins) + [rec.cell] + d.stale;
    match TakeU64(d.stream, d.pos)
    case Fail(e, _) => (Abort(d, e, cells), sh)
    case Ok(v, q) =>
      match TakeVarInt(d.stream, q)
      case Fail(e, _) => (Abort(d, e, cells), sh)
      case Ok(len, t) =>
        if len > MaxTxInPerMessage(ebs) then (Abort(d, ScriptTooLong, cells), sh)
        else var (c, sh') := Borrow(sh, len); (d.(pos := t, phase := FillSpent(n, rec, v, c)), sh')
  }

  // A buffer that is filled here is not among those given back later.
  function StepFillSpent(d: Dec, sh: Shared): (Dec, Shared)
    requires d.phase.FillSpent?
  {
    var FillSpent(n, rec, v, c) := d.phase;
    match TakeN(d.stream, d.pos, c.len)
    case Ok(b, q) =>
      var (c', sh') := Write(sh, c, b);
      (d.(pos := q, phase := Inputs(n), ins := d.ins + [rec], spent := d.spent + [SpentRec(v, c')]), sh')
    case Fail(e, _) =>
      (Abort(d, e, [c] + (InCells(d.ins) + [rec.cell] + d.stale)), Write(sh, c, Left(d)).1)
  }

  function StepOutputs(ebs: uint64, d: Dec, sh: Shared): (Dec, Shared)
    requires d.phase.Outputs?
  {
    var m := d.phase.m;
    if |d.outs| >= m then (d.(phase := Lock), sh) else
    match TakeU64(d.stream, d.pos)
    case Fail(e, _) => (Abort(d, e, Cells(d)), sh)
    case Ok(v, q) =>
      match TakeVarInt(d.stream, q)
      case Fail(e, _) => (Abort(d, e, Cells(d)), sh)
      case Ok(len, t) =>
        if len > MaxMessagePayload(ebs) then (Abort(d, ScriptTooLong, Cells(d)), sh)
        else var (c, sh') := Borrow(sh, len); (d.(pos := t, phase := FillOut(m, AsInt64(v), c)), sh')
  }

  function StepFillOut(d: Dec, sh: Shared): (Dec, Shared)
    requires d.phase.FillOut?
  {
    var FillOut(m, v, c) := d.phase;
    match TakeN(d.stream, d.pos, c.len)
    case Ok(b, q) =>
      var (c', sh') := Write(sh, c, b);
      (d.(pos := q, phase := Outputs(m), outs := d.outs + [OutRec(v, c')]), sh')
    case Fail(e, _) =>
      (Abort(d, e, [c] + Cells(d)), Write(sh, c, Left(d)).1)
  }

  function StepLock(d: Dec): Dec {
    match TakeU32(d.stream, d.pos)
    case Fail(e, _) => Abort(d, e, Cells(d))
    case Ok(l, q) => d.(pos := q, lockTime := l, phase := Copy(0, []))
  }

  // The transaction once all scripts are consolidated.
  function Built(d: Dec, moved: seq<bytes>): Tx
    requires |moved| == |d.ins| + |d.outs|
  {
    Tx(d.version,
       seq(|d.ins|, i requires 0 <= i < |d.ins| => TxIn(d.ins[i].previousOutPoint, moved[i], d.ins[i].sequence)),
       seq(|d.outs|, i requires 0 <= i < |d.outs| => TxOut(d.outs[i].value, moved[|d.ins| + i])),
       d.lockTime)
  }

  function StepCopy(d: Dec, sh: Shared): Dec
    requires d.phase.Copy?
  {
    var Copy(k, moved) := d.phase;
    if k < |Cells(d)| then d.(phase := GiveBack(k, moved + [Content(sh.mem, Cells(d)[k])]))
    else if |moved| == |d.ins| + |d.outs| then d.(phase := Done(Built(d, moved)))
    else d
  }

  function StepDec(ebs: uint64, d: Dec, sh: Shared): (Dec, Shared) {
    match d.phase
    case Start => (StepStart(ebs, d), sh)
    case Inputs(_) => StepInputs(ebs, d, sh)
    case FillIn(_, _, _) => StepFillIn(d, sh)
    case EndIn(_, _, _) => (StepEndIn(d), sh)
    case Spent(_, _) => StepSpent(ebs, d, sh)
    case FillSpent(_, _, _, _) => StepFillSpent(d, sh)
    case Outputs(_) => StepOutputs(ebs, d, sh)
    case FillOut(_, _, _) => StepFillOut(d, sh)
    case Lock => (StepLock(d), sh)
    case Copy(_, _) => (StepCopy(d, sh), sh)
    case GiveBack(k, moved) =>
      if k < |Cells(d)| then (d.(phase := Copy(k + 1, moved)), Return(sh, Cells(d)[k])) else (d, sh)
    case Unwind(e, cells) =>
      if cells == [] then (d.(phase := Failed(e)), sh)
      else (d.(phase := Unwind(e, cells[1..])), Return(sh, cells[0]))
    case Done(_) => (d, sh)
    case Failed(_) => (d, sh)
  }

  // ---------- Schedules ----------

  function Step(ebs: uint64, st: State, i: nat): State
    requires i < |st.decs|
  {
    var (d, sh) := StepDec(ebs, st.decs[i], st.sh);
    State(sh, st.decs[i := d])
  }

  // Any schedule: which decoder moves next. Numbers of no decoder are idle moments.
  function Run(ebs: uint64, st: State, schedule: seq<nat>): State
    decreases |schedule|
  {
    if schedule == [] then st
    else
      var last := schedule[|schedule| - 1];
      var before := Run(ebs, st, schedule[..|schedule| - 1]);
      if last < |before.decs| then Step(ebs, before, last) else before
  }

  function Fresh(stream: bytes, ext: bool, stale: seq<Cell>): Dec {
    Dec(stream, ext, 0, Start, 0, [], [], [], 0, stale)
  }
}
