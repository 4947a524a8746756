/**
 How far a decoder has come, measured against the parser: what it has read so far is
 what the parser makes of the same part of its stream, and every step keeps that.
 */
module DecodeProgress {
  import opened Bytes
  import opened Parsing
  import opened VarInts
  import opened Limits
  import opened Transactions
  import opened TxForms
  import opened Interleaving
  import opened PoolFlow
  import PoolDecoding

  // ---------- Progress against the parser ----------

  function InVals(mem: map<nat, bytes>, ins: seq<InRec>): seq<TxIn> {
    seq(|ins|, i requires 0 <= i < |ins| =>
      TxIn(ins[i].previousOutPoint, Content(mem, ins[i].cell), ins[i].sequence))
  }

  function OutVals(mem: map<nat, bytes>, outs: seq<OutRec>): seq<TxOut> {
    seq(|outs|, i requires 0 <= i < |outs| => TxOut(outs[i].value, Content(mem, outs[i].cell)))
  }

  function Scripts(t: Tx): seq<bytes> { PoolDecoding.InBytes(t.txIn) + PoolDecoding.OutBytes(t.txOut) }

  function RecVal(mem: map<nat, bytes>, rec: InRec): TxIn {
    TxIn(rec.previousOutPoint, Content(mem, rec.cell), rec.sequence)
  }

  function SpentVals(mem: map<nat, bytes>, spent: seq<SpentRec>): seq<SpentOut> {
    seq(|spent|, i requires 0 <= i < |spent| => SpentOut(spent[i].satoshis, Content(mem, spent[i].cell)))
  }

  // Where the inputs begin, and where those read so far end.
  function InsStart(ebs: uint64, d: Dec): nat { TakeInputCount(ebs, d.ext, d.stream).next }

  function InsEnd(ebs: uint64, d: Dec): nat {
    TakeInputs(ebs, d.ext, d.stream, InsStart(ebs, d), |d.ins|).next
  }

  function OutsStart(ebs: uint64, d: Dec): nat { TakeVarInt(d.stream, InsEnd(ebs, d)).next }
  function OutsEnd(ebs: uint64, d: Dec): nat { TakeTxOuts(ebs, d.stream, OutsStart(ebs, d), |d.outs|).next }

  predicate InsRead(ebs: uint64, d: Dec, mem: map<nat, bytes>, n: nat) {
    && TakeInputCount(ebs, d.ext, d.stream) == Ok(n, InsStart(ebs, d))
    && d.version == AsInt32(TakeU32(d.stream, 0).value) && |d.ins| <= n
    && TakeInputs(ebs, d.ext, d.stream, InsStart(ebs, d), |d.ins|)
       == Ok(InputList(InVals(mem, d.ins), SpentVals(mem, d.spent)), InsEnd(ebs, d))
  }

  predicate OutsRead(ebs: uint64, d: Dec, mem: map<nat, bytes>, m: nat) {
    && InsRead(ebs, d, mem, |d.ins|)
    && TakeVarInt(d.stream, InsEnd(ebs, d)) == Ok(m, OutsStart(ebs, d)) && |d.outs| <= m <= MaxTxOutPerMessage(ebs)
    && TakeTxOuts(ebs, d.stream, OutsStart(ebs, d), |d.outs|) == Ok(OutVals(mem, d.outs), OutsEnd(ebs, d))
  }

  // After an error: the spent outputs kept are those of exactly the inputs that can be
  // read completely.
  predicate SpentKept(ebs: uint64, ext: bool, s: bytes, spent: seq<SpentOut>) {
    var count, k := TakeInputCount(ebs, ext, s), |spent|;
    if count.Fail? || !ext then spent == [] else
    var read := TakeInputs(ebs, true, s, count.next, k);
    && k <= count.value && read.Ok? && read.value.spent == spent
    && (k < count.value ==> TakeInputs(ebs, true, s, count.next, k + 1).Fail?)
  }

  // The records, scripts aside, are those of t.
  predicate SameRecords(d: Dec, t: Tx) {
    && d.version == t.version && d.lockTime == t.lockTime
    && |d.ins| == |t.txIn| && |d.outs| == |t.txOut|
    && (forall i :: 0 <= i < |d.ins| ==>
          d.ins[i].previousOutPoint == t.txIn[i].previousOutPoint && d.ins[i].sequence == t.txIn[i].sequence)
    && (forall i :: 0 <= i < |d.outs| ==> d.outs[i].value == t.txOut[i].value)
  }

  // The scripts from the k-th on are still in their cells.
  predicate InPlace(d: Dec, mem: map<nat, bytes>, t: Tx, k: nat) {
    |Cells(d)| == |Scripts(t)| && forall j :: k <= j < |Cells(d)| ==> Content(mem, Cells(d)[j]) == Scripts(t)[j]
  }

  predicate Good(ebs: uint64, d: Dec, mem: map<nat, bytes>) {
    var spec := TakeMessage(ebs, d.ext, d.stream);
    match d.phase
    case Start => true
    case Inputs(n) => InsRead(ebs, d, mem, n) && d.pos == InsEnd(ebs, d)
    case FillIn(n, o, c) =>
      && InsRead(ebs, d, mem, n) && |d.ins| < n
      && var q := TakeOutPoint(d.stream, InsEnd(ebs, d));
      && q.Ok? && q.value == o && TakeVarInt(d.stream, q.next) == Ok(c.len, d.pos) && c.len <= MaxTxInPerMessage(ebs)
    case EndIn(n, o, c) =>
      && InsRead(ebs, d, mem, n) && |d.ins| < n
      && var q := TakeOutPoint(d.stream, InsEnd(ebs, d));
      && q.Ok? && q.value == o
      && TakeVarBytes(d.stream, q.next, MaxTxInPerMessage(ebs), ScriptTooLong) == Ok(Content(mem, c), d.pos)
    case Spent(n, rec) =>
      && InsRead(ebs, d, mem, n) && |d.ins| < n && d.ext
      && TakeTxIn(ebs, d.stream, InsEnd(ebs, d)) == Ok(RecVal(mem, rec), d.pos)
    case FillSpent(n, rec, v, c) =>
      && InsRead(ebs, d, mem, n) && |d.ins| < n && d.ext
      && var q := TakeTxIn(ebs, d.stream, InsEnd(ebs, d));
      && q.Ok? && q.value == RecVal(mem, rec)
      && var u := TakeU64(d.stream, q.next);
      && u.Ok? && u.value == v && TakeVarInt(d.stream, u.next) == Ok(c.len, d.pos) && c.len <= MaxTxInPerMessage(ebs)
    case Outputs(m) => OutsRead(ebs, d, mem, m) && d.pos == OutsEnd(ebs, d)
    case FillOut(m, v, c) =>
      && OutsRead(ebs, d, mem, m) && |d.outs| < m
      && var q := TakeU64(d.stream, OutsEnd(ebs, d));
      && q.Ok? && AsInt64(q.value) == v
      && TakeVarInt(d.stream, q.next) == Ok(c.len, d.pos) && c.len <= MaxMessagePayload(ebs)
    case Lock => OutsRead(ebs, d, mem, |d.outs|) && d.pos == OutsEnd(ebs, d)
    case Copy(k, moved) =>
      && spec.Ok? && spec.value.spent == SpentVals(mem, d.spent)
      && SameRecords(d, spec.value.tx) && InPlace(d, mem, spec.value.tx, k)
      && k <= |Cells(d)| && moved == Scripts(spec.value.tx)[..k]
    case GiveBack(k, moved) =>
      && spec.Ok? && spec.value.spent == SpentVals(mem, d.spent)
      && SameRecords(d, spec.value.tx) && InPlace(d, mem, spec.value.tx, k + 1)
      && k < |Cells(d)| && moved == Scripts(spec.value.tx)[..k + 1]
    case Unwind(e, _) => spec.Fail? && spec.err == e && SpentKept(ebs, d.ext, d.stream, SpentVals(mem, d.spent))
    case Done(t) => spec.Ok? && spec.value == AnyTx(t, SpentVals(mem, d.spent))
    case Failed(e) => spec.Fail? && spec.err == e && SpentKept(ebs, d.ext, d.stream, SpentVals(mem, d.spent))
  }

  // ---------- What the parser says about the whole, given what was read so far ----------

  lemma InputRefused(ebs: uint64, d: Dec, mem: map<nat, bytes>, n: nat)
    requires InsRead(ebs, d, mem, n) && |d.ins| < n
    requires TakeInput(ebs, d.ext, d.stream, InsEnd(ebs, d)).Fail?
    ensures var spec := TakeMessage(ebs, d.ext, d.stream);
            spec.Fail? && spec.err == TakeInput(ebs, d.ext, d.stream, InsEnd(ebs, d)).err
    ensures SpentKept(ebs, d.ext, d.stream, SpentVals(mem, d.spent))
  {
    hide TakeU32, TakeInputCount, TakeInputs, TakeInput, TakeTail, TakeMessage, InVals, SpentVals;
    TakeMessageSplit(ebs, d.ext, d.stream);
    TakeInputsStep(ebs, d.ext, d.stream, InsStart(ebs, d), |d.ins|, n);
    TakeInputsStep(ebs, d.ext, d.stream, InsStart(ebs, d), |d.ins|, |d.ins| + 1);
    SameLength(mem, d);
  }

  lemma SameLength(mem: map<nat, bytes>, d: Dec)
    ensures |InVals(mem, d.ins)| == |d.ins| && |SpentVals(mem, d.spent)| == |d.spent|
  {
  }

  lemma InputAccepted(ebs: uint64, d: Dec, mem: map<nat, bytes>, n: nat, r: InRec, sp: seq<SpentRec>)
    requires InsRead(ebs, d, mem, n) && |d.ins| < n
    requires TakeInput(ebs, d.ext, d.stream, InsEnd(ebs, d)).Ok?
    requires TakeInput(ebs, d.ext, d.stream, InsEnd(ebs, d)).value == InputList([RecVal(mem, r)], SpentVals(mem, sp))
    ensures var d' := d.(ins := d.ins + [r], spent := d.spent + sp);
            && InsEnd(ebs, d') == TakeInput(ebs, d.ext, d.stream, InsEnd(ebs, d)).next
            && InsRead(ebs, d', mem, n)
  {
    hide TakeU32, TakeInputCount, TakeInputs, TakeInput, Content;
    TakeInputsStep(ebs, d.ext, d.stream, InsStart(ebs, d), |d.ins|, n);
    assert InVals(mem, d.ins + [r]) == InVals(mem, d.ins) + [RecVal(mem, r)];
    assert SpentVals(mem, d.spent + sp) == SpentVals(mem, d.spent) + SpentVals(mem, sp);
  }

  // Once all inputs are read, the rest decides.
  lemma TailDecides(ebs: uint64, d: Dec, mem: map<nat, bytes>)
    requires InsRead(ebs, d, mem, |d.ins|)
    ensures match TakeTail(ebs, d.stream, InsEnd(ebs, d))
            case Fail(e, _) =>
              && TakeMessage(ebs, d.ext, d.stream).Fail? && TakeMessage(ebs, d.ext, d.stream).err == e
              && SpentKept(ebs, d.ext, d.stream, SpentVals(mem, d.spent))
            case Ok((outs, l), _) =>
              && TakeMessage(ebs, d.ext, d.stream).Ok?
              && TakeMessage(ebs, d.ext, d.stream).value
                 == AnyTx(Tx(d.version, InVals(mem, d.ins), outs, l), SpentVals(mem, d.spent))
  {
    hide TakeU32, TakeInputCount, TakeInputs, TakeTail, TakeMessage, InVals, SpentVals;
    TakeMessageSplit(ebs, d.ext, d.stream);
    SameLength(mem, d);
  }

  lemma OutputRefused(ebs: uint64, d: Dec, mem: map<nat, bytes>, m: nat)
    requires OutsRead(ebs, d, mem, m) && |d.outs| < m
    requires TakeTxOut(ebs, d.stream, OutsEnd(ebs, d)).Fail?
    ensures var spec := TakeMessage(ebs, d.ext, d.stream);
            spec.Fail? && spec.err == TakeTxOut(ebs, d.stream, OutsEnd(ebs, d)).err
    ensures SpentKept(ebs, d.ext, d.stream, SpentVals(mem, d.spent))
  {
    hide TakeVarInt, TakeTxOuts, TakeTxOut, TakeMessage, MaxTxOutPerMessage, InsRead, SpentKept, OutVals;
    hide InVals, SpentVals;
    TakeTxOutsStep(ebs, d.stream, OutsStart(ebs, d), |d.outs|, m);
    TailDecides(ebs, d, mem);
  }

  lemma OutputAccepted(ebs: uint64, d: Dec, mem: map<nat, bytes>, m: nat, r: OutRec)
    requires OutsRead(ebs, d, mem, m) && |d.outs| < m
    requires TakeTxOut(ebs, d.stream, OutsEnd(ebs, d)).Ok?
    requires TakeTxOut(ebs, d.stream, OutsEnd(ebs, d)).value == TxOut(r.value, Content(mem, r.cell))
    ensures var d' := d.(outs := d.outs + [r]);
            && OutsEnd(ebs, d') == TakeTxOut(ebs, d.stream, OutsEnd(ebs, d)).next
            && OutsRead(ebs, d', mem, m)
  {
    hide TakeU32, TakeVarInt, TakeInputCount, TakeInputs, TakeTxOuts, TakeTxOut, MaxTxOutPerMessage, Content;
    hide InVals, SpentVals;
    TakeTxOutsStep(ebs, d.stream, OutsStart(ebs, d), |d.outs|, m);
    assert OutVals(mem, d.outs + [r]) == OutVals(mem, d.outs) + [TxOut(r.value, Content(mem, r.cell))];
  }

  lemma LockDecides(ebs: uint64, d: Dec, mem: map<nat, bytes>)
    requires OutsRead(ebs, d, mem, |d.outs|)
    ensures match TakeU32(d.stream, OutsEnd(ebs, d))
            case Fail(e, _) =>
              && TakeMessage(ebs, d.ext, d.stream).Fail? && TakeMessage(ebs, d.ext, d.stream).err == e
              && SpentKept(ebs, d.ext, d.stream, SpentVals(mem, d.spent))
            case Ok(l, _) =>
              && TakeMessage(ebs, d.ext, d.stream).Ok?
              && TakeMessage(ebs, d.ext, d.stream).value
                 == AnyTx(Tx(d.version, InVals(mem, d.ins), OutVals(mem, d.outs), l), SpentVals(mem, d.spent))
  {
    hide TakeU32, TakeVarInt, TakeTxOuts, TakeMessage, MaxTxOutPerMessage, InsRead, SpentKept, OutVals, InVals;
    hide SpentVals;
    TailDecides(ebs, d, mem);
  }

  // ---------- One step keeps progress ----------

  ghost predicate Kept(mem: map<nat, bytes>, mem': map<nat, bytes>, cs: seq<Cell>) {
    forall i :: 0 <= i < |cs| ==> Content(mem', cs[i]) == Content(mem, cs[i])
  }

  lemma InValsKept(mem: map<nat, bytes>, mem': map<nat, bytes>, ins: seq<InRec>)
    requires Kept(mem, mem', InCells(ins))
    ensures InVals(mem', ins) == InVals(mem, ins)
  {
    hide Content;
    assert forall i :: 0 <= i < |ins| ==> InCells(ins)[i] == ins[i].cell;
  }

  lemma OutValsKept(mem: map<nat, bytes>, mem': map<nat, bytes>, outs: seq<OutRec>)
    requires Kept(mem, mem', OutCells(outs))
    ensures OutVals(mem', outs) == OutVals(mem, outs)
  {
    hide Content;
    assert forall i :: 0 <= i < |outs| ==> OutCells(outs)[i] == outs[i].cell;
  }

  lemma KeptConcat(mem: map<nat, bytes>, mem': map<nat, bytes>, a: seq<Cell>, b: seq<Cell>)
    ensures Kept(mem, mem', a + b) <==> Kept(mem, mem', a) && Kept(mem, mem', b)
  {
    hide Content;
    if Kept(mem, mem', a + b) {
      assert forall i :: 0 <= i < |a| ==> a[i] == (a + b)[i];
      assert forall i :: 0 <= i < |b| ==> b[i] == (a + b)[|a| + i];
    }
  }

  lemma SpentValsKept(mem: map<nat, bytes>, mem': map<nat, bytes>, spent: seq<SpentRec>)
    requires Kept(mem, mem', SpentCells(spent))
    ensures SpentVals(mem', spent) == SpentVals(mem, spent)
  {
    hide Content;
    assert forall i :: 0 <= i < |spent| ==> SpentCells(spent)[i] == spent[i].cell;
  }

  lemma BothKept(mem: map<nat, bytes>, mem': map<nat, bytes>, d: Dec)
    requires Kept(mem, mem', InCells(d.ins)) && Kept(mem, mem', SpentCells(d.spent))
    ensures InVals(mem', d.ins) == InVals(mem, d.ins) && SpentVals(mem', d.spent) == SpentVals(mem, d.spent)
  {
    InValsKept(mem, mem', d.ins);
    SpentValsKept(mem, mem', d.spent);
  }

  lemma AllKept(mem: map<nat, bytes>, mem': map<nat, bytes>, d: Dec)
    requires Kept(mem, mem', Cells(d)) && Kept(mem, mem', SpentCells(d.spent))
    ensures InVals(mem', d.ins) == InVals(mem, d.ins) && SpentVals(mem', d.spent) == SpentVals(mem, d.spent)
    ensures OutVals(mem', d.outs) == OutVals(mem, d.outs)
  {
    hide Kept, InVals, OutVals, SpentVals, InCells, OutCells, SpentCells;
    KeptConcat(mem, mem', InCells(d.ins), OutCells(d.outs));
    BothKept(mem, mem', d);
    OutValsKept(mem, mem', d.outs);
  }

  // Progress depends on memory only through the cells the decoder holds.
  lemma GoodKept(ebs: uint64, d: Dec, mem: map<nat, bytes>, mem': map<nat, bytes>)
    requires Good(ebs, d, mem) && ShapeOk(d) && Kept(mem, mem', Held(d))
    ensures Good(ebs, d, mem')
  {
    hide TakeMessage, TakeInputCount, TakeInputs, TakeTxIn, TakeU32, TakeU64, TakeVarInt, TakeVarBytes, TakeTxOuts;
    hide TakeOutPoint, Content, MaxTxInPerMessage, MaxTxOutPerMessage, MaxMessagePayload, InVals, OutVals, SpentVals;
    hide InCells, OutCells, SpentCells, Kept, Scripts;
    KeptConcat(mem, mem', Loans(d), SpentCells(d.spent));
    match d.phase {
      case Inputs(_) => BothKept(mem, mem', d);
      case FillIn(_, _, c) =>
        KeptConcat(mem, mem', InCells(d.ins), [c]);
        BothKept(mem, mem', d);
      case EndIn(_, _, c) =>
        KeptConcat(mem, mem', InCells(d.ins), [c]);
        BothKept(mem, mem', d);
        KeptOne(mem, mem', c);
      case Spent(_, rec) =>
        KeptConcat(mem, mem', InCells(d.ins), [rec.cell]);
        BothKept(mem, mem', d);
        KeptOne(mem, mem', rec.cell);
      case FillSpent(_, rec, _, c) =>
        KeptConcat(mem, mem', InCells(d.ins) + [rec.cell], [c]);
        KeptConcat(mem, mem', InCells(d.ins), [rec.cell]);
        BothKept(mem, mem', d);
        KeptOne(mem, mem', rec.cell);
      case Outputs(_) => AllKept(mem, mem', d);
      case FillOut(_, _, c) =>
        KeptConcat(mem, mem', Cells(d), [c]);
        AllKept(mem, mem', d);
      case Lock => AllKept(mem, mem', d);
      case Copy(k, _) =>
        KeptFrom(mem, mem', Cells(d), k);
        SpentValsKept(mem, mem', d.spent);
      case GiveBack(k, _) =>
        KeptFrom(mem, mem', Cells(d), k);
        SpentValsKept(mem, mem', d.spent);
      case _ => SpentValsKept(mem, mem', d.spent);
    }
  }

  lemma KeptOne(mem: map<nat, bytes>, mem': map<nat, bytes>, c: Cell)
    requires Kept(mem, mem', [c])
    ensures Content(mem', c) == Content(mem, c)
  {
    assert [c][0] == c;
  }

  lemma KeptFrom(mem: map<nat, bytes>, mem': map<nat, bytes>, cs: seq<Cell>, k: nat)
    requires k <= |cs| && Kept(mem, mem', cs[k..])
    ensures forall j :: k <= j < |cs| ==> Content(mem', cs[j]) == Content(mem, cs[j])
  {
    hide Content;
    forall j | k <= j < |cs|
      ensures Content(mem', cs[j]) == Content(mem, cs[j])
    {
      assert cs[k..][j - k] == cs[j];
    }
  }

  // Cells other than the one written keep their contents, if no buffer is held twice.
  lemma WriteKeeps(sh: Shared, cs: seq<Cell>, c: Cell, b: bytes)
    requires forall id: nat :: CellIds(cs + [c])[id] <= 1
    ensures Kept(sh.mem, Write(sh, c, b).1.mem, cs)
  {
    hide CellIds;
    OneCell(cs, c);
    forall i | 0 <= i < |cs|
      ensures Content(Write(sh, c, b).1.mem, cs[i]) == Content(sh.mem, cs[i])
    {
      if cs[i].Pooled? {
        CellIdsMember(cs, i);
      }
    }
  }

  lemma WriteStores(sh: Shared, c: Cell, b: bytes)
    requires SharedOk(sh) && |b| == c.len
    requires c.Pooled? ==> c.id < sh.made && c.len <= BUFFER_SIZE
    ensures Content(Write(sh, c, b).1.mem, Write(sh, c, b).0) == b
  {
  }

  lemma BorrowKeeps(sh: Shared, size: nat, cs: seq<Cell>)
    requires SharedOk(sh) && Known(cs, sh)
    ensures Kept(sh.mem, Borrow(sh, size).1.mem, cs)
  {
  }

  // What else a decoder holds keeps its contents while one of its cells is written.
  lemma OwnKept(d: Dec, sh: Shared, cells: seq<Cell>, c: Cell, b: bytes)
    requires Loans(d) == cells + [c]
    requires forall id: nat :: CellIds(Held(d))[id] <= 1
    ensures Kept(sh.mem, Write(sh, c, b).1.mem, cells) && Kept(sh.mem, Write(sh, c, b).1.mem, SpentCells(d.spent))
  {
    hide CellIds, Loans, SpentCells, Kept, Write;
    var kept := SpentCells(d.spent);
    CellIdsConcat(cells + [c], kept);
    OneCell(cells, c);
    CellIdsConcat(cells, kept);
    OneCell(cells + kept, c);
    WriteKeeps(sh, cells + kept, c, b);
    KeptConcat(sh.mem, Write(sh, c, b).1.mem, cells, kept);
  }

  lemma StartGood(ebs: uint64, d: Dec, sh: Shared)
    requires Ready(d, sh) && d.phase.Start?
    ensures var (d', sh') := StepDec(ebs, d, sh); Good(ebs, d', sh'.mem)
  {
    hide TakeU32, TakeInputCount, TakeInputs, TakeTail, TakeMessage, SharedOk;
    TakeMessageSplit(ebs, d.ext, d.stream);
    assert InVals(sh.mem, []) == [] && SpentVals(sh.mem, []) == [];
  }

  // The outpoint and script length of an input, or an input that cannot be read.
  lemma NextInputGood(ebs: uint64, d: Dec, sh: Shared)
    requires Ready(d, sh) && d.phase.Inputs? && |d.ins| < d.phase.n && Good(ebs, d, sh.mem)
    ensures var (d', sh') := StepDec(ebs, d, sh); Good(ebs, d', sh'.mem)
  {
    hide TakeMessage, TakeU32, TakeU64, TakeVarInt, TakeInputCount, TakeInputs, TakeOutPoint, MaxTxInPerMessage;
    hide SharedOk, Borrow;
    hide Known, InCells, SpentCells, Kept, SpentKept;
    var n := d.phase.n;
    var q := TakeOutPoint(d.stream, d.pos);
    if q.Ok? && TakeVarInt(d.stream, q.next).Ok? && TakeVarInt(d.stream, q.next).value <= MaxTxInPerMessage(ebs) {
      var len := TakeVarInt(d.stream, q.next).value;
      BorrowFlow(sh, len);
      HeldSplit(d, sh);
      BorrowKeeps(sh, len, InCells(d.ins));
      BorrowKeeps(sh, len, SpentCells(d.spent));
      BothKept(sh.mem, Borrow(sh, len).1.mem, d);
    } else {
      InputRefused(ebs, d, sh.mem, n);
    }
  }

  lemma InputsDoneGood(ebs: uint64, d: Dec, sh: Shared)
    requires Ready(d, sh) && d.phase.Inputs? && |d.ins| >= d.phase.n && Good(ebs, d, sh.mem)
    ensures var (d', sh') := StepDec(ebs, d, sh); Good(ebs, d', sh'.mem)
  {
    hide TakeMessage, TakeU32, TakeVarInt, TakeInputCount, TakeInputs, TakeTxOuts, MaxTxOutPerMessage, SharedOk;
    hide Known, InCells;
    hide InVals, SpentVals, SpentKept;
    TailDecides(ebs, d, sh.mem);
    assert OutVals(sh.mem, []) == [];
  }

  lemma FillInGood(ebs: uint64, d: Dec, sh: Shared)
    requires Ready(d, sh) && d.phase.FillIn? && Good(ebs, d, sh.mem)
    requires forall id: nat :: CellIds(Held(d))[id] <= 1
    ensures var (d', sh') := StepDec(ebs, d, sh); Good(ebs, d', sh'.mem)
  {
    hide TakeMessage, TakeU32, TakeU64, TakeVarInt, TakeInputCount, TakeInputs, TakeOutPoint, TakeN;
    hide MaxTxInPerMessage, SharedOk;
    hide Write, Content, InCells, SpentCells, Kept, CellIds, SpentKept, InVals, SpentVals;
    var FillIn(n, o, c) := d.phase;
    assert Loans(d)[|InCells(d.ins)|] == c;
    assert Held(d)[|InCells(d.ins)|] == c;
    var r := TakeN(d.stream, d.pos, c.len);
    if r.Ok? {
      OwnKept(d, sh, InCells(d.ins), c, r.value);
      BothKept(sh.mem, Write(sh, c, r.value).1.mem, d);
      WriteStores(sh, c, r.value);
    } else {
      OwnKept(d, sh, InCells(d.ins), c, Left(d));
      SpentValsKept(sh.mem, Write(sh, c, Left(d)).1.mem, d.spent);
      InputRefused(ebs, d, sh.mem, n);
    }
  }

  lemma EndInGood(ebs: uint64, d: Dec, sh: Shared)
    requires Ready(d, sh) && d.phase.EndIn? && Good(ebs, d, sh.mem)
    ensures var (d', sh') := StepDec(ebs, d, sh); Good(ebs, d', sh'.mem)
  {
    hide TakeMessage, TakeU32, TakeU64, TakeVarInt, TakeInputCount, TakeInputs, TakeOutPoint, TakeVarBytes;
    hide MaxTxInPerMessage;
    hide SharedOk, Content, InVals, Known, SpentKept;
    var EndIn(n, o, c) := d.phase;
    var r := TakeU32(d.stream, d.pos);
    if r.Fail? {
      InputRefused(ebs, d, sh.mem, n);
    } else if !d.ext {
      assert SpentVals(sh.mem, []) == [] && d.spent + [] == d.spent;
      InputAccepted(ebs, d, sh.mem, n, InRec(o, c, r.value), []);
    }
  }

  lemma SpentGood(ebs: uint64, d: Dec, sh: Shared)
    requires Ready(d, sh) && d.phase.Spent? && Good(ebs, d, sh.mem)
    ensures var (d', sh') := StepDec(ebs, d, sh); Good(ebs, d', sh'.mem)
  {
    hide TakeMessage, TakeU64, TakeVarInt, TakeInputCount, TakeInputs, TakeTxIn, MaxTxInPerMessage, SharedOk, Borrow;
    hide Known, InCells, SpentCells, Kept, SpentKept, Content;
    var Spent(n, rec) := d.phase;
    var q := TakeU64(d.stream, d.pos);
    if q.Ok? && TakeVarInt(d.stream, q.next).Ok? && TakeVarInt(d.stream, q.next).value <= MaxTxInPerMessage(ebs) {
      var len := TakeVarInt(d.stream, q.next).value;
      var mem' := Borrow(sh, len).1.mem;
      BorrowFlow(sh, len);
      HeldSplit(d, sh);
      BorrowKeeps(sh, len, InCells(d.ins) + [rec.cell]);
      KeptConcat(sh.mem, mem', InCells(d.ins), [rec.cell]);
      BorrowKeeps(sh, len, SpentCells(d.spent));
      BothKept(sh.mem, mem', d);
      KeptOne(sh.mem, mem', rec.cell);
    } else {
      InputRefused(ebs, d, sh.mem, n);
    }
  }

  lemma FillSpentGood(ebs: uint64, d: Dec, sh: Shared)
    requires Ready(d, sh) && d.phase.FillSpent? && Good(ebs, d, sh.mem)
    requires forall id: nat :: CellIds(Held(d))[id] <= 1
    ensures var (d', sh') := StepDec(ebs, d, sh); Good(ebs, d', sh'.mem)
  {
    hide TakeMessage, TakeU64, TakeVarInt, TakeInputCount, TakeInputs, TakeTxIn, TakeN, MaxTxInPerMessage;
    hide SharedOk, Write;
    hide InCells, SpentCells, Kept, CellIds, SpentKept, Content, InVals, SpentVals;
    var FillSpent(n, rec, v, c) := d.phase;
    var cells := InCells(d.ins) + [rec.cell];
    assert Loans(d)[|cells|] == c;
    assert Held(d)[|cells|] == c;
    var r := TakeN(d.stream, d.pos, c.len);
    if r.Ok? {
      var (c', sh') := Write(sh, c, r.value);
      OwnKept(d, sh, cells, c, r.value);
      KeptConcat(sh.mem, sh'.mem, InCells(d.ins), [rec.cell]);
      BothKept(sh.mem, sh'.mem, d);
      KeptOne(sh.mem, sh'.mem, rec.cell);
      WriteStores(sh, c, r.value);
      OneSpentVal(sh'.mem, SpentRec(v, c'));
      InputAccepted(ebs, d, sh'.mem, n, rec, [SpentRec(v, c')]);
    } else {
      OwnKept(d, sh, cells, c, Left(d));
      SpentValsKept(sh.mem, Write(sh, c, Left(d)).1.mem, d.spent);
      InputRefused(ebs, d, sh.mem, n);
    }
  }

  lemma OneSpentVal(mem: map<nat, bytes>, r: SpentRec)
    ensures SpentVals(mem, [r]) == [SpentOut(r.satoshis, Content(mem, r.cell))]
  {
  }

  lemma OutputsGood(ebs: uint64, d: Dec, sh: Shared)
    requires Ready(d, sh) && d.phase.Outputs? && Good(ebs, d, sh.mem)
    ensures var (d', sh') := StepDec(ebs, d, sh); Good(ebs, d', sh'.mem)
  {
    hide TakeMessage, TakeU32, TakeU64, TakeVarInt, TakeInputCount, TakeInputs, TakeTxOuts, MaxTxOutPerMessage;
    hide MaxMessagePayload;
    hide SharedOk, Borrow, Known, InCells, OutCells, SpentCells, Kept, SpentKept;
    var m := d.phase.m;
    if |d.outs| < m {
      var q := TakeU64(d.stream, d.pos);
      if q.Ok? && TakeVarInt(d.stream, q.next).Ok? && TakeVarInt(d.stream, q.next).value <= MaxMessagePayload(ebs) {
        var len := TakeVarInt(d.stream, q.next).value;
        BorrowFlow(sh, len);
        HeldSplit(d, sh);
        BorrowKeeps(sh, len, Cells(d));
        BorrowKeeps(sh, len, SpentCells(d.spent));
        AllKept(sh.mem, Borrow(sh, len).1.mem, d);
      } else {
        OutputRefused(ebs, d, sh.mem, m);
      }
    }
  }

  lemma FillOutGood(ebs: uint64, d: Dec, sh: Shared)
    requires Ready(d, sh) && d.phase.FillOut? && Good(ebs, d, sh.mem)
    requires forall id: nat :: CellIds(Held(d))[id] <= 1
    ensures var (d', sh') := StepDec(ebs, d, sh); Good(ebs, d', sh'.mem)
  {
    hide TakeMessage, TakeU32, TakeU64, TakeVarInt, TakeInputCount, TakeInputs, TakeTxOuts, TakeN;
    hide MaxTxOutPerMessage, MaxMessagePayload;
    hide SharedOk, Write, Content, InCells, OutCells, SpentCells, Kept, CellIds, InVals, OutVals, SpentVals;
    hide SpentKept;
    var FillOut(m, v, c) := d.phase;
    assert Loans(d)[|Cells(d)|] == c;
    assert Held(d)[|Cells(d)|] == c;
    var r := TakeN(d.stream, d.pos, c.len);
    if r.Ok? {
      var (c', sh') := Write(sh, c, r.value);
      OwnKept(d, sh, Cells(d), c, r.value);
      AllKept(sh.mem, sh'.mem, d);
      WriteStores(sh, c, r.value);
      OutputAccepted(ebs, d, sh'.mem, m, OutRec(v, c'));
    } else {
      OwnKept(d, sh, Cells(d), c, Left(d));
      SpentValsKept(sh.mem, Write(sh, c, Left(d)).1.mem, d.spent);
      OutputRefused(ebs, d, sh.mem, m);
    }
  }

  lemma LockGood(ebs: uint64, d: Dec, sh: Shared)
    requires Ready(d, sh) && d.phase.Lock? && Good(ebs, d, sh.mem)
    ensures var (d', sh') := StepDec(ebs, d, sh); Good(ebs, d', sh'.mem)
  {
    hide TakeMessage, TakeU32, TakeVarInt, TakeInputCount, TakeInputs, TakeTxOuts, MaxTxOutPerMessage, SharedOk;
    hide Content, Known, SpentKept;
    LockDecides(ebs, d, sh.mem);
    var r := TakeU32(d.stream, d.pos);
    if r.Ok? {
      ScriptsInPlace(d, sh.mem, TakeMessage(ebs, d.ext, d.stream).value.tx);
    }
  }

  lemma ScriptsInPlace(d: Dec, mem: map<nat, bytes>, t: Tx)
    requires t.txIn == InVals(mem, d.ins) && t.txOut == OutVals(mem, d.outs)
    ensures InPlace(d, mem, t, 0)
  {
    hide Content;
    forall j | 0 <= j < |Cells(d)|
      ensures Content(mem, Cells(d)[j]) == Scripts(t)[j]
    {
    }
  }

  lemma CopyGood(ebs: uint64, d: Dec, sh: Shared)
    requires Ready(d, sh) && d.phase.Copy? && Good(ebs, d, sh.mem)
    ensures var (d', sh') := StepDec(ebs, d, sh); Good(ebs, d', sh'.mem)
  {
    hide TakeMessage, Content, Ready, InCells, OutCells, Scripts, Built, SpentVals;
    var Copy(k, moved) := d.phase;
    var t := TakeMessage(ebs, d.ext, d.stream).value.tx;
    if k < |Cells(d)| {
      assert Scripts(t)[..k + 1] == Scripts(t)[..k] + [Scripts(t)[k]];
    } else {
      assert Scripts(t)[..k] == Scripts(t);
      BuiltIs(d, t);
    }
  }

  lemma BuiltIs(d: Dec, t: Tx)
    requires SameRecords(d, t)
    ensures |Scripts(t)| == |d.ins| + |d.outs| && Built(d, Scripts(t)) == t
  {
    var b := Built(d, Scripts(t));
    assert b.txIn == t.txIn && b.txOut == t.txOut;
  }

  // Every step of a decoder keeps its own progress.
  lemma StepGood(ebs: uint64, d: Dec, sh: Shared)
    requires Ready(d, sh) && Good(ebs, d, sh.mem)
    requires forall id: nat :: CellIds(Held(d))[id] <= 1
    ensures var (d', sh') := StepDec(ebs, d, sh); Good(ebs, d', sh'.mem)
  {
    hide Good, CellIds, SharedOk, Known;
    match d.phase {
      case Start => StartGood(ebs, d, sh);
      case Inputs(n) => if |d.ins| < n { NextInputGood(ebs, d, sh); } else { InputsDoneGood(ebs, d, sh); }
      case FillIn(_, _, _) => FillInGood(ebs, d, sh);
      case EndIn(_, _, _) => EndInGood(ebs, d, sh);
      case Spent(_, _) => SpentGood(ebs, d, sh);
      case FillSpent(_, _, _, _) => FillSpentGood(ebs, d, sh);
      case Outputs(_) => OutputsGood(ebs, d, sh);
      case FillOut(_, _, _) => FillOutGood(ebs, d, sh);
      case Lock => LockGood(ebs, d, sh);
      case Copy(_, _) => CopyGood(ebs, d, sh);
      case GiveBack(_, _) => SettledGood(ebs, d, sh);
      case Unwind(_, _) => SettledGood(ebs, d, sh);
      case _ =>
    }
  }

  lemma SettledGood(ebs: uint64, d: Dec, sh: Shared)
    requires Ready(d, sh) && Good(ebs, d, sh.mem) && (d.phase.GiveBack? || d.phase.Unwind?)
    ensures var (d', sh') := StepDec(ebs, d, sh); Good(ebs, d', sh'.mem)
  {
    hide TakeMessage, Content, Ready, InCells, OutCells, Scripts, SpentVals, SpentKept;
  }
}
