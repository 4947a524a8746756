/**
 Decoding an extended transaction through the script pool (Bsvdecode in
 msg_extended_tx.go). An extended input record is kept as two parts, the fields of
 a plain input and the spent output; the outputs, the lock time and the
 consolidation are those of the plain decoder.

 The buffers that hold spent-output scripts are not among those handed back: on
 every path they stay on loan, and a decoded message keeps using them.
 */
module ExtPoolDecoding {
  import opened Bytes
  import opened Parsing
  import opened VarInts
  import opened Limits
  import opened Transactions
  import opened ExtendedTransactions
  import opened Streams
  import opened Memory
  import opened Arenas
  import opened TxMemory
  import opened ScriptPools
  import opened PoolDecoding

  // The spent output: amount and script.
  datatype MemSpent = MemSpent(previousTxSatoshis: uint64, previousTxScript: Slice)

  class MsgExtTx {
    const plain: MsgTx
    var spent: seq<MemSpent>

    constructor ()
      ensures fresh(plain) && plain.txIn == [] && plain.txOut == [] && spent == []
    {
      plain := new MsgTx();
      spent := [];
    }
  }

  ghost predicate SpentHolds(lent: map<Slice, bytes>, m: MemSpent, v: ExtTxIn) {
    && m.previousTxSatoshis == v.previousTxSatoshis && Holds(lent, m.previousTxScript, v.previousTxScript)
    && m.previousTxScript.Slice? && m.previousTxScript.cap == CapFor(|v.previousTxScript|)
  }

  ghost predicate SpentsHold(lent: map<Slice, bytes>, ms: seq<MemSpent>, vs: seq<ExtTxIn>) {
    |ms| == |vs| && forall i :: 0 <= i < |ms| ==> SpentHolds(lent, ms[i], vs[i])
  }

  function SpentBuffers(ms: seq<MemSpent>): seq<Slice> {
    seq(|ms|, i requires 0 <= i < |ms| => ms[i].previousTxScript)
  }

  // kept is base and, each once, the buffers of the spent-output scripts, nothing else.
  ghost predicate Kept(base: map<Slice, bytes>, kept: map<Slice, bytes>, ms: seq<MemSpent>) {
    OnLoan(base, kept, SpentBuffers(ms))
  }

  // The spent outputs in ms are those of exactly the inputs, of count at q, that can be
  // read completely, and kept holds their scripts.
  ghost predicate SpentRead(
    ebs: uint64, s: bytes, q: nat, count: nat, ms: seq<MemSpent>, kept: map<Slice, bytes>)
  {
    var read := TakeExtTxIns(ebs, s, q, |ms|);
    && |ms| <= count && read.Ok? && SpentsHold(kept, ms, read.value)
    && (|ms| < count ==> TakeExtTxIns(ebs, s, q, |ms| + 1).Fail?)
  }

  // The same from the start of the message; nothing is borrowed before the inputs begin.
  ghost predicate SpentOf(ebs: uint64, s: bytes, p: nat, ms: seq<MemSpent>, kept: map<Slice, bytes>) {
    var head := TakeExtCount(ebs, s, p);
    if head.Ok? then SpentRead(ebs, s, head.next, head.value, ms, kept) else ms == []
  }

  // The stream goes at least as far as one whole input.
  predicate ReadsAnInput(ebs: uint64, s: bytes, p: nat) {
    var head := TakeExtCount(ebs, s, p);
    head.Ok? && head.value > 0 && TakeExtTxIn(ebs, s, head.next).Ok?
  }

  // Memory stays with the message exactly when the stream holds a whole first input.
  lemma LeavesNoLoan(
    ebs: uint64, s: bytes, p: nat, base: map<Slice, bytes>, kept: map<Slice, bytes>, ms: seq<MemSpent>)
    requires Kept(base, kept, ms) && SpentOf(ebs, s, p, ms, kept)
    ensures kept == base <==> !ReadsAnInput(ebs, s, p)
  {
    hide TakeExtCount, TakeExtTxIns, TakeExtTxIn, SpentsHold;
    var head := TakeExtCount(ebs, s, p);
    if head.Ok? && head.value > 0 {
      TakeExtTxInsStep(ebs, s, head.next, 0, 1);
      if |ms| > 0 {
        TakeExtTxInsStep(ebs, s, head.next, 0, |ms|);
      }
    }
    if ms == [] {
      NothingHeld(base, kept);
    } else {
      assert SpentBuffers(ms)[0] in kept;
    }
  }

  // ---------- Which of that memory is a buffer of the pool ----------

  // No buffer of the pool is out that was not out before.
  ghost predicate NoBufferLost(base: map<Slice, bytes>, kept: map<Slice, bytes>) {
    forall s :: s in kept && s.Cap() == 512 ==> s in base
  }

  // The k-th input can be read completely and spends an output with a short script.
  predicate ShortSpent(ebs: uint64, s: bytes, q: nat, k: nat) {
    var read := TakeExtTxIns(ebs, s, q, k);
    k > 0 && read.Ok? && |read.value[k - 1].previousTxScript| <= 512
  }

  // Among the inputs that can be read completely, one has a spent script of at most 512 bytes.
  ghost predicate KeepsABuffer(ebs: uint64, s: bytes, p: nat) {
    var head := TakeExtCount(ebs, s, p);
    head.Ok? && exists k: nat :: k <= head.value && ShortSpent(ebs, s, head.next, k)
  }

  lemma SpentAt(kept: map<Slice, bytes>, ms: seq<MemSpent>, vs: seq<ExtTxIn>, i: nat)
    requires SpentsHold(kept, ms, vs) && i < |ms|
    ensures |vs| == |ms| && SpentBuffers(ms)[i].Cap() == CapFor(|vs[i].previousTxScript|)
  {
    assert SpentHolds(kept, ms[i], vs[i]);
  }

  // Not every buffer of the pool goes back, although that is what the comments of the
  // decoder promise: all do exactly when every input that can be read completely has a
  // spent script of more than 512 bytes, which the pool has no buffer for.
  lemma LosesNoBuffer(
    ebs: uint64, s: bytes, p: nat, base: map<Slice, bytes>, kept: map<Slice, bytes>, ms: seq<MemSpent>)
    requires Kept(base, kept, ms) && SpentOf(ebs, s, p, ms, kept)
    ensures NoBufferLost(base, kept) <==> !KeepsABuffer(ebs, s, p)
  {
    hide TakeExtCount, TakeExtTxIns, SpentsHold;
    var head := TakeExtCount(ebs, s, p);
    if head.Fail? {
      NothingHeld(base, kept);
    } else {
      var vs := TakeExtTxIns(ebs, s, head.next, |ms|).value;
      if KeepsABuffer(ebs, s, p) {
        var k: nat :| k <= head.value && ShortSpent(ebs, s, head.next, k);
        if k > |ms| {
          TakeExtTxInsPrefix(ebs, s, head.next, |ms| + 1, k);
        }
        TakeExtTxInsPrefix(ebs, s, head.next, k, |ms|);
        SpentAt(kept, ms, vs, k - 1);
        assert SpentBuffers(ms)[k - 1] in kept && SpentBuffers(ms)[k - 1] !in base;
      }
      if !NoBufferLost(base, kept) {
        var b :| b in kept && b.Cap() == 512 && b !in base;
        var i :| 0 <= i < |ms| && SpentBuffers(ms)[i] == b;
        SpentAt(kept, ms, vs, i);
        TakeExtTxInsPrefix(ebs, s, head.next, i + 1, |ms|);
        assert ShortSpent(ebs, s, head.next, i + 1);
      }
    }
  }

  // For a message that is decoded, its spent scripts decide.
  lemma DecodedInputsLeak(ebs: uint64, s: bytes, p: nat)
    requires TakeExtTx(ebs, s, p).Ok?
    ensures var ins := TakeExtTx(ebs, s, p).value.txIn;
            KeepsABuffer(ebs, s, p) <==> exists i :: 0 <= i < |ins| && |ins[i].previousTxScript| <= 512
  {
    hide TakeExtCount, TakeExtTxIns, TakeExtTx, TakeU32, TakeTail;
    TakeExtTxSplit(ebs, s, p);
    var head := TakeExtCount(ebs, s, p);
    var ins := TakeExtTx(ebs, s, p).value.txIn;
    if KeepsABuffer(ebs, s, p) {
      var k: nat :| k <= head.value && ShortSpent(ebs, s, head.next, k);
      TakeExtTxInsPrefix(ebs, s, head.next, k, head.value);
      assert |ins[k - 1].previousTxScript| <= 512;
    }
    if i :| 0 <= i < |ins| && |ins[i].previousTxScript| <= 512 {
      TakeExtTxInsPrefix(ebs, s, head.next, i + 1, head.value);
      assert ShortSpent(ebs, s, head.next, i + 1);
    }
  }

  // One input with empty scripts, and the message may even stop after it.
  const SMALL_INPUT := ExtTxIn(OutPoint(Zeros(32), 0), 0, [], [], 0)

  lemma LeakingStream(ebs: uint64, rest: bytes)
    ensures var s := LE(4, 0) + (MARKER + (EncVarInt(1) + EncExtTxIn(SMALL_INPUT))) + rest;
            KeepsABuffer(ebs, s, 0)
  {
    hide Has, LE, EncVarInt, EncExtTxIn, TakeU32, TakeMarker, TakeVarInt, TakeExtTxIn, MaxMessagePayload;
    var i := EncExtTxIn(SMALL_INPUT);
    var e := LE(4, 0) + (MARKER + (EncVarInt(1) + i));
    var s := e + rest;
    HasWhole([], e, rest);
    assert [] + e + rest == s;
    HasWithin(s, 0, e);
    HasConcat(s, 0, LE(4, 0), MARKER + (EncVarInt(1) + i));
    HasConcat(s, 4, MARKER, EncVarInt(1) + i);
    HasConcat(s, 10, EncVarInt(1), i);
    TakeU32Iff(s, 0, 0, 4);
    TakeMarkerIff(s, 4, 10);
    TakeVarIntComplete(s, 10, 1);
    var q := 10 + |EncVarInt(1)|;
    TakeExtTxInComplete(ebs, s, q, SMALL_INPUT);
    TakeExtTxInsStep(ebs, s, q, 0, 1);
    assert ShortSpent(ebs, s, q, 1);
  }

  lemma KeptNothing(base: map<Slice, bytes>)
    ensures Kept(base, base, [])
    ensures OnLoan(base, base, NonNil(InScripts([])))
    ensures InsBorrowed(base, [], PlainIns([])) && SpentsHold(base, [], []) && Concat(InBytes(PlainIns([]))) == []
  {
    NoIns(base);
    assert PlainIns([]) == [];
  }

  // A buffer that stays on loan for good joins both sides.
  lemma KeepOne(
    base: map<Slice, bytes>, kept: map<Slice, bytes>, lent: map<Slice, bytes>, held: seq<Slice>,
    ms: seq<MemSpent>, m: MemSpent, b: bytes)
    requires Kept(base, kept, ms) && OnLoan(kept, lent, held)
    requires m.previousTxScript.Slice? && m.previousTxScript !in lent
    ensures var s := m.previousTxScript;
            && Kept(base, kept[s := b], ms + [m])
            && OnLoan(kept[s := b], lent[s := b], held)
            && Extends(kept[s := b], kept) && Extends(lent[s := b], lent)
  {
    assert SpentBuffers(ms + [m]) == SpentBuffers(ms) + [m.previousTxScript];
    assert m.previousTxScript !in kept;
    OneMoreHeld(base, kept, SpentBuffers(ms), m.previousTxScript, b);
  }

  lemma SpentsAppend(
    before: map<Slice, bytes>, after: map<Slice, bytes>, ms: seq<MemSpent>, vs: seq<ExtTxIn>, m: MemSpent, v: ExtTxIn)
    requires SpentsHold(before, ms, vs) && Extends(after, before) && SpentHolds(after, m, v)
    ensures SpentsHold(after, ms + [m], vs + [v])
    ensures PlainIns(vs + [v]) == PlainIns(vs) + [v.Plain()]
  {
    forall i | 0 <= i < |ms|
      ensures SpentHolds(after, ms[i], vs[i])
    {
      assert SpentHolds(before, ms[i], vs[i]);
    }
  }

  // Satoshis and script of the spent output.
  method ReadSpent(src: Source, pool: Pool, ebs: uint64) returns (m: MemSpent, err: Outcome)
    requires pool.Valid() && src.Valid()
    modifies src, src.base, pool, pool.repr
    ensures pool.Valid() && src.Valid()
    ensures old(pool.repr) <= pool.repr && fresh(pool.repr - old(pool.repr))
    ensures err.Failure? ==> pool.lent == old(pool.lent)
    ensures var v := TakeU64(src.View(), old(src.base.pos));
            if v.Fail? then err == Failure(v.err) && src.base.pos == v.next else
            var b := TakeVarBytes(src.View(), v.next, MaxTxInPerMessage(ebs), ScriptTooLong);
            && err == b.Outcome() && src.base.pos == b.next
            && (err.Success? ==>
                  && m.previousTxSatoshis == v.value
                  && m.previousTxScript.Slice? && m.previousTxScript !in old(pool.lent)
                  && m.previousTxScript.cap == CapFor(|b.value|)
                  && (m.previousTxScript.cap == BUFFER_SIZE || fresh(m.previousTxScript.arr))
                  && pool.lent == old(pool.lent)[m.previousTxScript := b.value])
  {
    hide TakeU64, TakeVarBytes, MaxTxInPerMessage, Pool.Valid;
    m := MemSpent(0, Nil);
    var v := ReadU64(src);
    if v.Fail? {
      return m, Failure(v.err);
    }
    m := m.(previousTxSatoshis := v.value);
    var s;
    s, err := ScriptPools.ReadScript(src, pool, MaxTxInPerMessage(ebs));
    m := m.(previousTxScript := s);
  }

  // readExtendedTxIn: a plain input, then the spent output. mid is the state of the loans
  // between the two; on failure at most the signature script is on loan.
  method ReadExtTxIn(src: Source, pool: Pool, ebs: uint64, ghost outs: seq<Slice>)
    returns (m: MemTxIn, p: MemSpent, err: Outcome, ghost mid: map<Slice, bytes>)
    requires pool.Valid() && src.Valid()
    modifies src, src.base, pool, pool.repr
    ensures pool.Valid() && src.Valid()
    ensures old(pool.repr) <= pool.repr && fresh(pool.repr - old(pool.repr))
    ensures Added(old(pool.lent), mid, m.signatureScript)
    ensures err.Failure? ==> pool.lent == mid
    ensures var spec := TakeExtTxIn(ebs, src.View(), old(src.base.pos));
            && err == spec.Outcome() && src.base.pos == spec.next
            && (err.Success? ==>
                  && InBorrowed(mid, m, spec.value.Plain())
                  && p.previousTxSatoshis == spec.value.previousTxSatoshis
                  && p.previousTxScript.Slice? && p.previousTxScript !in mid
                  && p.previousTxScript.cap == CapFor(|spec.value.previousTxScript|)
                  && pool.lent == mid[p.previousTxScript := spec.value.previousTxScript]
                  && (p.previousTxScript.cap == BUFFER_SIZE || p.previousTxScript !in outs))
  {
    hide TakeTxIn, TakeU64, TakeVarBytes, MaxTxInPerMessage, Pool.Valid, InBorrowed, Added;
    p := MemSpent(0, Nil);
    m, err := ReadTxIn(src, pool, ebs);
    mid := pool.lent;
    if err.Success? {
      p, err := ReadSpent(src, pool, ebs);
    }
  }

  // What the loop over the inputs keeps, after the inputs vals.
  ghost predicate Reading(
    base: map<Slice, bytes>, kept: map<Slice, bytes>, lent: map<Slice, bytes>, txIn: seq<MemTxIn>,
    spent: seq<MemSpent>, vals: seq<ExtTxIn>, outs: seq<Slice>)
  {
    && Kept(base, kept, spent) && (Foreign(base, outs) ==> Foreign(kept, outs))
    && OnLoan(kept, lent, NonNil(InScripts(txIn)))
    && InsBorrowed(lent, txIn, PlainIns(vals)) && SpentsHold(kept, spent, vals)
  }

  lemma ReadingStarts(base: map<Slice, bytes>, outs: seq<Slice>)
    ensures Reading(base, base, base, [], [], [], outs) && Concat(InBytes(PlainIns([]))) == []
  {
    KeptNothing(base);
  }

  lemma ReadingStops(
    base: map<Slice, bytes>, kept: map<Slice, bytes>, lent: map<Slice, bytes>, txIn: seq<MemTxIn>,
    spent: seq<MemSpent>, vals: seq<ExtTxIn>, outs: seq<Slice>, mid: map<Slice, bytes>, m: MemTxIn)
    requires Reading(base, kept, lent, txIn, spent, vals, outs) && Added(lent, mid, m.signatureScript)
    ensures OnLoan(kept, mid, NonNil(InScripts(txIn + [m]))) && Extends(mid, lent)
  {
    hide OnLoan, NonNil, Kept, Foreign, InsBorrowed, SpentsHold, Concat, Added;
    AddedOnLoan(kept, lent, mid, InScripts(txIn), m.signatureScript);
    InScriptsAppend(txIn, [], m, TxIn(m.previousOutPoint, [], 0));
  }

  lemma ReadingGoesOn(
    base: map<Slice, bytes>, kept: map<Slice, bytes>, lent: map<Slice, bytes>, txIn: seq<MemTxIn>,
    spent: seq<MemSpent>, vals: seq<ExtTxIn>, outs: seq<Slice>, mid: map<Slice, bytes>,
    m: MemTxIn, p: MemSpent, v: ExtTxIn)
    requires Reading(base, kept, lent, txIn, spent, vals, outs) && Added(lent, mid, m.signatureScript)
    requires InBorrowed(mid, m, v.Plain()) && p.previousTxSatoshis == v.previousTxSatoshis
    requires p.previousTxScript.Slice? && p.previousTxScript !in mid
    requires p.previousTxScript.cap == CapFor(|v.previousTxScript|)
    requires p.previousTxScript.cap == BUFFER_SIZE || p.previousTxScript !in outs
    ensures var s, b := p.previousTxScript, v.previousTxScript;
            Reading(base, kept[s := b], mid[s := b], txIn + [m], spent + [p], vals + [v], outs)
    ensures m.signatureScript.Len() == |v.signatureScript|
    ensures Concat(InBytes(PlainIns(vals + [v]))) == Concat(InBytes(PlainIns(vals))) + v.signatureScript
  {
    hide OnLoan, NonNil, Kept, InsBorrowed, InBorrowed, SpentsHold, Concat, Added, PlainIns, InBytes;
    var s, b := p.previousTxScript, v.previousTxScript;
    ReadingStops(base, kept, lent, txIn, spent, vals, outs, mid, m);
    InsBorrowedStep(lent, mid, txIn, PlainIns(vals), m, v.Plain());
    KeepOne(base, kept, mid, NonNil(InScripts(txIn + [m])), spent, p, b);
    InsBorrowedStep(mid, mid[s := b], txIn + [m], PlainIns(vals) + [v.Plain()], m, v.Plain());
    SpentsAppend(kept, kept[s := b], spent, vals, p, v);
    InScriptsAppend(txIn, PlainIns(vals), m, v.Plain());
    BorrowedLength(mid, m, v.Plain());
  }

  method ReadExtTxIns(msg: MsgExtTx, src: Source, pool: Pool, ebs: uint64, count: uint64)
    returns (err: Outcome, total: nat, ghost kept: map<Slice, bytes>)
    requires pool.Valid() && src.Valid()
    modifies msg`spent, msg.plain`txIn, src, src.base, pool, pool.repr
    ensures pool.Valid() && src.Valid()
    ensures old(pool.repr) <= pool.repr && fresh(pool.repr - old(pool.repr))
    ensures Kept(old(pool.lent), kept, msg.spent)
    ensures old(Foreign(pool.lent, OutScripts(msg.plain.txOut))) ==> Foreign(kept, OutScripts(msg.plain.txOut))
    ensures OnLoan(kept, pool.lent, NonNil(InScripts(msg.plain.txIn)))
    ensures SpentRead(ebs, src.View(), old(src.base.pos), count, msg.spent, kept)
    ensures var spec := TakeExtTxIns(ebs, src.View(), old(src.base.pos), count);
            && err == spec.Outcome() && src.base.pos == spec.next
            && (err.Success? ==>
                  && InsBorrowed(pool.lent, msg.plain.txIn, PlainIns(spec.value))
                  && |msg.spent| == count && SpentsHold(kept, msg.spent, spec.value)
                  && total == |Concat(InBytes(PlainIns(spec.value)))|)
  {
    hide TakeExtTxIn, TakeExtTxIns, Pool.Valid, Kept, OnLoan, Concat, Foreign, InsBorrowed, InBorrowed, InScripts;
    hide OutScripts, InBytes, Added, PlainIns, SpentsHold, NonNil;
    ghost var vals: seq<ExtTxIn>, outs := [], OutScripts(msg.plain.txOut);
    ReadingStarts(pool.lent, outs);
    msg.plain.txIn, msg.spent := [], [];
    total := 0;
    kept := pool.lent;
    for i := 0 to count
      invariant pool.Valid() && src.Valid()
      invariant old(pool.repr) <= pool.repr && fresh(pool.repr - old(pool.repr))
      invariant Reading(old(pool.lent), kept, pool.lent, msg.plain.txIn, msg.spent, vals, outs)
      invariant |msg.spent| == i && TakeExtTxIns(ebs, src.View(), old(src.base.pos), i) == Ok(vals, src.base.pos)
      invariant total == |Concat(InBytes(PlainIns(vals)))|
    {
      TakeExtTxInsStep(ebs, src.View(), old(src.base.pos), i, count);
      TakeExtTxInsStep(ebs, src.View(), old(src.base.pos), i, i + 1);
      ghost var before, v := pool.lent, TakeExtTxIn(ebs, src.View(), src.base.pos);
      var m, p;
      ghost var mid;
      m, p, err, mid := ReadExtTxIn(src, pool, ebs, outs);
      ReadingStops(old(pool.lent), kept, before, msg.plain.txIn, msg.spent, vals, outs, mid, m);
      if err.Failure? {
        msg.plain.txIn := msg.plain.txIn + [m];
        return;
      }
      ReadingGoesOn(old(pool.lent), kept, before, msg.plain.txIn, msg.spent, vals, outs, mid, m, p, v.value);
      kept := kept[p.previousTxScript := v.value.previousTxScript];
      msg.plain.txIn, msg.spent, vals := msg.plain.txIn + [m], msg.spent + [p], vals + [v.value];
      total := total + m.signatureScript.Len();
    }
    err := Success;
  }

  // The message is t: scripts consolidated as for a plain transaction, spent-output
  // scripts in buffers that are still on loan.
  ghost predicate HoldsExt(msg: MsgExtTx, scripts: array<byte>, lent: map<Slice, bytes>, t: ExtTx)
    reads msg, msg.plain, scripts
  {
    Consolidated(msg.plain, scripts, t.Plain()) && SpentsHold(lent, msg.spent, t.txIn)
  }

  // Version, marker and count.
  method ReadExtHead(msg: MsgExtTx, src: Source, ebs: uint64) returns (count: Parsed<uint64>)
    requires src.Valid()
    modifies msg.plain`version, src, src.base
    ensures src.Valid()
    ensures count == TakeExtCount(ebs, src.View(), old(src.base.pos)) && src.base.pos == count.next
    ensures count.Ok? ==>
              var v := TakeU32(src.View(), old(src.base.pos)); v.Ok? && msg.plain.version == AsInt32(v.value)
  {
    hide TakeU32, TakeVarInt, TakeN, MaxTxInPerMessage;
    var version := ReadU32(src);
    if version.Fail? {
      return Fail(version.err, version.next);
    }
    msg.plain.version := AsInt32(version.value);
    var zero := ReadVarInt(src);
    if zero.Fail? {
      return Fail(zero.err, zero.next);
    }
    var efHeader := src.ReadFull(5);
    if efHeader.Fail? {
      return Fail(efHeader.err, efHeader.next);
    }
    if zero.value != 0 || efHeader.value != EF_HEADER {
      return Fail(BadExtendedMarker, efHeader.next);
    }
    var n := ReadVarInt(src);
    if n.Fail? {
      return Fail(n.err, n.next);
    }
    if n.value > MaxTxInPerMessage(ebs) {
      return Fail(TooManyInputs, n.next);
    }
    return Ok(n.value, n.next);
  }

  // The decode fails after the inputs began and before the outputs are replaced.
  predicate GivesOldBack(ebs: uint64, s: bytes, p: nat) {
    var head := TakeExtCount(ebs, s, p);
    head.Ok? &&
    var ins := TakeExtTxIns(ebs, s, head.next, head.value);
    ins.Fail? || !OutputsBegin(ebs, s, ins.next)
  }

  // The extended decoder agrees with the parser in outcome and position, whatever the
  // receiver held before. The loans are those at the start plus, each once, the buffers of
  // the spent-output scripts of the inputs that were read completely, which are listed in
  // spent, unless the decode gives back old output scripts of the receiver and the pool
  // mistakes one of them for its own.
  method DecodeExtTx(msg: MsgExtTx, src: Source, pool: Pool, ebs: uint64)
    returns (err: Outcome, ghost scripts: array?<byte>, ghost spent: seq<MemSpent>)
    requires pool.Valid() && src.Valid()
    modifies msg, msg.plain, src, src.base, pool, pool.repr
    ensures src.Valid()
    ensures old(pool.repr) <= pool.repr && fresh(pool.repr - old(pool.repr))
    ensures
      || !GivesOldBack(ebs, src.View(), old(src.base.pos)) || old(Foreign(pool.lent, OutScripts(msg.plain.txOut)))
      ==>
        && pool.Valid() && Kept(old(pool.lent), pool.lent, spent)
        && SpentOf(ebs, src.View(), old(src.base.pos), spent, pool.lent)
        && (pool.lent == old(pool.lent) <==> !ReadsAnInput(ebs, src.View(), old(src.base.pos)))
        && (NoBufferLost(old(pool.lent), pool.lent) <==> !KeepsABuffer(ebs, src.View(), old(src.base.pos)))
    ensures GivesOldBack(ebs, src.View(), old(src.base.pos)) ==>
              err.Failure? && HandedInLast(pool.free, old(OutScripts(msg.plain.txOut)))
    ensures var spec := TakeExtTx(ebs, src.View(), old(src.base.pos));
            && err == spec.Outcome() && src.base.pos == spec.next
            && (err.Success? ==>
                  && scripts != null && fresh(scripts) && scripts !in pool.repr
                  && spent == msg.spent && HoldsExt(msg, scripts, pool.lent, spec.value))
  {
    hide TakeU32, TakeExtCount, TakeExtTxIns, TakeTail, TakeExtTx, Pool.Valid, Kept, OnLoan, InsBorrowed, InScripts;
    hide OutScripts, NonNil, Consolidated, Concat, InBytes, OutBytes, SpentsHold, PlainIns, SpentRead, ReadsAnInput;
    hide NoBufferLost, KeepsABuffer, Foreign, HandedInLast, OutputsBegin;
    scripts, spent := null, [];
    KeptNothing(pool.lent);
    ghost var view, start := src.View(), src.base.pos;
    TakeExtTxSplit(ebs, view, start);
    var count := ReadExtHead(msg, src, ebs);
    if count.Fail? {
      LeavesNoLoan(ebs, view, start, old(pool.lent), pool.lent, spent);
      LosesNoBuffer(ebs, view, start, old(pool.lent), pool.lent, spent);
      return Failure(count.err), null, spent;
    }
    ghost var ins := TakeExtTxIns(ebs, view, src.base.pos, count.value);
    var inSize;
    ghost var kept;
    err, inSize, kept := ReadExtTxIns(msg, src, pool, ebs, count.value);
    spent := msg.spent;
    LeavesNoLoan(ebs, view, start, old(pool.lent), kept, spent);
    LosesNoBuffer(ebs, view, start, old(pool.lent), kept, spent);
    NoOutputsYet(msg.plain.txIn);
    if err.Failure? {
      ReturnScriptBuffers(msg.plain, pool, kept, true);
      return;
    }
    err, scripts := DecodeTail(msg.plain, src, pool, ebs, inSize, kept, PlainIns(ins.value));
  }
}
