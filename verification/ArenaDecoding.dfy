/**
 Decoding transactions and blocks with scripts read straight into the arena
 (bsvdecodeWithArena in msg_tx.go, Bsvdecode in msg_block.go), proved to compute
 what the pure parser computes.
 */
module ArenaDecoding {
  import opened Bytes
  import opened Parsing
  import opened VarInts
  import opened Repetition
  import opened Limits
  import opened Transactions
  import opened Blocks
  import opened Streams
  import opened Memory
  import opened Arenas
  import opened TxMemory

  method ReadOutPoint(src: Source) returns (r: Parsed<OutPoint>)
    requires src.Valid()
    modifies src, src.base
    ensures src.Valid()
    ensures r == TakeOutPoint(src.View(), old(src.base.pos)) && src.base.pos == r.next
  {
    hide TakeHash, TakeU32;
    var h := ReadHash(src);
    if h.Fail? {
      return Fail(h.err, h.next);
    }
    var i := ReadU32(src);
    if i.Fail? {
      return Fail(i.err, i.next);
    }
    return Ok(OutPoint(h.value, i.value), i.next);
  }

  // ---------- How much script there is ----------

  function InScriptBytes(vs: seq<TxIn>): nat {
    if vs == [] then 0 else InScriptBytes(vs[..|vs| - 1]) + |vs[|vs| - 1].signatureScript|
  }

  function OutScriptBytes(vs: seq<TxOut>): nat {
    if vs == [] then 0 else OutScriptBytes(vs[..|vs| - 1]) + |vs[|vs| - 1].pkScript|
  }

  function ScriptBytes(t: Tx): nat { InScriptBytes(t.txIn) + OutScriptBytes(t.txOut) }

  function TxsScriptBytes(ts: seq<Tx>): nat {
    if ts == [] then 0 else TxsScriptBytes(ts[..|ts| - 1]) + ScriptBytes(ts[|ts| - 1])
  }

  lemma NoScripts()
    ensures InScriptBytes([]) == 0 && OutScriptBytes([]) == 0 && TxsScriptBytes([]) == 0
  {
  }

  lemma InScriptBytesAppend(vs: seq<TxIn>, v: TxIn)
    ensures InScriptBytes(vs + [v]) == InScriptBytes(vs) + |v.signatureScript|
  {
    assert (vs + [v])[..|vs|] == vs;
  }

  lemma OutScriptBytesAppend(vs: seq<TxOut>, v: TxOut)
    ensures OutScriptBytes(vs + [v]) == OutScriptBytes(vs) + |v.pkScript|
  {
    assert (vs + [v])[..|vs|] == vs;
  }

  lemma TxsScriptBytesAppend(ts: seq<Tx>, t: Tx)
    ensures TxsScriptBytes(ts + [t]) == TxsScriptBytes(ts) + ScriptBytes(t)
  {
    assert (ts + [t])[..|ts|] == ts;
  }

  lemma {:induction false} InScriptsEncoded(vs: seq<TxIn>)
    ensures InScriptBytes(vs) <= |EncTxIns(vs)|
  {
    hide LE, EncVarInt;
    if vs != [] {
      var n := |vs| - 1;
      InScriptsEncoded(vs[..n]);
      EncManyAppend(EncTxIn, vs[..n], vs[n]);
      assert vs[..n] + [vs[n]] == vs;
    }
  }

  lemma {:induction false} OutScriptsEncoded(vs: seq<TxOut>)
    ensures OutScriptBytes(vs) <= |EncTxOuts(vs)|
  {
    hide LE, EncVarInt;
    if vs != [] {
      var n := |vs| - 1;
      OutScriptsEncoded(vs[..n]);
      EncManyAppend(EncTxOut, vs[..n], vs[n]);
      assert vs[..n] + [vs[n]] == vs;
    }
  }

  lemma {:induction false} ScriptsEncoded(ts: seq<Tx>)
    ensures TxsScriptBytes(ts) <= |EncTxs(ts)|
  {
    hide LE, EncVarInt, EncTxIns, EncTxOuts;
    if ts != [] {
      var n := |ts| - 1;
      var t := ts[n];
      ScriptsEncoded(ts[..n]);
      InScriptsEncoded(t.txIn);
      OutScriptsEncoded(t.txOut);
      EncManyAppend(EncTx, ts[..n], t);
      assert ts[..n] + [t] == ts;
    }
  }

  // A length-prefixed script, read into a fresh slice of the arena.
  method ReadScript(src: Source, a: Arena, max: uint64) returns (s: Slice, err: Outcome)
    requires a.Valid() && src.Valid()
    modifies a, a.Chunks(), src, src.base
    ensures a.Valid() && src.Valid()
    ensures fresh(a.Chunks() - old(a.Chunks()))
    ensures Extends(a.cells, old(a.cells))
    ensures var spec := TakeVarBytes(src.View(), old(src.base.pos), max, ScriptTooLong);
            && err == spec.Outcome() && src.base.pos == spec.next
            && (err.Success? ==> Holds(a.cells, s, spec.value) && a.requested == old(a.requested) + |spec.value|)
  {
    hide TakeVarInt, TakeN, Arena.Valid;
    var scriptLen := ReadVarInt(src);
    if scriptLen.Fail? {
      return Nil, Failure(scriptLen.err);
    }
    if scriptLen.value > max {
      return Nil, Failure(ScriptTooLong);
    }
    s, err := AllocAndRead(a, src, scriptLen.value);
  }

  method ReadTxIn(src: Source, a: Arena, ebs: uint64) returns (m: MemTxIn, err: Outcome)
    requires a.Valid() && src.Valid()
    modifies a, a.Chunks(), src, src.base
    ensures a.Valid() && src.Valid()
    ensures fresh(a.Chunks() - old(a.Chunks()))
    ensures Extends(a.cells, old(a.cells))
    ensures var spec := TakeTxIn(ebs, src.View(), old(src.base.pos));
            && err == spec.Outcome() && src.base.pos == spec.next
            && (err.Success? ==>
                  && InHolds(a.cells, m, spec.value)
                  && a.requested == old(a.requested) + |spec.value.signatureScript|)
  {
    hide TakeOutPoint, TakeVarBytes, TakeU32, MaxTxInPerMessage, Arena.Valid;
    m := MemTxIn(OutPoint(Zeros(32), 0), Nil, 0);
    var o := ReadOutPoint(src);
    if o.Fail? {
      return m, Failure(o.err);
    }
    m := m.(previousOutPoint := o.value);
    var s;
    s, err := ReadScript(src, a, MaxTxInPerMessage(ebs));
    if err.Failure? {
      return;
    }
    m := m.(signatureScript := s);
    var n := ReadU32(src);
    if n.Fail? {
      return m, Failure(n.err);
    }
    m := m.(sequence := n.value);
  }

  method ReadTxOut(src: Source, a: Arena, ebs: uint64) returns (m: MemTxOut, err: Outcome)
    requires a.Valid() && src.Valid()
    modifies a, a.Chunks(), src, src.base
    ensures a.Valid() && src.Valid()
    ensures fresh(a.Chunks() - old(a.Chunks()))
    ensures Extends(a.cells, old(a.cells))
    ensures var spec := TakeTxOut(ebs, src.View(), old(src.base.pos));
            && err == spec.Outcome() && src.base.pos == spec.next
            && (err.Success? ==>
                  && OutHolds(a.cells, m, spec.value)
                  && a.requested == old(a.requested) + |spec.value.pkScript|)
  {
    hide TakeVarBytes, TakeU64, MaxMessagePayload, Arena.Valid;
    m := MemTxOut(0, Nil);
    var v := ReadU64(src);
    if v.Fail? {
      return m, Failure(v.err);
    }
    m := m.(value := AsInt64(v.value));
    var s;
    s, err := ReadScript(src, a, MaxMessagePayload(ebs));
    if err.Failure? {
      return;
    }
    m := m.(pkScript := s);
  }

  method ReadTxIns(msg: MsgTx, src: Source, a: Arena, ebs: uint64, count: uint64) returns (err: Outcome)
    requires a.Valid() && src.Valid()
    modifies msg`txIn, a, a.Chunks(), src, src.base
    ensures a.Valid() && src.Valid()
    ensures fresh(a.Chunks() - old(a.Chunks()))
    ensures Extends(a.cells, old(a.cells))
    ensures var spec := TakeTxIns(ebs, src.View(), old(src.base.pos), count);
            && err == spec.Outcome() && src.base.pos == spec.next
            && (err.Success? ==>
                  && InsHold(a.cells, msg.txIn, spec.value)
                  && a.requested == old(a.requested) + InScriptBytes(spec.value))
  {
    hide TakeTxIn, TakeTxIns, Arena.Valid, InScriptBytes;
    assert InScriptBytes([]) == 0 by { NoScripts(); }
    ghost var vals := [];
    msg.txIn := [];
    for i := 0 to count
      invariant a.Valid() && src.Valid()
      invariant fresh(a.Chunks() - old(a.Chunks()))
      invariant Extends(a.cells, old(a.cells))
      invariant TakeTxIns(ebs, src.View(), old(src.base.pos), i) == Ok(vals, src.base.pos)
      invariant InsHold(a.cells, msg.txIn, vals)
      invariant a.requested == old(a.requested) + InScriptBytes(vals)
    {
      ghost var before, spec := a.cells, TakeTxIn(ebs, src.View(), src.base.pos);
      TakeTxInsStep(ebs, src.View(), old(src.base.pos), i, count);
      var m;
      m, err := ReadTxIn(src, a, ebs);
      InsKept(a.cells, before, msg.txIn, vals);
      msg.txIn := msg.txIn + [m];
      if err.Failure? {
        return;
      }
      InScriptBytesAppend(vals, spec.value);
      vals := vals + [spec.value];
    }
    err := Success;
  }

  method ReadTxOuts(msg: MsgTx, src: Source, a: Arena, ebs: uint64, count: uint64) returns (err: Outcome)
    requires a.Valid() && src.Valid()
    modifies msg`txOut, a, a.Chunks(), src, src.base
    ensures a.Valid() && src.Valid()
    ensures fresh(a.Chunks() - old(a.Chunks()))
    ensures Extends(a.cells, old(a.cells))
    ensures var spec := TakeTxOuts(ebs, src.View(), old(src.base.pos), count);
            && err == spec.Outcome() && src.base.pos == spec.next
            && (err.Success? ==>
                  && OutsHold(a.cells, msg.txOut, spec.value)
                  && a.requested == old(a.requested) + OutScriptBytes(spec.value))
  {
    hide TakeTxOut, TakeTxOuts, Arena.Valid, OutScriptBytes;
    assert OutScriptBytes([]) == 0 by { NoScripts(); }
    ghost var vals := [];
    msg.txOut := [];
    for i := 0 to count
      invariant a.Valid() && src.Valid()
      invariant fresh(a.Chunks() - old(a.Chunks()))
      invariant Extends(a.cells, old(a.cells))
      invariant TakeTxOuts(ebs, src.View(), old(src.base.pos), i) == Ok(vals, src.base.pos)
      invariant OutsHold(a.cells, msg.txOut, vals)
      invariant a.requested == old(a.requested) + OutScriptBytes(vals)
    {
      ghost var before, spec := a.cells, TakeTxOut(ebs, src.View(), src.base.pos);
      TakeTxOutsStep(ebs, src.View(), old(src.base.pos), i, count);
      var m;
      m, err := ReadTxOut(src, a, ebs);
      OutsKept(a.cells, before, msg.txOut, vals);
      msg.txOut := msg.txOut + [m];
      if err.Failure? {
        return;
      }
      OutScriptBytesAppend(vals, spec.value);
      vals := vals + [spec.value];
    }
    err := Success;
  }

  // The counted outputs and the lock time.
  method ReadTail(msg: MsgTx, src: Source, a: Arena, ebs: uint64) returns (err: Outcome)
    requires a.Valid() && src.Valid()
    modifies msg`txOut, msg`lockTime, a, a.Chunks(), src, src.base
    ensures a.Valid() && src.Valid()
    ensures fresh(a.Chunks() - old(a.Chunks()))
    ensures Extends(a.cells, old(a.cells))
    ensures var spec := TakeTail(ebs, src.View(), old(src.base.pos));
            && err == spec.Outcome() && src.base.pos == spec.next
            && (err.Success? ==>
                  && OutsHold(a.cells, msg.txOut, spec.value.0) && msg.lockTime == spec.value.1
                  && a.requested == old(a.requested) + OutScriptBytes(spec.value.0))
  {
    hide TakeU32, TakeVarInt, TakeTxOuts, MaxTxOutPerMessage;
    hide Arena.Valid, OutsHold, OutScriptBytes;
    var outCount := ReadVarInt(src);
    if outCount.Fail? {
      return Failure(outCount.err);
    }
    if outCount.value > MaxTxOutPerMessage(ebs) {
      return Failure(TooManyOutputs);
    }
    err := ReadTxOuts(msg, src, a, ebs, outCount.value);
    if err.Failure? {
      return;
    }
    var lockTime := ReadU32(src);
    if lockTime.Fail? {
      return Failure(lockTime.err);
    }
    msg.lockTime := lockTime.value;
  }

  // The decoder agrees with the parser in outcome and position, and on success
  // every script slice holds its own bytes.
  method DecodeTx(msg: MsgTx, src: Source, a: Arena, ebs: uint64) returns (err: Outcome)
    requires a.Valid() && src.Valid()
    modifies msg, a, a.Chunks(), src, src.base
    ensures a.Valid() && src.Valid()
    ensures fresh(a.Chunks() - old(a.Chunks()))
    ensures Extends(a.cells, old(a.cells))
    ensures var spec := TakeTx(ebs, src.View(), old(src.base.pos));
            && err == spec.Outcome() && src.base.pos == spec.next
            && (err.Success? ==>
                  msg.HoldsTx(a.cells, spec.value) && a.requested == old(a.requested) + ScriptBytes(spec.value))
  {
    hide TakeU32, TakeVarInt, TakeTxIns, TakeTail, MaxTxInPerMessage;
    hide Arena.Valid, InsHold, OutsHold, InScriptBytes, OutScriptBytes;
    var version := ReadU32(src);
    if version.Fail? {
      return Failure(version.err);
    }
    msg.version := AsInt32(version.value);
    var inCount := ReadVarInt(src);
    if inCount.Fail? {
      return Failure(inCount.err);
    }
    if inCount.value > MaxTxInPerMessage(ebs) {
      return Failure(TooManyInputs);
    }
    ghost var ins := TakeTxIns(ebs, src.View(), src.base.pos, inCount.value);
    err := ReadTxIns(msg, src, a, ebs, inCount.value);
    if err.Failure? {
      return;
    }
    ghost var before := a.cells;
    err := ReadTail(msg, src, a, ebs);
    if err.Success? {
      InsKept(a.cells, before, msg.txIn, ins.value);
    }
  }

  // ---------- Blocks ----------

  method ReadHeader(src: Source) returns (r: Parsed<BlockHeader>)
    requires src.Valid()
    modifies src, src.base
    ensures src.Valid()
    ensures r == TakeHeader(src.View(), old(src.base.pos)) && src.base.pos == r.next
  {
    hide TakeU32, TakeHash;
    var version := ReadU32(src);
    if version.Fail? {
      return Fail(version.err, version.next);
    }
    var prev := ReadHash(src);
    if prev.Fail? {
      return Fail(prev.err, prev.next);
    }
    var root := ReadHash(src);
    if root.Fail? {
      return Fail(root.err, root.next);
    }
    var time := ReadU32(src);
    if time.Fail? {
      return Fail(time.err, time.next);
    }
    var bits := ReadU32(src);
    if bits.Fail? {
      return Fail(bits.err, bits.next);
    }
    var nonce := ReadU32(src);
    if nonce.Fail? {
      return Fail(nonce.err, nonce.next);
    }
    return Ok(
      BlockHeader(AsInt32(version.value), prev.value, root.value, time.value, bits.value, nonce.value), nonce.next);
  }

  class MsgBlock {
    var header: BlockHeader
    var transactions: seq<MsgTx>

    constructor ()
      ensures transactions == []
    {
      header := BlockHeader(0, Zeros(32), Zeros(32), 0, 0, 0);
      transactions := [];
    }

    // The memory of the block is its header and, for every transaction, slices that
    // hold exactly the bytes of its scripts.
    ghost predicate HoldsBlock(cells: map<Slice, bytes>, b: Block)
      reads this, transactions
    {
      header == b.header && TxsHold(cells, transactions, b.transactions)
    }
  }

  ghost predicate TxsHold(cells: map<Slice, bytes>, ms: seq<MsgTx>, vs: seq<Tx>)
    reads ms
  {
    |ms| == |vs| && forall i :: 0 <= i < |ms| ==> ms[i].HoldsTx(cells, vs[i])
  }

  lemma NoTxsHold(cells: map<Slice, bytes>)
    ensures TxsHold(cells, [], [])
  {
  }

  lemma TxsHoldAppend(cells: map<Slice, bytes>, ms: seq<MsgTx>, vs: seq<Tx>, m: MsgTx, v: Tx)
    requires TxsHold(cells, ms, vs) && m.HoldsTx(cells, v)
    ensures TxsHold(cells, ms + [m], vs + [v])
  {
  }

  lemma TxsKept(later: map<Slice, bytes>, earlier: map<Slice, bytes>, ms: seq<MsgTx>, vs: seq<Tx>)
    requires Extends(later, earlier) && TxsHold(earlier, ms, vs)
    ensures TxsHold(later, ms, vs)
  {
    hide InsHold, OutsHold;
    forall i | 0 <= i < |ms|
      ensures ms[i].HoldsTx(later, vs[i])
    {
      InsKept(later, earlier, ms[i].txIn, vs[i].txIn);
      OutsKept(later, earlier, ms[i].txOut, vs[i].txOut);
    }
  }

  // int(txCount) * arenaScriptHintPerTx, wrapping as 64-bit arithmetic does.
  function ScriptHint(txCount: uint64): int { AsInt64(txCount * 256 % TWO64) }

  method ReadTxs(msg: MsgBlock, src: Source, a: Arena, ebs: uint64, count: uint64) returns (err: Outcome)
    requires src.Valid() && a.Valid()
    modifies msg`transactions, src, src.base, a, a.Chunks()
    ensures src.Valid() && a.Valid()
    ensures fresh(a.Chunks() - old(a.Chunks()))
    ensures var spec := TakeTxs(ebs, src.View(), old(src.base.pos), count);
            && err == spec.Outcome() && src.base.pos == spec.next
            && (err.Success? ==>
                  && TxsHold(a.cells, msg.transactions, spec.value)
                  && a.requested == old(a.requested) + TxsScriptBytes(spec.value))
  {
    hide TakeTx, TakeTxs, Arena.Valid, MsgTx.HoldsTx, TxsHold, TxsScriptBytes, ScriptBytes;
    NoTxsHold(a.cells);
    NoScripts();
    msg.transactions := [];
    ghost var vals := [];
    for i := 0 to count
      invariant src.Valid() && a.Valid()
      invariant fresh(a.Chunks() - old(a.Chunks())) && fresh(msg.transactions)
      invariant TakeTxs(ebs, src.View(), old(src.base.pos), i) == Ok(vals, src.base.pos)
      invariant TxsHold(a.cells, msg.transactions, vals)
      invariant a.requested == old(a.requested) + TxsScriptBytes(vals)
    {
      ghost var before, spec := a.cells, TakeTx(ebs, src.View(), src.base.pos);
      TakeTxsStep(ebs, src.View(), old(src.base.pos), i, count);
      var tx := new MsgTx();
      err := DecodeTx(tx, src, a, ebs);
      TxsKept(a.cells, before, msg.transactions, vals);
      if err.Success? {
        TxsHoldAppend(a.cells, msg.transactions, vals, tx, spec.value);
      }
      msg.transactions := msg.transactions + [tx];
      if err.Failure? {
        return;
      }
      TxsScriptBytesAppend(vals, spec.value);
      vals := vals + [spec.value];
    }
    err := Success;
  }

  // Decoding into shared chunks refines the parser: same outcome, same position,
  // and after the last transaction every script slice of every transaction still
  // holds exactly its own bytes. The arena's chunks take at most twice the bytes of the
  // scripts, and so at most twice the bytes of the block, plus one standard chunk.
  method DecodeBlock(msg: MsgBlock, src: Source, ebs: uint64) returns (err: Outcome, a: Arena)
    requires src.Valid()
    modifies msg, src, src.base
    ensures src.Valid() && a.Valid() && fresh(a) && fresh(a.Chunks())
    ensures var spec := TakeBlock(ebs, src.View(), old(src.base.pos));
            && err == spec.Outcome() && src.base.pos == spec.next
            && (err.Success? ==>
                  && msg.HoldsBlock(a.cells, spec.value)
                  && a.sizeHint == AsInt64(256 * |spec.value.transactions| % TWO64)
                  && a.TotalBytes() <= 2 * TxsScriptBytes(spec.value.transactions) + 4_194_304
                  && a.TotalBytes() <= 2 * (src.base.pos - old(src.base.pos)) + 4_194_304)
  {
    hide TakeHeader, TakeVarInt, TakeTxs, MaxTxPerBlock;
    hide Arena.Valid, TxsHold, TxsScriptBytes;
    var header := ReadHeader(src);
    a := new Arena(0);
    if header.Fail? {
      return Failure(header.err), a;
    }
    msg.header := header.value;
    var txCount := ReadVarInt(src);
    if txCount.Fail? {
      return Failure(txCount.err), a;
    }
    if txCount.value > MaxTxPerBlock(ebs) {
      return Failure(TooManyTransactions), a;
    }
    a := new Arena(ScriptHint(txCount.value));
    err := ReadTxs(msg, src, a, ebs, txCount.value);
    if err.Success? {
      a.SpaceBound();
      ScriptsConsumed(ebs, src.View(), old(src.base.pos));
    }
  }

  lemma ScriptsConsumed(ebs: uint64, s: bytes, p: nat)
    requires p <= |s| && TakeBlock(ebs, s, p).Ok?
    ensures TxsScriptBytes(TakeBlock(ebs, s, p).value.transactions) <= TakeBlock(ebs, s, p).next - p
  {
    hide TakeBlock, EncHeader, EncTxs, Has, BlockFits, TxsScriptBytes;
    var Ok(b, q) := TakeBlock(ebs, s, p);
    TakeBlockIff(ebs, s, p, b, q);
    ScriptsEncoded(b.transactions);
  }

  // After a successful block decode the memory is as promised: each script slice
  // has capacity equal to length and its contents are the script of the wire.
  lemma BlockScriptsInMemory(msg: MsgBlock, a: Arena, b: Block, i: nat)
    requires a.Valid() && msg.HoldsBlock(a.cells, b)
    requires i < |b.transactions|
    ensures |msg.transactions| == |b.transactions|
    ensures var m, t := msg.transactions[i], b.transactions[i];
            && |m.txIn| == |t.txIn| && |m.txOut| == |t.txOut|
            && (forall j :: 0 <= j < |t.txIn| ==>
                  && m.txIn[j].signatureScript.Sound()
                  && m.txIn[j].signatureScript.Contents() == t.txIn[j].signatureScript
                  && m.txIn[j].signatureScript.Cap() == m.txIn[j].signatureScript.Len())
            && (forall j :: 0 <= j < |t.txOut| ==>
                  && m.txOut[j].pkScript.Sound()
                  && m.txOut[j].pkScript.Contents() == t.txOut[j].pkScript
                  && m.txOut[j].pkScript.Cap() == m.txOut[j].pkScript.Len())
  {
    hide Arena.Valid;
    var m, t := msg.transactions[i], b.transactions[i];
    assert m.HoldsTx(a.cells, t);
    forall j | 0 <= j < |t.txIn|
      ensures var s := m.txIn[j].signatureScript;
              s.Sound() && s.Contents() == t.txIn[j].signatureScript && s.Cap() == s.Len()
    {
      assert InHolds(a.cells, m.txIn[j], t.txIn[j]);
      HeldContents(a, m.txIn[j].signatureScript, t.txIn[j].signatureScript);
    }
    forall j | 0 <= j < |t.txOut|
      ensures var s := m.txOut[j].pkScript;
              s.Sound() && s.Contents() == t.txOut[j].pkScript && s.Cap() == s.Len()
    {
      assert OutHolds(a.cells, m.txOut[j], t.txOut[j]);
      HeldContents(a, m.txOut[j].pkScript, t.txOut[j].pkScript);
    }
  }
}
