/**
 The two transaction decoders, side by side: whatever the bytes, the pool path and
 the arena path report the same outcome at the same position, and on success their
 messages denote the same transaction.
 */
module DecoderAgreement {
  import opened Bytes
  import opened Parsing
  import opened Transactions
  import opened Streams
  import opened Arenas
  import opened TxMemory
  import opened ScriptPools
  import opened PoolDecoding
  import ArenaDecoding
  import opened Denotation

  lemma ConsolidatedDenotes(msg: MsgTx, scripts: array<byte>, t: Tx)
    requires Consolidated(msg, scripts, t)
    ensures Denotes(msg, t)
  {
    ConsolidatedScripts(msg, scripts, t);
    forall i | 0 <= i < |t.txIn|
      ensures InDenotes(msg.txIn, i, t.txIn[i])
    {
      assert InScripts(msg.txIn)[i] == msg.txIn[i].signatureScript;
    }
    forall i | 0 <= i < |t.txOut|
      ensures OutDenotes(msg.txOut, i, t.txOut[i])
    {
      assert OutScripts(msg.txOut)[i] == msg.txOut[i].pkScript;
    }
  }

  lemma HeldDenotes(msg: MsgTx, a: Arena, t: Tx)
    requires a.Valid() && msg.HoldsTx(a.cells, t)
    ensures Denotes(msg, t)
  {
    hide Arena.Valid;
    forall i | 0 <= i < |t.txIn|
      ensures InDenotes(msg.txIn, i, t.txIn[i])
    {
      assert InHolds(a.cells, msg.txIn[i], t.txIn[i]);
      HeldContents(a, msg.txIn[i].signatureScript, t.txIn[i].signatureScript);
    }
    forall i | 0 <= i < |t.txOut|
      ensures OutDenotes(msg.txOut, i, t.txOut[i])
    {
      assert OutHolds(a.cells, msg.txOut[i], t.txOut[i]);
      HeldContents(a, msg.txOut[i].pkScript, t.txOut[i].pkScript);
    }
  }

  // The outcome of a decode at start and, on success, what the message denotes.
  ghost predicate Decoded(msg: MsgTx, err: Outcome, pos: nat, spec: Parsed<Tx>)
    reads msg, ScriptMemory(msg)
  {
    err == spec.Outcome() && pos == spec.next && (err.Success? ==> Denotes(msg, spec.value))
  }

  method DecodeViaPool(data: bytes, start: nat, ebs: uint64) returns (msg: MsgTx, err: Outcome, pos: nat)
    requires start <= |data|
    ensures Decoded(msg, err, pos, TakeTx(ebs, data, start))
  {
    hide Consolidated, Denotes, TakeTx, Pool.Valid;
    msg := new MsgTx();
    var stream := new Stream(data);
    stream.pos := start;
    var src := new Source.Plain(stream);
    assert src.View() == data;
    var pool := new Pool();
    ghost var scripts;
    err, scripts := PoolDecoding.DecodeTx(msg, src, pool, ebs);
    pos := stream.pos;
    if err.Success? {
      ConsolidatedDenotes(msg, scripts, TakeTx(ebs, data, start).value);
    }
  }

  method DecodeViaArena(data: bytes, start: nat, ebs: uint64, hint: int) returns (msg: MsgTx, err: Outcome, pos: nat)
    requires start <= |data|
    ensures Decoded(msg, err, pos, TakeTx(ebs, data, start))
  {
    hide Denotes, MsgTx.HoldsTx, TakeTx, Arena.Valid;
    msg := new MsgTx();
    var stream := new Stream(data);
    stream.pos := start;
    var src := new Source.Plain(stream);
    assert src.View() == data;
    var arena := new Arena(hint);
    err := ArenaDecoding.DecodeTx(msg, src, arena, ebs);
    pos := stream.pos;
    if err.Success? {
      HeldDenotes(msg, arena, TakeTx(ebs, data, start).value);
    }
  }

  // Two messages that denote the same transaction agree field by field and script
  // by script, wherever the scripts live.
  ghost predicate SameTx(m: MsgTx, n: MsgTx)
    reads m, n, ScriptMemory(m), ScriptMemory(n)
  {
    exists t :: Denotes(m, t) && Denotes(n, t)
  }

  method DecodersAgree(data: bytes, start: nat, ebs: uint64, hint: int)
    returns (m: MsgTx, err: Outcome, pos: nat, n: MsgTx, err': Outcome, pos': nat)
    requires start <= |data|
    ensures err == err' && pos == pos'
    ensures err.Success? ==> SameTx(m, n)
  {
    hide Denotes, TakeTx;
    m, err, pos := DecodeViaPool(data, start, ebs);
    ghost var memory := ScriptMemory(m);
    n, err', pos' := DecodeViaArena(data, start, ebs, hint);
    assert ScriptMemory(m) == memory;
  }
}
