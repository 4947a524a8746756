/**
 Size and offset calculators, checked against the printers, and what the size of
 an encoding says about the decoder's limits (common.go, msg_tx.go, msg_block.go,
 msg_extended_tx.go).
 */
module Sizes {
  import opened Bytes
  import opened Parsing
  import opened VarInts
  import opened Repetition
  import opened Limits
  import opened Transactions
  import opened ExtendedTransactions
  import opened Blocks

  function VarIntSerializeSize(val: nat): (n: nat)
    ensures n == |EncVarInt(val)|
  {
    if val < 0xfd then 1
    else if val <= 0xffff then 3
    else if val <= 0xffff_ffff then 5
    else 9
  }

  function TxInSerializeSize(t: TxIn): (n: nat)
    ensures n == |EncTxIn(t)|
  {
    40 + VarIntSerializeSize(|t.signatureScript|) + |t.signatureScript|
  }

  function TxOutSerializeSize(t: TxOut): (n: nat)
    ensures n == |EncTxOut(t)|
  {
    8 + VarIntSerializeSize(|t.pkScript|) + |t.pkScript|
  }

  function ExtTxInSerializeSize(t: ExtTxIn): (n: nat)
    ensures n == |EncExtTxIn(t)|
  {
    40 + VarIntSerializeSize(|t.signatureScript|) + |t.signatureScript| +
    8 + VarIntSerializeSize(|t.previousTxScript|) + |t.previousTxScript|
  }

  lemma EncTxLength(t: Tx)
    ensures |EncTx(t)| == 8 + |EncVarInt(|t.txIn|)| + |EncVarInt(|t.txOut|)|
                          + |EncTxIns(t.txIn)| + |EncTxOuts(t.txOut)|
  {
  }

  method TxInsSize(txIn: seq<TxIn>, start: nat) returns (n: nat)
    ensures n == start + |EncTxIns(txIn)|
  {
    hide EncTxIn;
    n := start;
    for i := 0 to |txIn|
      invariant n == start + |EncTxIns(txIn[..i])|
    {
      n := n + TxInSerializeSize(txIn[i]);
      EncManyAppend(EncTxIn, txIn[..i], txIn[i]);
      assert txIn[..i + 1] == txIn[..i] + [txIn[i]];
    }
    assert txIn[..|txIn|] == txIn;
  }

  method TxSerializeSize(t: Tx) returns (n: nat)
    ensures n == |EncTx(t)|
  {
    hide EncTxIn, EncTxOut;
    n := 8 + VarIntSerializeSize(|t.txIn|) + VarIntSerializeSize(|t.txOut|);
    n := TxInsSize(t.txIn, n);
    ghost var start := n;
    for i := 0 to |t.txOut|
      invariant n == start + |EncTxOuts(t.txOut[..i])|
    {
      n := n + TxOutSerializeSize(t.txOut[i]);
      EncManyAppend(EncTxOut, t.txOut[..i], t.txOut[i]);
      assert t.txOut[..i + 1] == t.txOut[..i] + [t.txOut[i]];
    }
    assert t.txOut[..|t.txOut|] == t.txOut;
    EncTxLength(t);
  }

  method BlockSerializeSize(b: Block) returns (n: nat)
    ensures n == |EncBlock(b)|
  {
    hide EncTx, EncHeader;
    n := BLOCK_HEADER_LEN + VarIntSerializeSize(|b.transactions|);
    ghost var start := n;
    for i := 0 to |b.transactions|
      invariant n == start + |EncTxs(b.transactions[..i])|
    {
      var size := TxSerializeSize(b.transactions[i]);
      n := n + size;
      EncManyAppend(EncTx, b.transactions[..i], b.transactions[i]);
      assert b.transactions[..i + 1] == b.transactions[..i] + [b.transactions[i]];
    }
    assert b.transactions[..|b.transactions|] == b.transactions;
  }

  // ---------- Offsets of the output scripts ----------

  // Where the i-th output starts in the encoding of t.
  function TxOutStart(t: Tx, i: nat): nat
    requires i <= |t.txOut|
  {
    4 + |EncVarInt(|t.txIn|)| + |EncTxIns(t.txIn)| + |EncVarInt(|t.txOut|)| + |EncTxOuts(t.txOut[..i])|
  }

  lemma TxOutAtStart(t: Tx, i: nat)
    requires i < |t.txOut|
    ensures Has(EncTx(t), TxOutStart(t, i), EncTxOut(t.txOut[i]))
  {
    hide Has, LE, EncVarInt, EncMany, EncTxOut;
    var outs := EncTxOuts(t.txOut);
    var a := LE(4, AsUint32(t.version)) + EncVarInt(|t.txIn|) + EncTxIns(t.txIn) + EncVarInt(|t.txOut|);
    var z := LE(4, t.lockTime);
    assert EncTx(t) == a + outs + z by {
      assert EncTail(t.txOut, t.lockTime) == EncVarInt(|t.txOut|) + (outs + z);
    }
    HasWhole(a, outs, z);
    EncManyElement(EncTxOut, t.txOut, i);
    HasInside(EncTx(t), |a|, outs, |EncTxOuts(t.txOut[..i])|, EncTxOut(t.txOut[i]));
  }

  // An occurrence within an occurrence.
  lemma HasInside(s: bytes, p: nat, e: bytes, q: nat, f: bytes)
    requires Has(s, p, e) && Has(e, q, f)
    ensures Has(s, p + q, f)
  {
    var a, z := e[..q], e[q + |f|..];
    assert e == a + (f + z);
    HasConcat(s, p, a, f + z);
    HasConcat(s, p + q, f, z);
  }

  lemma PkScriptAt(t: Tx, i: nat)
    requires i < |t.txOut|
    ensures TxOutStart(t, i + 1) == TxOutStart(t, i) + |EncTxOut(t.txOut[i])|
    ensures Has(EncTx(t), TxOutStart(t, i + 1) - |t.txOut[i].pkScript|, t.txOut[i].pkScript)
  {
    hide Has, LE, EncVarInt, EncTx, EncTxIns;
    var o := t.txOut[i];
    var prefix := LE(8, AsUint64(o.value)) + EncVarInt(|o.pkScript|);
    TxOutAtStart(t, i);
    assert EncTxOut(o) == prefix + o.pkScript;
    HasConcat(EncTx(t), TxOutStart(t, i), prefix, o.pkScript);
    EncManyAppend(EncTxOut, t.txOut[..i], o);
    assert t.txOut[..i + 1] == t.txOut[..i] + [o];
  }

  // Each location is where the script of that output stands in the encoding.
  method PkScriptLocs(t: Tx) returns (locs: seq<nat>)
    ensures |locs| == |t.txOut|
    ensures forall i :: 0 <= i < |locs| ==> Has(EncTx(t), locs[i], t.txOut[i].pkScript)
  {
    hide Has, LE, EncVarInt, EncTx, EncTxIns, EncTxOut;
    if |t.txOut| == 0 {
      return [];
    }
    var n := 4 + VarIntSerializeSize(|t.txIn|) + VarIntSerializeSize(|t.txOut|);
    n := TxInsSize(t.txIn, n);
    locs := [];
    assert t.txOut[..0] == [];
    for i := 0 to |t.txOut|
      invariant |locs| == i
      invariant n == TxOutStart(t, i)
      invariant forall j :: 0 <= j < i ==> Has(EncTx(t), locs[j], t.txOut[j].pkScript)
    {
      var o := t.txOut[i];
      PkScriptAt(t, i);
      assert TxOutSerializeSize(o) == |EncTxOut(o)|;
      n := n + (8 + VarIntSerializeSize(|o.pkScript|));
      locs := locs + [n];
      n := n + |o.pkScript|;
    }
  }

  // ---------- Limits against encoded size ----------

  // The minimum sizes are attained, by the empty script and by the empty transaction.
  lemma TxInMinimum(i: TxIn)
    ensures |EncTxIn(i)| >= MIN_TX_IN_PAYLOAD
    ensures |EncTxIn(i)| == MIN_TX_IN_PAYLOAD <==> i.signatureScript == []
  {
  }

  lemma TxOutMinimum(o: TxOut)
    ensures |EncTxOut(o)| >= MIN_TX_OUT_PAYLOAD
    ensures |EncTxOut(o)| == MIN_TX_OUT_PAYLOAD <==> o.pkScript == []
  {
  }

  lemma TxMinimum(t: Tx)
    ensures |EncTx(t)| >= MIN_TX_PAYLOAD
    ensures |EncTx(t)| == MIN_TX_PAYLOAD <==> t.txIn == [] && t.txOut == []
  {
    hide EncTx, EncTxIns, EncTxOuts;
    EncTxLength(t);
    EncTxInsSize(t.txIn);
    EncTxOutsSize(t.txOut);
    NothingEncoded();
  }

  lemma NothingEncoded()
    ensures EncTxIns([]) == [] && EncTxOuts([]) == []
  {
  }

  // The byte cap on a script of an input, as a number of the excessive block size.
  function ScriptCap(ebs: uint64): nat { ebs / 1_000_000 * 2_097_152 / 41 + 1 }

  lemma ScriptCapIs(ebs: uint64)
    requires ebs < WRAP_BOUND
    ensures MaxTxInPerMessage(ebs) == ScriptCap(ebs)
  {
    hide MaxMessagePayload;
    MessageLimitWraps(ebs);
  }

  predicate SignatureScriptsFit(ebs: uint64, t: Tx) {
    forall i :: 0 <= i < |t.txIn| ==> |t.txIn[i].signatureScript| <= ScriptCap(ebs)
  }

  lemma EncTxInsSize(ins: seq<TxIn>)
    ensures |EncTxIns(ins)| >= |ins| * MIN_TX_IN_PAYLOAD
  {
    EncManyAtLeast(EncTxIn, ins, MIN_TX_IN_PAYLOAD);
  }

  lemma EncTxOutsSize(outs: seq<TxOut>)
    ensures |EncTxOuts(outs)| >= |outs| * MIN_TX_OUT_PAYLOAD
    ensures forall i :: 0 <= i < |outs| ==> |outs[i].pkScript| <= |EncTxOuts(outs)|
  {
    EncManyAtLeast(EncTxOut, outs, MIN_TX_OUT_PAYLOAD);
    forall i | 0 <= i < |outs|
      ensures |outs[i].pkScript| <= |EncTxOuts(outs)|
    {
      EncManyElement(EncTxOut, outs, i);
    }
  }

  // A transaction of at most ebs bytes passes every count check and every output
  // script check; the decoder takes it exactly when its signature scripts are
  // within the byte cap, which the encoder does not impose.
  lemma SizedTxFits(ebs: uint64, t: Tx)
    requires 1_000_000 <= ebs < WRAP_BOUND
    requires |EncTx(t)| <= ebs
    ensures |t.txIn| <= MaxTxInPerMessage(ebs)
    ensures TailFits(ebs, t.txOut)
    ensures TxFits(ebs, t) <==> SignatureScriptsFit(ebs, t)
  {
    hide EncTx, EncTxIns, EncTxOuts, EncVarInt, MaxMessagePayload, ScriptCap;
    MessageLimitAdmitsBlocks(ebs);
    ScriptCapIs(ebs);
    EncTxLength(t);
    EncTxInsSize(t.txIn);
    EncTxOutsSize(t.txOut);
  }

  // ---------- The same for extended transactions ----------

  predicate InputScriptsFit(ebs: uint64, t: ExtTx) {
    forall i :: 0 <= i < |t.txIn| ==>
      && |t.txIn[i].signatureScript| <= ScriptCap(ebs)
      && |t.txIn[i].previousTxScript| <= ScriptCap(ebs)
  }

  lemma EncExtTxLength(t: ExtTx)
    ensures |EncExtTx(t)| == 14 + |EncVarInt(|t.txIn|)| + |EncVarInt(|t.txOut|)|
                             + |EncExtTxIns(t.txIn)| + |EncTxOuts(t.txOut)|
  {
  }

  // Here both scripts of every input have the byte cap.
  lemma SizedExtTxFits(ebs: uint64, t: ExtTx)
    requires 1_000_000 <= ebs < WRAP_BOUND
    requires |EncExtTx(t)| <= ebs
    ensures |t.txIn| <= MaxTxInPerMessage(ebs)
    ensures TailFits(ebs, t.txOut)
    ensures ExtTxFits(ebs, t) <==> InputScriptsFit(ebs, t)
  {
    hide EncExtTx, EncTxOuts, EncVarInt, MaxMessagePayload, ScriptCap;
    MessageLimitAdmitsBlocks(ebs);
    ScriptCapIs(ebs);
    EncExtTxLength(t);
    EncManyAtLeast(EncExtTxIn, t.txIn, MIN_TX_IN_PAYLOAD);
    EncTxOutsSize(t.txOut);
  }

  // ---------- Encodable, and refused ----------

  // The cap leaves room for scripts that encode within the block size.
  lemma CapBelowBlockSize(ebs: uint64)
    requires 1_000_000 <= ebs < WRAP_BOUND
    ensures ScriptCap(ebs) < ebs - 80
  {
  }

  // One input whose script is over the cap: within the block size and not decodable.
  lemma LongSignatureRefused(ebs: uint64, t: Tx)
    requires 1_000_000 <= ebs < WRAP_BOUND
    requires |t.txIn| == 1 && t.txOut == []
    requires ScriptCap(ebs) < |t.txIn[0].signatureScript| <= ebs - 60
    ensures |EncTx(t)| <= ebs && !TxFits(ebs, t)
    ensures TakeTx(ebs, EncTx(t), 0) != Ok(t, |EncTx(t)|)
  {
    hide EncTx, TakeTx, MaxTxInPerMessage, ScriptCap;
    ScriptCapIs(ebs);
    EncTxLength(t);
    assert t.txIn == [t.txIn[0]];
    assert EncTxIns([t.txIn[0]]) == EncTxIn(t.txIn[0]) + EncTxIns([]);
    TakeTxIff(ebs, EncTx(t), 0, t, |EncTx(t)|);
  }

  // The same for the script of a spent output, with every signature script empty.
  lemma LongSpentScriptRefused(ebs: uint64, t: ExtTx)
    requires 1_000_000 <= ebs < WRAP_BOUND
    requires |t.txIn| == 1 && t.txIn[0].signatureScript == [] && t.txOut == []
    requires ScriptCap(ebs) < |t.txIn[0].previousTxScript| <= ebs - 80
    ensures |EncExtTx(t)| <= ebs && TxFits(ebs, t.Plain()) && !ExtTxFits(ebs, t)
    ensures TakeExtTx(ebs, EncExtTx(t), 0) != Ok(t, |EncExtTx(t)|)
  {
    hide EncExtTx, TakeExtTx, MaxMessagePayload, ScriptCap;
    ScriptCapIs(ebs);
    EncExtTxLength(t);
    assert t.txIn == [t.txIn[0]];
    assert EncExtTxIns([t.txIn[0]]) == EncExtTxIn(t.txIn[0]) + EncExtTxIns([]);
    TakeExtTxIff(ebs, EncExtTx(t), 0, t, |EncExtTx(t)|);
  }

  // The same for a block: the count of transactions never exceeds its limit.
  lemma SizedBlockFits(ebs: uint64, b: Block)
    requires 1_000_000 <= ebs < WRAP_BOUND
    requires |EncBlock(b)| <= ebs
    ensures |b.transactions| <= MaxTxPerBlock(ebs)
    ensures BlockFits(ebs, b)
       <==> forall i :: 0 <= i < |b.transactions| ==> SignatureScriptsFit(ebs, b.transactions[i])
  {
    hide EncTx, EncHeader, EncVarInt, SignatureScriptsFit, TxFits;
    var txs := b.transactions;
    forall t: Tx
      ensures |EncTx(t)| >= MIN_TX_PAYLOAD
    {
      TxMinimum(t);
    }
    EncManyAtLeast(EncTx, txs, MIN_TX_PAYLOAD);
    forall i | 0 <= i < |txs|
      ensures TxFits(ebs, txs[i]) <==> SignatureScriptsFit(ebs, txs[i])
    {
      EncManyElement(EncTx, txs, i);
      SizedTxFits(ebs, txs[i]);
    }
  }
}
