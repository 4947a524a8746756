/**
 The encoders as the source has them: field after field, appended to a writer.
 Writes to the in-memory writer do not fail.
 */
module Writing {
  import opened Bytes
  import opened VarInts
  import opened Repetition
  import opened Transactions
  import opened ExtendedTransactions
  import opened Blocks

  class Writer {
    var out: bytes

    constructor ()
      ensures out == []
    {
      out := [];
    }

    method Write(b: bytes)
      modifies this
      ensures out == old(out) + b
    {
      out := out + b;
    }
  }

  method WriteVarInt(w: Writer, val: uint64)
    modifies w
    ensures w.out == old(w.out) + EncVarInt(val)
  {
    hide LE;
    if val < 0xfd {
      w.Write([val]);
      return;
    }
    if val <= 0xffff {
      w.Write([0xfd]);
      w.Write(LE(2, val));
      return;
    }
    if val <= 0xffff_ffff {
      w.Write([0xfe]);
      w.Write(LE(4, val));
      return;
    }
    w.Write([0xff]);
    w.Write(LE(8, val));
  }

  method WriteVarBytes(w: Writer, b: bytes)
    requires |b| < TWO64
    modifies w
    ensures w.out == old(w.out) + EncVarBytes(b)
  {
    WriteVarInt(w, |b|);
    w.Write(b);
  }

  method WriteTxIn(w: Writer, i: TxIn)
    requires |i.signatureScript| < TWO64
    modifies w
    ensures w.out == old(w.out) + EncTxIn(i)
  {
    w.Write(i.previousOutPoint.hash);
    w.Write(LE(4, i.previousOutPoint.index));
    WriteVarBytes(w, i.signatureScript);
    w.Write(LE(4, i.sequence));
  }

  method WriteExtTxIn(w: Writer, i: ExtTxIn)
    requires |i.signatureScript| < TWO64 && |i.previousTxScript| < TWO64
    modifies w
    ensures w.out == old(w.out) + EncExtTxIn(i)
  {
    w.Write(i.previousOutPoint.hash);
    w.Write(LE(4, i.previousOutPoint.index));
    WriteVarBytes(w, i.signatureScript);
    w.Write(LE(4, i.sequence));
    assert w.out == old(w.out) + EncTxIn(i.Plain());
    w.Write(LE(8, i.previousTxSatoshis));
    WriteVarBytes(w, i.previousTxScript);
  }

  method WriteTxOut(w: Writer, o: TxOut)
    requires |o.pkScript| < TWO64
    modifies w
    ensures w.out == old(w.out) + EncTxOut(o)
  {
    w.Write(LE(8, AsUint64(o.value)));
    WriteVarBytes(w, o.pkScript);
  }

  // Lengths a Go slice can have.
  predicate Representable(t: Tx) {
    && |t.txIn| < TWO63 && |t.txOut| < TWO63
    && (forall i :: 0 <= i < |t.txIn| ==> |t.txIn[i].signatureScript| < TWO63)
    && (forall i :: 0 <= i < |t.txOut| ==> |t.txOut[i].pkScript| < TWO63)
  }

  predicate ExtRepresentable(t: ExtTx) {
    && |t.txIn| < TWO63 && |t.txOut| < TWO63
    && (forall i :: 0 <= i < |t.txIn| ==>
          |t.txIn[i].signatureScript| < TWO63 && |t.txIn[i].previousTxScript| < TWO63)
    && (forall i :: 0 <= i < |t.txOut| ==> |t.txOut[i].pkScript| < TWO63)
  }

  predicate BlockRepresentable(b: Block) {
    |b.transactions| < TWO63 && forall i :: 0 <= i < |b.transactions| ==> Representable(b.transactions[i])
  }

  method WriteTail(w: Writer, outs: seq<TxOut>, lockTime: uint32)
    requires |outs| < TWO63 && forall i :: 0 <= i < |outs| ==> |outs[i].pkScript| < TWO63
    modifies w
    ensures w.out == old(w.out) + EncTail(outs, lockTime)
  {
    hide LE, EncVarInt, EncTxOut;
    WriteVarInt(w, |outs|);
    ghost var start := w.out;
    for i := 0 to |outs|
      invariant w.out == start + EncTxOuts(outs[..i])
    {
      WriteTxOut(w, outs[i]);
      EncManyAppend(EncTxOut, outs[..i], outs[i]);
      assert outs[..i + 1] == outs[..i] + [outs[i]];
    }
    assert outs[..|outs|] == outs;
    w.Write(LE(4, lockTime));
  }

  method EncodeTx(w: Writer, t: Tx)
    requires Representable(t)
    modifies w
    ensures w.out == old(w.out) + EncTx(t)
  {
    hide LE, EncVarInt, EncTxIn, EncTail;
    w.Write(LE(4, AsUint32(t.version)));
    WriteVarInt(w, |t.txIn|);
    ghost var start := w.out;
    for i := 0 to |t.txIn|
      invariant w.out == start + EncTxIns(t.txIn[..i])
    {
      WriteTxIn(w, t.txIn[i]);
      EncManyAppend(EncTxIn, t.txIn[..i], t.txIn[i]);
      assert t.txIn[..i + 1] == t.txIn[..i] + [t.txIn[i]];
    }
    assert t.txIn[..|t.txIn|] == t.txIn;
    WriteTail(w, t.txOut, t.lockTime);
  }

  method EncodeExtTx(w: Writer, t: ExtTx)
    requires ExtRepresentable(t)
    modifies w
    ensures w.out == old(w.out) + EncExtTx(t)
  {
    hide LE, EncVarInt, EncExtTxIn, EncTail;
    w.Write(LE(4, AsUint32(t.version)));
    w.Write([0x00, 0x00, 0x00, 0x00, 0x00, 0xEF]);
    WriteVarInt(w, |t.txIn|);
    ghost var start := w.out;
    for i := 0 to |t.txIn|
      invariant w.out == start + EncExtTxIns(t.txIn[..i])
    {
      WriteExtTxIn(w, t.txIn[i]);
      EncManyAppend(EncExtTxIn, t.txIn[..i], t.txIn[i]);
      assert t.txIn[..i + 1] == t.txIn[..i] + [t.txIn[i]];
    }
    assert t.txIn[..|t.txIn|] == t.txIn;
    WriteTail(w, t.txOut, t.lockTime);
  }

  method WriteHeader(w: Writer, h: BlockHeader)
    modifies w
    ensures w.out == old(w.out) + EncHeader(h)
  {
    hide LE;
    w.Write(LE(4, AsUint32(h.version)));
    w.Write(h.prevBlock);
    w.Write(h.merkleRoot);
    w.Write(LE(4, h.timestamp));
    w.Write(LE(4, h.bits));
    w.Write(LE(4, h.nonce));
  }

  method EncodeBlock(w: Writer, b: Block)
    requires BlockRepresentable(b)
    modifies w
    ensures w.out == old(w.out) + EncBlock(b)
  {
    hide EncVarInt, EncTx, EncHeader, Representable;
    WriteHeader(w, b.header);
    WriteVarInt(w, |b.transactions|);
    ghost var start := w.out;
    for i := 0 to |b.transactions|
      invariant w.out == start + EncTxs(b.transactions[..i])
    {
      EncodeTx(w, b.transactions[i]);
      EncManyAppend(EncTx, b.transactions[..i], b.transactions[i]);
      assert b.transactions[..i + 1] == b.transactions[..i] + [b.transactions[i]];
    }
    assert b.transactions[..|b.transactions|] == b.transactions;
  }
}
