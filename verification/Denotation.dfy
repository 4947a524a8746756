/**
 What a message in memory denotes: the transaction value its fields and the bytes of
 its script slices add up to.
 */
module Denotation {
  import opened Bytes
  import opened Transactions
  import opened Memory
  import opened TxMemory
  import opened PoolDecoding

  ghost function SliceArrays(ss: seq<Slice>): set<array<byte>> {
    set i | 0 <= i < |ss| && ss[i].Slice? :: ss[i].arr
  }

  ghost predicate InsDenote(ms: seq<MemTxIn>, vs: seq<TxIn>)
    reads SliceArrays(InScripts(ms))
  {
    |ms| == |vs| && forall i :: 0 <= i < |ms| ==> InDenotes(ms, i, vs[i])
  }

  ghost predicate InDenotes(ms: seq<MemTxIn>, i: nat, v: TxIn)
    requires i < |ms|
    reads SliceArrays(InScripts(ms))
  {
    var s := InScripts(ms)[i];
    && ms[i].previousOutPoint == v.previousOutPoint && ms[i].sequence == v.sequence
    && s.Sound() && s.Contents() == v.signatureScript
  }

  ghost predicate OutsDenote(ms: seq<MemTxOut>, vs: seq<TxOut>)
    reads SliceArrays(OutScripts(ms))
  {
    |ms| == |vs| && forall i :: 0 <= i < |ms| ==> OutDenotes(ms, i, vs[i])
  }

  ghost predicate OutDenotes(ms: seq<MemTxOut>, i: nat, v: TxOut)
    requires i < |ms|
    reads SliceArrays(OutScripts(ms))
  {
    var s := OutScripts(ms)[i];
    ms[i].value == v.value && s.Sound() && s.Contents() == v.pkScript
  }

  // All memory a message's scripts live in.
  ghost function ScriptMemory(msg: MsgTx): set<array<byte>>
    reads msg
  {
    SliceArrays(InScripts(msg.txIn)) + SliceArrays(OutScripts(msg.txOut))
  }

  // The message in memory is the transaction t; its encoding is EncTx(t).
  ghost predicate Denotes(msg: MsgTx, t: Tx)
    reads msg, ScriptMemory(msg)
  {
    && msg.version == t.version && msg.lockTime == t.lockTime
    && InsDenote(msg.txIn, t.txIn) && OutsDenote(msg.txOut, t.txOut)
  }
  // A message is one transaction: its fields and script bytes determine all of it.
  lemma DenotesOne(msg: MsgTx, t: Tx, u: Tx)
    requires Denotes(msg, t) && Denotes(msg, u)
    ensures t == u
  {
    forall i | 0 <= i < |t.txIn|
      ensures t.txIn[i] == u.txIn[i]
    {
      assert InDenotes(msg.txIn, i, t.txIn[i]) && InDenotes(msg.txIn, i, u.txIn[i]);
    }
    forall i | 0 <= i < |t.txOut|
      ensures t.txOut[i] == u.txOut[i]
    {
      assert OutDenotes(msg.txOut, i, t.txOut[i]) && OutDenotes(msg.txOut, i, u.txOut[i]);
    }
  }
}
