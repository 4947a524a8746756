/**
 Transactions in memory (msg_tx.go, msg_extended_tx.go): the fields of a message,
 with scripts as slices. Input and output records are values in the message's
 sequences; only script bytes live in shared memory.
 */
module TxMemory {
  import opened Bytes
  import opened Memory
  import opened Transactions
  import opened Arenas

  datatype MemTxIn = MemTxIn(previousOutPoint: OutPoint, signatureScript: Slice, sequence: uint32)
  datatype MemTxOut = MemTxOut(value: int64, pkScript: Slice)

  // The record holds the value, given what each slice holds.
  ghost predicate InHolds(cells: map<Slice, bytes>, m: MemTxIn, v: TxIn) {
    m.previousOutPoint == v.previousOutPoint && m.sequence == v.sequence
    && Holds(cells, m.signatureScript, v.signatureScript)
  }

  ghost predicate OutHolds(cells: map<Slice, bytes>, m: MemTxOut, v: TxOut) {
    m.value == v.value && Holds(cells, m.pkScript, v.pkScript)
  }

  ghost predicate InsHold(cells: map<Slice, bytes>, ms: seq<MemTxIn>, vs: seq<TxIn>) {
    |ms| == |vs| && forall i :: 0 <= i < |ms| ==> InHolds(cells, ms[i], vs[i])
  }

  ghost predicate OutsHold(cells: map<Slice, bytes>, ms: seq<MemTxOut>, vs: seq<TxOut>) {
    |ms| == |vs| && forall i :: 0 <= i < |ms| ==> OutHolds(cells, ms[i], vs[i])
  }

  class MsgTx {
    var version: int32
    var txIn: seq<MemTxIn>
    var txOut: seq<MemTxOut>
    var lockTime: uint32

    // An empty receiver.
    constructor ()
      ensures txIn == [] && txOut == []
    {
      version, txIn, txOut, lockTime := 0, [], [], 0;
    }

    ghost predicate HoldsTx(cells: map<Slice, bytes>, t: Tx)
      reads this
    {
      version == t.version && lockTime == t.lockTime
      && InsHold(cells, txIn, t.txIn) && OutsHold(cells, txOut, t.txOut)
    }
  }

  // Later cells keep what earlier cells established.
  lemma InsKept(later: map<Slice, bytes>, earlier: map<Slice, bytes>, ms: seq<MemTxIn>, vs: seq<TxIn>)
    requires Extends(later, earlier) && InsHold(earlier, ms, vs)
    ensures InsHold(later, ms, vs)
  {
    forall i | 0 <= i < |ms|
      ensures InHolds(later, ms[i], vs[i])
    {
      assert InHolds(earlier, ms[i], vs[i]);
    }
  }

  lemma OutsKept(later: map<Slice, bytes>, earlier: map<Slice, bytes>, ms: seq<MemTxOut>, vs: seq<TxOut>)
    requires Extends(later, earlier) && OutsHold(earlier, ms, vs)
    ensures OutsHold(later, ms, vs)
  {
    forall i | 0 <= i < |ms|
      ensures OutHolds(later, ms[i], vs[i])
    {
      assert OutHolds(earlier, ms[i], vs[i]);
    }
  }
}
