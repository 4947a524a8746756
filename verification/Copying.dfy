/**
 Deep copies (Copy in msg_tx.go and msg_extended_tx.go). The records of a message are
 objects here, as in the source, so that sharing a record shows as well as sharing the
 bytes of a script.
 */
module Copying {
  import opened Bytes
  import opened Transactions
  import opened ExtendedTransactions
  import opened Memory

  // ---------- Records ----------

  class TxInRecord {
    var previousOutPoint: OutPoint
    var signatureScript: Slice
    var sequence: uint32

    constructor (o: OutPoint, s: Slice, q: uint32)
      ensures previousOutPoint == o && signatureScript == s && sequence == q
    {
      previousOutPoint, signatureScript, sequence := o, s, q;
    }
  }

  class TxOutRecord {
    var value: int64
    var pkScript: Slice

    constructor (v: int64, s: Slice)
      ensures value == v && pkScript == s
    {
      value, pkScript := v, s;
    }
  }

  class ExtTxInRecord {
    var previousOutPoint: OutPoint
    var previousTxSatoshis: uint64
    var previousTxScript: Slice
    var signatureScript: Slice
    var sequence: uint32
  }

  // The script lives in repr and its bytes are b.
  ghost predicate ScriptIs(s: Slice, b: bytes, repr: set<object>)
    reads repr
  {
    (s.Slice? ==> s.arr in repr) && s.Sound() && s.Contents() == b
  }

  ghost predicate InIs(r: TxInRecord, v: TxIn, repr: set<object>)
    reads repr
  {
    && r in repr && r.previousOutPoint == v.previousOutPoint && r.sequence == v.sequence
    && ScriptIs(r.signatureScript, v.signatureScript, repr)
  }

  ghost predicate OutIs(r: TxOutRecord, v: TxOut, repr: set<object>)
    reads repr
  {
    r in repr && r.value == v.value && ScriptIs(r.pkScript, v.pkScript, repr)
  }

  ghost predicate ExtInIs(r: ExtTxInRecord, v: ExtTxIn, repr: set<object>)
    reads repr
  {
    && r in repr && r.previousOutPoint == v.previousOutPoint && r.sequence == v.sequence
    && r.previousTxSatoshis == v.previousTxSatoshis
    && ScriptIs(r.signatureScript, v.signatureScript, repr)
    && ScriptIs(r.previousTxScript, v.previousTxScript, repr)
  }

  ghost predicate InsAre(rs: seq<TxInRecord>, vs: seq<TxIn>, repr: set<object>)
    reads repr
  {
    |rs| == |vs| && forall i :: 0 <= i < |rs| ==> InIs(rs[i], vs[i], repr)
  }

  ghost predicate OutsAre(rs: seq<TxOutRecord>, vs: seq<TxOut>, repr: set<object>)
    reads repr
  {
    |rs| == |vs| && forall i :: 0 <= i < |rs| ==> OutIs(rs[i], vs[i], repr)
  }

  ghost predicate ExtInsAre(rs: seq<ExtTxInRecord>, vs: seq<ExtTxIn>, repr: set<object>)
    reads repr
  {
    |rs| == |vs| && forall i :: 0 <= i < |rs| ==> ExtInIs(rs[i], vs[i], repr)
  }

  // ---------- Messages ----------

  class TxMessage {
    var version: int32
    var txIn: seq<TxInRecord>
    var txOut: seq<TxOutRecord>
    var lockTime: uint32

    // All memory of the message: its records and the arrays of its scripts.
    ghost var repr: set<object>

    constructor (v: int32, ins: seq<TxInRecord>, outs: seq<TxOutRecord>, l: uint32, ghost memory: set<object>)
      ensures version == v && txIn == ins && txOut == outs && lockTime == l && repr == memory
    {
      version, txIn, txOut, lockTime, repr := v, ins, outs, l, memory;
    }

    // The message is the transaction t, so its encoding is EncTx(t).
    ghost predicate Means(t: Tx)
      reads this, repr
    {
      && this !in repr && version == t.version && lockTime == t.lockTime
      && InsAre(txIn, t.txIn, repr) && OutsAre(txOut, t.txOut, repr)
    }
  }

  class ExtTxMessage {
    var version: int32
    var txIn: seq<ExtTxInRecord>
    var txOut: seq<TxOutRecord>
    var lockTime: uint32
    ghost var repr: set<object>

    ghost predicate Means(t: ExtTx)
      reads this, repr
    {
      && this !in repr && version == t.version && lockTime == t.lockTime
      && ExtInsAre(txIn, t.txIn, repr) && OutsAre(txOut, t.txOut, repr)
    }
  }

  // A message means one transaction, so a copy that means the same has the same encoding.
  lemma MeansOne(msg: TxMessage, t: Tx, u: Tx)
    requires msg.Means(t) && msg.Means(u)
    ensures t == u
  {
    forall i | 0 <= i < |t.txIn|
      ensures t.txIn[i] == u.txIn[i]
    {
      assert InIs(msg.txIn[i], t.txIn[i], msg.repr) && InIs(msg.txIn[i], u.txIn[i], msg.repr);
    }
    OutsAreOne(msg.txOut, t.txOut, u.txOut, msg.repr);
  }

  lemma ExtMeansOne(msg: ExtTxMessage, t: ExtTx, u: ExtTx)
    requires msg.Means(t) && msg.Means(u)
    ensures t == u
  {
    forall i | 0 <= i < |t.txIn|
      ensures t.txIn[i] == u.txIn[i]
    {
      assert ExtInIs(msg.txIn[i], t.txIn[i], msg.repr) && ExtInIs(msg.txIn[i], u.txIn[i], msg.repr);
    }
    OutsAreOne(msg.txOut, t.txOut, u.txOut, msg.repr);
  }

  lemma OutsAreOne(rs: seq<TxOutRecord>, vs: seq<TxOut>, us: seq<TxOut>, repr: set<object>)
    requires OutsAre(rs, vs, repr) && OutsAre(rs, us, repr)
    ensures vs == us
  {
    forall i | 0 <= i < |vs|
      ensures vs[i] == us[i]
    {
      assert OutIs(rs[i], vs[i], repr) && OutIs(rs[i], us[i], repr);
    }
  }

  // ---------- Copying ----------

  // A new array of exactly the script's length, or nil for an empty script.
  method CopyScript(s: Slice, ghost b: bytes) returns (c: Slice)
    requires s.Sound() && s.Contents() == b
    ensures c.Sound() && c.Contents() == b && c.Cap() == |b| && (c.Nil? <==> b == [])
    ensures fresh(c.Arrays())
  {
    if s.Len() == 0 {
      return Nil;
    }
    var a := new byte[s.len];
    forall i | 0 <= i < s.len {
      a[i] := s.arr[s.off + i];
    }
    c := Slice(a, 0, s.len, s.len);
    assert c.Contents() == b;
  }

  lemma InsAppend(rs: seq<TxInRecord>, vs: seq<TxIn>, repr: set<object>, r: TxInRecord, v: TxIn, more: set<object>)
    requires InsAre(rs, vs, repr) && InIs(r, v, more)
    ensures InsAre(rs + [r], vs + [v], repr + more)
  {
    forall i | 0 <= i < |rs|
      ensures InIs(rs[i], vs[i], repr + more)
    {
      assert InIs(rs[i], vs[i], repr);
    }
  }

  lemma OutsAppend(rs: seq<TxOutRecord>, vs: seq<TxOut>, repr: set<object>, r: TxOutRecord, v: TxOut, more: set<object>)
    requires OutsAre(rs, vs, repr) && OutIs(r, v, more)
    ensures OutsAre(rs + [r], vs + [v], repr + more)
  {
    forall i | 0 <= i < |rs|
      ensures OutIs(rs[i], vs[i], repr + more)
    {
      assert OutIs(rs[i], vs[i], repr);
    }
  }

  // One input record of the copy.
  method CopyIn(o: OutPoint, s: Slice, q: uint32, ghost v: TxIn) returns (r: TxInRecord, ghost repr: set<object>)
    requires o == v.previousOutPoint && q == v.sequence && s.Sound() && s.Contents() == v.signatureScript
    ensures InIs(r, v, repr) && fresh(repr)
  {
    var c := CopyScript(s, v.signatureScript);
    r := new TxInRecord(o, c, q);
    repr := {r as object} + c.Arrays();
  }

  method CopyIns(rs: seq<TxInRecord>, ghost vs: seq<TxIn>, ghost memory: set<object>)
    returns (c: seq<TxInRecord>, ghost repr: set<object>)
    requires InsAre(rs, vs, memory)
    ensures InsAre(c, vs, repr) && fresh(repr)
  {
    hide InIs;
    c, repr := [], {};
    for i := 0 to |rs|
      invariant |rs| == |vs| && InsAre(rs, vs, memory) && InsAre(c, vs[..i], repr) && fresh(repr)
    {
      InFields(rs[i], vs[i], memory);
      var r;
      ghost var more;
      r, more := CopyIn(rs[i].previousOutPoint, rs[i].signatureScript, rs[i].sequence, vs[i]);
      InsAppend(c, vs[..i], repr, r, vs[i], more);
      assert vs[..i + 1] == vs[..i] + [vs[i]];
      c, repr := c + [r], repr + more;
    }
    assert vs[..|rs|] == vs;
  }

  lemma InFields(r: TxInRecord, v: TxIn, repr: set<object>)
    requires InIs(r, v, repr)
    ensures r.previousOutPoint == v.previousOutPoint && r.sequence == v.sequence
    ensures r.signatureScript.Sound() && r.signatureScript.Contents() == v.signatureScript
  {
  }

  // The spent outputs are not copied.
  method CopyExtIns(rs: seq<ExtTxInRecord>, ghost vs: seq<ExtTxIn>, ghost memory: set<object>)
    returns (c: seq<TxInRecord>, ghost repr: set<object>)
    requires ExtInsAre(rs, vs, memory)
    ensures InsAre(c, PlainIns(vs), repr) && fresh(repr)
  {
    hide InIs, ExtInIs;
    ghost var plain := PlainIns(vs);
    c, repr := [], {};
    for i := 0 to |rs|
      invariant |rs| == |vs| && ExtInsAre(rs, vs, memory) && InsAre(c, plain[..i], repr) && fresh(repr)
    {
      ExtInFields(rs[i], vs[i], memory);
      var r;
      ghost var more;
      r, more := CopyIn(rs[i].previousOutPoint, rs[i].signatureScript, rs[i].sequence, plain[i]);
      InsAppend(c, plain[..i], repr, r, plain[i], more);
      assert plain[..i + 1] == plain[..i] + [plain[i]];
      c, repr := c + [r], repr + more;
    }
    assert plain[..|rs|] == plain;
  }

  lemma ExtInFields(r: ExtTxInRecord, v: ExtTxIn, repr: set<object>)
    requires ExtInIs(r, v, repr)
    ensures r.previousOutPoint == v.previousOutPoint && r.sequence == v.sequence
    ensures r.signatureScript.Sound() && r.signatureScript.Contents() == v.signatureScript
  {
  }

  method CopyOuts(rs: seq<TxOutRecord>, ghost vs: seq<TxOut>, ghost memory: set<object>)
    returns (c: seq<TxOutRecord>, ghost repr: set<object>)
    requires OutsAre(rs, vs, memory)
    ensures OutsAre(c, vs, repr) && fresh(repr)
  {
    hide OutIs;
    c, repr := [], {};
    for i := 0 to |rs|
      invariant |rs| == |vs| && OutsAre(rs, vs, memory) && OutsAre(c, vs[..i], repr) && fresh(repr)
    {
      OutFields(rs[i], vs[i], memory);
      var r;
      ghost var more;
      r, more := CopyOut(rs[i].value, rs[i].pkScript, vs[i]);
      OutsAppend(c, vs[..i], repr, r, vs[i], more);
      assert vs[..i + 1] == vs[..i] + [vs[i]];
      c, repr := c + [r], repr + more;
    }
    assert vs[..|rs|] == vs;
  }

  method CopyOut(value: int64, s: Slice, ghost v: TxOut) returns (r: TxOutRecord, ghost repr: set<object>)
    requires value == v.value && s.Sound() && s.Contents() == v.pkScript
    ensures OutIs(r, v, repr) && fresh(repr)
  {
    var c := CopyScript(s, v.pkScript);
    r := new TxOutRecord(value, c);
    repr := {r as object} + c.Arrays();
  }

  lemma OutFields(r: TxOutRecord, v: TxOut, repr: set<object>)
    requires OutIs(r, v, repr)
    ensures r.value == v.value && r.pkScript.Sound() && r.pkScript.Contents() == v.pkScript
  {
  }

  lemma TogetherAre(
    ins: seq<TxInRecord>, vs: seq<TxIn>, a: set<object>, outs: seq<TxOutRecord>, ws: seq<TxOut>, b: set<object>)
    requires InsAre(ins, vs, a) && OutsAre(outs, ws, b)
    ensures InsAre(ins, vs, a + b) && OutsAre(outs, ws, a + b)
  {
    forall i | 0 <= i < |ins|
      ensures InIs(ins[i], vs[i], a + b)
    {
      assert InIs(ins[i], vs[i], a);
    }
    forall i | 0 <= i < |outs|
      ensures OutIs(outs[i], ws[i], a + b)
    {
      assert OutIs(outs[i], ws[i], b);
    }
  }

  // The copy is the same transaction; the message, every record of it and every script
  // array are new, so it shares nothing with the original.
  method Copy(msg: TxMessage, ghost t: Tx) returns (c: TxMessage)
    requires msg.Means(t)
    ensures c.Means(t)
    ensures fresh(c) && fresh(c.repr) && c.repr !! msg.repr
  {
    hide InIs, OutIs;
    var ins, outs;
    ghost var a, b;
    ins, a := CopyIns(msg.txIn, t.txIn, msg.repr);
    outs, b := CopyOuts(msg.txOut, t.txOut, msg.repr);
    TogetherAre(ins, t.txIn, a, outs, t.txOut, b);
    c := new TxMessage(msg.version, ins, outs, msg.lockTime, a + b);
  }

  // Copying an extended transaction gives its plain projection in memory of its own.
  method CopyExt(msg: ExtTxMessage, ghost t: ExtTx) returns (c: TxMessage)
    requires msg.Means(t)
    ensures c.Means(t.Plain())
    ensures fresh(c) && fresh(c.repr) && c.repr !! msg.repr
  {
    hide InIs, OutIs, ExtInIs;
    var ins, outs;
    ghost var a, b;
    ins, a := CopyExtIns(msg.txIn, t.txIn, msg.repr);
    outs, b := CopyOuts(msg.txOut, t.txOut, msg.repr);
    TogetherAre(ins, PlainIns(t.txIn), a, outs, t.txOut, b);
    c := new TxMessage(msg.version, ins, outs, msg.lockTime, a + b);
  }

  // ---------- Independence ----------

  // Whatever is written to a copy, to its fields, its records or its script bytes, the
  // original is the transaction it was.
  method WriteToCopy(msg: TxMessage, ghost t: Tx, c: TxMessage)
    requires msg.Means(t)
    requires c != msg && c !in msg.repr && msg !in c.repr && c.repr !! msg.repr
    modifies c, c.repr
    ensures msg.Means(t)
  {
    modify c, c.repr;
  }

  // The same for an extended original, spent outputs included.
  method WriteToCopyOfExt(msg: ExtTxMessage, ghost t: ExtTx, c: TxMessage)
    requires msg.Means(t)
    requires c !in msg.repr && msg !in c.repr && c.repr !! msg.repr
    modifies c, c.repr
    ensures msg.Means(t)
  {
    modify c, c.repr;
  }
}
