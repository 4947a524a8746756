/**
 How decoding ends when it does not succeed: an end of stream uses up all bytes and any
 other verdict stands whatever follows, so a transaction or block that is cut short is
 always reported as an end of stream.
 */
module Endings {
  import opened Bytes
  import opened Parsing
  import opened VarInts
  import opened Repetition
  import opened Limits
  import opened Transactions
  import opened ExtendedTransactions
  import opened Blocks

  predicate EndOfStream(e: Error) { e == Eof || e == UnexpectedEof }

  // r is the outcome on s, later that on s and more bytes.
  predicate Settled<T(==)>(s: bytes, r: Parsed<T>, later: Parsed<T>) {
    if r.Fail? && EndOfStream(r.err) then r.next == |s| else later == r
  }

  ghost predicate Settling<T(!new)>(f: Parser<T>) {
    forall s: bytes, x: bytes, p: nat :: p <= |s| ==> Settled(s, f(s, p), f(s + x, p))
  }

  // ---------- Parts ----------

  lemma TakeNSettled(s: bytes, x: bytes, p: nat, n: nat)
    requires p <= |s|
    ensures Settled(s, TakeN(s, p, n), TakeN(s + x, p, n))
  {
    if p + n <= |s| {
      assert (s + x)[p..p + n] == s[p..p + n];
    }
  }

  lemma TakeU32Settled(s: bytes, x: bytes, p: nat)
    requires p <= |s|
    ensures Settled(s, TakeU32(s, p), TakeU32(s + x, p))
  {
    hide TakeN, FromLE;
    TakeNSettled(s, x, p, 4);
  }

  lemma TakeU64Settled(s: bytes, x: bytes, p: nat)
    requires p <= |s|
    ensures Settled(s, TakeU64(s, p), TakeU64(s + x, p))
  {
    hide TakeN, FromLE;
    TakeNSettled(s, x, p, 8);
  }

  lemma TakeVarIntSettled(s: bytes, x: bytes, p: nat)
    requires p <= |s|
    ensures Settled(s, TakeVarInt(s, p), TakeVarInt(s + x, p))
  {
    hide TakeN, FromLE;
    TakeNSettled(s, x, p, 1);
    if p + 1 <= |s| {
      TakeNSettled(s, x, p + 1, 2);
      TakeNSettled(s, x, p + 1, 4);
      TakeNSettled(s, x, p + 1, 8);
    }
  }

  lemma TakeVarBytesSettled(s: bytes, x: bytes, p: nat, max: uint64, e: Error)
    requires p <= |s| && !EndOfStream(e)
    ensures Settled(s, TakeVarBytes(s, p, max, e), TakeVarBytes(s + x, p, max, e))
  {
    hide TakeN, TakeVarInt;
    TakeVarIntSettled(s, x, p);
    var r := TakeVarInt(s, p);
    if r.Ok? {
      TakeNSettled(s, x, r.next, r.value);
    }
  }

  lemma TakeTxInSettled(ebs: uint64, s: bytes, x: bytes, p: nat)
    requires p <= |s|
    ensures Settled(s, TakeTxIn(ebs, s, p), TakeTxIn(ebs, s + x, p))
  {
    hide TakeN, TakeU32, TakeVarBytes, MaxTxInPerMessage;
    TakeNSettled(s, x, p, 32);
    if TakeN(s, p, 32).Ok? {
      TakeU32Settled(s, x, p + 32);
    }
    var q := TakeOutPoint(s, p);
    if q.Ok? {
      TakeVarBytesSettled(s, x, q.next, MaxTxInPerMessage(ebs), ScriptTooLong);
      var b := TakeVarBytes(s, q.next, MaxTxInPerMessage(ebs), ScriptTooLong);
      if b.Ok? {
        TakeU32Settled(s, x, b.next);
      }
    }
  }

  lemma TakeTxOutSettled(ebs: uint64, s: bytes, x: bytes, p: nat)
    requires p <= |s|
    ensures Settled(s, TakeTxOut(ebs, s, p), TakeTxOut(ebs, s + x, p))
  {
    hide TakeU64, TakeVarBytes, MaxMessagePayload;
    TakeU64Settled(s, x, p);
    var q := TakeU64(s, p);
    if q.Ok? {
      TakeVarBytesSettled(s, x, q.next, MaxMessagePayload(ebs), ScriptTooLong);
    }
  }

  lemma {:induction false} ManySettled<T(!new)>(f: Parser<T>, s: bytes, x: bytes, p: nat, k: nat)
    requires p <= |s| && Settling(f) && Advancing(f)
    ensures Settled(s, Many(f, s, p, k), Many(f, s + x, p, k))
    decreases k
  {
    if k > 0 {
      ManySettled(f, s, x, p, k - 1);
      ManyBounded(f, s, p, k - 1);
      var r := Many(f, s, p, k - 1);
      if r.Ok? {
        assert Settled(s, f(s, r.next), f(s + x, r.next));
      }
    }
  }

  lemma TakeTxInsSettled(ebs: uint64, s: bytes, x: bytes, p: nat, k: nat)
    requires p <= |s|
    ensures Settled(s, TakeTxIns(ebs, s, p, k), TakeTxIns(ebs, s + x, p, k))
  {
    hide TakeTxIn, Settled;
    forall s: bytes, x: bytes, p: nat | p <= |s|
      ensures Settled(s, TxInParser(ebs)(s, p), TxInParser(ebs)(s + x, p))
    {
      TakeTxInSettled(ebs, s, x, p);
    }
    ManySettled(TxInParser(ebs), s, x, p, k);
  }

  lemma TakeTxOutsSettled(ebs: uint64, s: bytes, x: bytes, p: nat, k: nat)
    requires p <= |s|
    ensures Settled(s, TakeTxOuts(ebs, s, p, k), TakeTxOuts(ebs, s + x, p, k))
  {
    hide TakeTxOut, Settled;
    forall s: bytes, x: bytes, p: nat | p <= |s|
      ensures Settled(s, TxOutParser(ebs)(s, p), TxOutParser(ebs)(s + x, p))
    {
      TakeTxOutSettled(ebs, s, x, p);
    }
    ManySettled(TxOutParser(ebs), s, x, p, k);
  }

  lemma TakeTailSettled(ebs: uint64, s: bytes, x: bytes, p: nat)
    requires p <= |s|
    ensures Settled(s, TakeTail(ebs, s, p), TakeTail(ebs, s + x, p))
  {
    hide TakeU32, TakeVarInt, TakeTxOuts, MaxTxOutPerMessage;
    TakeVarIntSettled(s, x, p);
    var c := TakeVarInt(s, p);
    if c.Ok? {
      TakeTxOutsSettled(ebs, s, x, c.next, c.value);
      var outs := TakeTxOuts(ebs, s, c.next, c.value);
      if outs.Ok? {
        TakeU32Settled(s, x, outs.next);
      }
    }
  }

  // ---------- Whole messages ----------

  lemma TakeTxSettled(ebs: uint64, s: bytes, x: bytes, p: nat)
    requires p <= |s|
    ensures Settled(s, TakeTx(ebs, s, p), TakeTx(ebs, s + x, p))
  {
    hide TakeU32, TakeVarInt, TakeTxIns, TakeTail, MaxTxInPerMessage;
    TakeU32Settled(s, x, p);
    if TakeU32(s, p).Ok? {
      TakeVarIntSettled(s, x, p + 4);
      var c := TakeVarInt(s, p + 4);
      if c.Ok? {
        TakeTxInsSettled(ebs, s, x, c.next, c.value);
        var ins := TakeTxIns(ebs, s, c.next, c.value);
        if ins.Ok? {
          TakeTailSettled(ebs, s, x, ins.next);
        }
      }
    }
  }

  lemma TakeExtTxInSettled(ebs: uint64, s: bytes, x: bytes, p: nat)
    requires p <= |s|
    ensures Settled(s, TakeExtTxIn(ebs, s, p), TakeExtTxIn(ebs, s + x, p))
  {
    hide TakeTxIn, TakeU64, TakeVarBytes, MaxTxInPerMessage;
    TakeTxInSettled(ebs, s, x, p);
    var i := TakeTxIn(ebs, s, p);
    if i.Ok? {
      TakeU64Settled(s, x, i.next);
      if TakeU64(s, i.next).Ok? {
        TakeVarBytesSettled(s, x, i.next + 8, MaxTxInPerMessage(ebs), ScriptTooLong);
      }
    }
  }

  lemma TakeExtTxInsSettled(ebs: uint64, s: bytes, x: bytes, p: nat, k: nat)
    requires p <= |s|
    ensures Settled(s, TakeExtTxIns(ebs, s, p, k), TakeExtTxIns(ebs, s + x, p, k))
  {
    hide TakeExtTxIn, Settled;
    forall s: bytes, x: bytes, p: nat | p <= |s|
      ensures Settled(s, ExtTxInParser(ebs)(s, p), ExtTxInParser(ebs)(s + x, p))
    {
      TakeExtTxInSettled(ebs, s, x, p);
    }
    ManySettled(ExtTxInParser(ebs), s, x, p, k);
  }

  lemma TakeExtCountSettled(ebs: uint64, s: bytes, x: bytes, p: nat)
    requires p <= |s|
    ensures Settled(s, TakeExtCount(ebs, s, p), TakeExtCount(ebs, s + x, p))
  {
    hide TakeU32, TakeVarInt, TakeN, MaxTxInPerMessage;
    TakeU32Settled(s, x, p);
    if TakeU32(s, p).Ok? {
      TakeVarIntSettled(s, x, p + 4);
      var k := TakeVarInt(s, p + 4);
      if k.Ok? {
        TakeNSettled(s, x, k.next, 5);
        if TakeN(s, k.next, 5).Ok? {
          TakeVarIntSettled(s, x, k.next + 5);
        }
      }
    }
  }

  lemma TakeExtTxSettled(ebs: uint64, s: bytes, x: bytes, p: nat)
    requires p <= |s|
    ensures Settled(s, TakeExtTx(ebs, s, p), TakeExtTx(ebs, s + x, p))
  {
    hide TakeU32, TakeExtCount, TakeExtTxIns, TakeTail, TakeExtTx;
    TakeExtTxSplit(ebs, s, p);
    TakeExtTxSplit(ebs, s + x, p);
    TakeU32Settled(s, x, p);
    TakeExtCountSettled(ebs, s, x, p);
    var c := TakeExtCount(ebs, s, p);
    if c.Ok? {
      TakeExtTxInsSettled(ebs, s, x, c.next, c.value);
      var ins := TakeExtTxIns(ebs, s, c.next, c.value);
      if ins.Ok? {
        TakeTailSettled(ebs, s, x, ins.next);
      }
    }
  }

  lemma TakeHeaderSettled(s: bytes, x: bytes, p: nat)
    requires p <= |s|
    ensures Settled(s, TakeHeader(s, p), TakeHeader(s + x, p))
  {
    hide TakeU32, TakeN;
    TakeU32Settled(s, x, p);
    if p + 4 <= |s| {
      TakeNSettled(s, x, p + 4, 32);
    }
    if p + 36 <= |s| {
      TakeNSettled(s, x, p + 36, 32);
    }
    if p + 68 <= |s| {
      TakeU32Settled(s, x, p + 68);
    }
    if p + 72 <= |s| {
      TakeU32Settled(s, x, p + 72);
    }
    if p + 76 <= |s| {
      TakeU32Settled(s, x, p + 76);
    }
  }

  lemma TakeTxsSettled(ebs: uint64, s: bytes, x: bytes, p: nat, k: nat)
    requires p <= |s|
    ensures Settled(s, TakeTxs(ebs, s, p, k), TakeTxs(ebs, s + x, p, k))
  {
    hide TakeTx, Settled;
    forall s: bytes, x: bytes, p: nat | p <= |s|
      ensures Settled(s, TxParser(ebs)(s, p), TxParser(ebs)(s + x, p))
    {
      TakeTxSettled(ebs, s, x, p);
    }
    ManySettled(TxParser(ebs), s, x, p, k);
  }

  lemma TakeBlockSettled(ebs: uint64, s: bytes, x: bytes, p: nat)
    requires p <= |s|
    ensures Settled(s, TakeBlock(ebs, s, p), TakeBlock(ebs, s + x, p))
  {
    hide TakeHeader, TakeVarInt, TakeTxs, MaxTxPerBlock;
    TakeHeaderSettled(s, x, p);
    var h := TakeHeader(s, p);
    if h.Ok? {
      TakeVarIntSettled(s, x, h.next);
      var c := TakeVarInt(s, h.next);
      if c.Ok? {
        TakeTxsSettled(ebs, s, x, c.next, c.value);
      }
    }
  }

  // ---------- Messages cut short ----------

  lemma CutShort<T(!new)>(f: Parser<T>, e: bytes, t: T, n: nat)
    requires Settling(f) && Advancing(f) && f(e, 0) == Ok(t, |e|) && n < |e|
    ensures var r := f(e[..n], 0); r.Fail? && EndOfStream(r.err) && r.next == n
  {
    var s, x := e[..n], e[n..];
    assert s + x == e;
    assert Settled(s, f(s, 0), f(s + x, 0));
    assert Bounded(f(s, 0), s, 0);
  }

  // Every proper prefix of a transaction is an end of stream that uses up the prefix: a
  // clean one if nothing is there at all, an unexpected one inside the first field.
  lemma CutTx(ebs: uint64, t: Tx, n: nat)
    requires TxFits(ebs, t) && n < |EncTx(t)|
    ensures var r := TakeTx(ebs, EncTx(t)[..n], 0);
            && r.Fail? && EndOfStream(r.err) && r.next == n
            && (n == 0 ==> r.err == Eof) && (0 < n < 4 ==> r.err == UnexpectedEof)
  {
    hide TakeTx, EncTx, TxFits, Settled;
    var e := EncTx(t);
    HasWhole([], e, []);
    assert [] + e + [] == e;
    TakeTxIff(ebs, e, 0, t, |e|);
    forall s: bytes, x: bytes, p: nat | p <= |s|
      ensures Settled(s, TxParser(ebs)(s, p), TxParser(ebs)(s + x, p))
    {
      TakeTxSettled(ebs, s, x, p);
    }
    CutShort(TxParser(ebs), e, t, n);
    if n < 4 {
      CutInVersion(ebs, e[..n]);
    }
  }

  lemma CutInVersion(ebs: uint64, s: bytes)
    requires |s| < 4
    ensures TakeTx(ebs, s, 0) == Fail(if s == [] then Eof else UnexpectedEof, |s|)
    ensures TakeExtTx(ebs, s, 0) == Fail(if s == [] then Eof else UnexpectedEof, |s|)
    ensures TakeBlock(ebs, s, 0) == Fail(if s == [] then Eof else UnexpectedEof, |s|)
  {
  }

  lemma CutExtTx(ebs: uint64, t: ExtTx, n: nat)
    requires ExtTxFits(ebs, t) && n < |EncExtTx(t)|
    ensures var r := TakeExtTx(ebs, EncExtTx(t)[..n], 0);
            && r.Fail? && EndOfStream(r.err) && r.next == n
            && (n == 0 ==> r.err == Eof) && (0 < n < 4 ==> r.err == UnexpectedEof)
  {
    hide TakeExtTx, EncExtTx, ExtTxFits, Settled;
    var e := EncExtTx(t);
    var f: Parser<ExtTx> := (s: bytes, p: nat) => TakeExtTx(ebs, s, p);
    HasWhole([], e, []);
    assert [] + e + [] == e;
    TakeExtTxIff(ebs, e, 0, t, |e|);
    forall s: bytes, x: bytes, p: nat | p <= |s|
      ensures Settled(s, f(s, p), f(s + x, p))
    {
      TakeExtTxSettled(ebs, s, x, p);
    }
    CutShort(f, e, t, n);
    if n < 4 {
      CutInVersion(ebs, e[..n]);
    }
  }

  lemma CutBlock(ebs: uint64, b: Block, n: nat)
    requires BlockFits(ebs, b) && n < |EncBlock(b)|
    ensures var r := TakeBlock(ebs, EncBlock(b)[..n], 0);
            && r.Fail? && EndOfStream(r.err) && r.next == n
            && (n == 0 ==> r.err == Eof) && (0 < n < 4 ==> r.err == UnexpectedEof)
  {
    hide TakeBlock, EncBlock, BlockFits, Settled;
    var e := EncBlock(b);
    var f: Parser<Block> := (s: bytes, p: nat) => TakeBlock(ebs, s, p);
    HasWhole([], e, []);
    assert [] + e + [] == e;
    TakeBlockIff(ebs, e, 0, b, |e|);
    forall s: bytes, x: bytes, p: nat | p <= |s|
      ensures Settled(s, f(s, p), f(s + x, p))
    {
      TakeBlockSettled(ebs, s, x, p);
    }
    CutShort(f, e, b, n);
    if n < 4 {
      CutInVersion(ebs, e[..n]);
    }
  }
}
