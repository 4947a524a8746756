/**
 Which streams the transaction and block decoders refuse, with which error and where, in
 terms of the bytes: counts and lengths over their limits, integers that are not in
 their shortest form, a wrong marker. The limits are written out as numbers.
 */
module Refusals {
  import opened Bytes
  import opened Parsing
  import opened VarInts
  import opened Repetition
  import opened Limits
  import opened Transactions
  import opened ExtendedTransactions
  import opened Blocks
  import opened Versions
  import opened Sizes
  import opened WireLayout
  import opened Endings

  // ---------- The limits ----------

  // Bytes of a message and of an output script; inputs of a message, and bytes of a script
  // in an input; outputs of a message; transactions of a block.
  function MessageCap(ebs: uint64): nat { ebs / 1_000_000 * 2_097_152 % 0x1_0000_0000_0000_0000 }
  function InputCap(ebs: uint64): nat { MessageCap(ebs) / 41 + 1 }
  function OutputCap(ebs: uint64): nat { MessageCap(ebs) / 9 + 1 }
  function TxCap(ebs: uint64): nat { ebs / 10 + 1 }

  lemma CapsAre(ebs: uint64)
    ensures MaxMessagePayload(ebs) == MessageCap(ebs)
    ensures MaxTxInPerMessage(ebs) == InputCap(ebs) && MaxTxOutPerMessage(ebs) == OutputCap(ebs)
    ensures MaxTxPerBlock(ebs) == TxCap(ebs)
  {
    assert ebs / 1_000_000 * 1024 * 1024 * 2 == ebs / 1_000_000 * 2_097_152;
  }

  lemma VarIntReads(s: bytes, p: nat, v: uint64)
    requires VarIntAt(s, p, v)
    ensures TakeVarInt(s, p) == Ok(v, p + VarIntSerializeSize(v))
  {
    hide VarIntAt, TakeVarInt, EncVarInt;
    VarIntAtIff(s, p, v);
    TakeVarIntComplete(s, p, v);
  }

  // ---------- Integers ----------

  // A wide form of a value that has a shorter one.
  lemma LongFormRefused(s: bytes, p: nat, v: nat)
    requires p < |s| && s[p] >= 0xfd
    requires var n := if s[p] == 0xfd then 2 else if s[p] == 0xfe then 4 else 8;
             NumberAt(s, p + 1, n, v) && v < if n == 2 then 0xfd else if n == 4 then 0x1_0000 else 0x1_0000_0000
    ensures TakeVarInt(s, p)
         == Fail(NonCanonicalVarInt, p + (if s[p] == 0xfd then 3 else if s[p] == 0xfe then 5 else 9))
  {
    hide NumberAt, TakeUint, Has, LE;
    var n := if s[p] == 0xfd then 2 else if s[p] == 0xfe then 4 else 8;
    Pow256Values();
    NumberIff(s, p + 1, n, v);
    HasWithin(s, p + 1, LE(n, v));
    TakeUintIff(s, p + 1, n, v, p + 1 + n);
    ByteIff(s, p, s[p]);
    DiscriminantIff(s, p, s[p], p + 1);
  }

  // ---------- Transactions ----------

  lemma InputCountRefused(ebs: uint64, s: bytes, n: uint64)
    requires |s| >= 4 && VarIntAt(s, 4, n) && n > InputCap(ebs)
    ensures TakeTx(ebs, s, 0) == Fail(TooManyInputs, 4 + VarIntSerializeSize(n))
  {
    hide VarIntAt, TakeVarInt, TakeUint, TakeTxIns, TakeTail, MaxMessagePayload;
    FirstFour(s);
    VarIntReads(s, 4, n);
    CapsAre(ebs);
  }

  lemma FirstFour(s: bytes)
    requires |s| >= 4
    ensures TakeU32(s, 0).Ok? && TakeU32(s, 0).next == 4
  {
    hide FromLE;
  }

  // The stream begins like a message with n inputs, of which those in ins are read.
  ghost predicate InputsBegin(ebs: uint64, s: bytes, n: uint64, ins: seq<TxIn>) {
    && |s| >= 4 && VarIntAt(s, 4, n) && |ins| <= n <= InputCap(ebs) && TxInsAt(s, 4 + VarIntSerializeSize(n), ins)
    && forall i :: 0 <= i < |ins| ==> |ins[i].signatureScript| <= InputCap(ebs)
  }

  function InsEnd(n: uint64, ins: seq<TxIn>): nat { 4 + VarIntSerializeSize(n) + InsSize(ins) }

  lemma InputsRead(ebs: uint64, s: bytes, n: uint64, ins: seq<TxIn>)
    requires InputsBegin(ebs, s, n, ins)
    ensures TakeCount(ebs, s, 0) == Ok(n, 4 + VarIntSerializeSize(n))
    ensures TakeTxIns(ebs, s, 4 + VarIntSerializeSize(n), |ins|) == Ok(ins, InsEnd(n, ins))
    ensures InsEnd(n, ins) <= |s|
  {
    hide Has, VarIntAt, TakeVarInt, TakeU32, Many, EncMany, Lawful, TxInsAt, MaxMessagePayload, TakeTxIn, EncTxIn;
    var q := 4 + VarIntSerializeSize(n);
    FirstFour(s);
    VarIntReads(s, 4, n);
    CapsAre(ebs);
    TxInsAtIff(s, q, ins);
    HasWithin(s, q, EncTxIns(ins));
    TxInLawful(ebs);
    assert forall i :: 0 <= i < |ins| ==> TxInFit(ebs)(ins[i]);
    ManyComplete(TxInParser(ebs), EncTxIn, TxInFit(ebs), s, q, ins);
  }

  // The next input has a script over the cap.
  lemma InputScriptRefused(ebs: uint64, s: bytes, n: uint64, ins: seq<TxIn>, len: uint64)
    requires InputsBegin(ebs, s, n, ins) && |ins| < n
    requires InsEnd(n, ins) + 36 <= |s| && VarIntAt(s, InsEnd(n, ins) + 36, len) && len > InputCap(ebs)
    ensures TakeTx(ebs, s, 0) == Fail(ScriptTooLong, InsEnd(n, ins) + 36 + VarIntSerializeSize(len))
  {
    hide VarIntAt, TakeVarInt, TakeTxIns, TakeCount, TakeTx, TakeTail, InsSize, InputsBegin, MaxMessagePayload;
    var p := InsEnd(n, ins);
    InputsRead(ebs, s, n, ins);
    TakeTxSplit(ebs, s, 0);
    TakeTxInsStep(ebs, s, 4 + VarIntSerializeSize(n), |ins|, n);
    OutPointThere(s, p);
    VarIntReads(s, p + 36, len);
    CapsAre(ebs);
  }

  lemma OutPointThere(s: bytes, p: nat)
    requires p + 36 <= |s|
    ensures TakeOutPoint(s, p).Ok? && TakeOutPoint(s, p).next == p + 36
  {
    hide FromLE;
  }

  lemma OutputCountRefused(ebs: uint64, s: bytes, ins: seq<TxIn>, m: uint64)
    requires |ins| < TWO64 && InputsBegin(ebs, s, |ins|, ins)
    requires VarIntAt(s, InsEnd(|ins|, ins), m) && m > OutputCap(ebs)
    ensures TakeTx(ebs, s, 0) == Fail(TooManyOutputs, InsEnd(|ins|, ins) + VarIntSerializeSize(m))
  {
    hide VarIntAt, TakeVarInt, TakeTxIns, TakeTxOuts, TakeCount, TakeTx, InsSize, InputsBegin, MaxMessagePayload;
    InputsRead(ebs, s, |ins|, ins);
    TakeTxSplit(ebs, s, 0);
    VarIntReads(s, InsEnd(|ins|, ins), m);
    CapsAre(ebs);
  }

  // After the inputs the stream goes on with m outputs, of which those in outs are read.
  ghost predicate OutputsBegin(ebs: uint64, s: bytes, p: nat, m: uint64, outs: seq<TxOut>) {
    && VarIntAt(s, p, m) && |outs| <= m <= OutputCap(ebs) && TxOutsAt(s, p + VarIntSerializeSize(m), outs)
    && forall i :: 0 <= i < |outs| ==> |outs[i].pkScript| <= MessageCap(ebs)
  }

  lemma OutputsRead(ebs: uint64, s: bytes, p: nat, m: uint64, outs: seq<TxOut>)
    requires p <= |s| && OutputsBegin(ebs, s, p, m, outs)
    ensures TakeVarInt(s, p) == Ok(m, p + VarIntSerializeSize(m)) && m <= MaxTxOutPerMessage(ebs)
    ensures TakeTxOuts(ebs, s, p + VarIntSerializeSize(m), |outs|)
         == Ok(outs, p + VarIntSerializeSize(m) + OutsSize(outs))
  {
    hide Has, VarIntAt, TakeVarInt, Many, EncMany, Lawful, TxOutsAt, OutsSize, TakeTxOut, EncTxOut;
    hide MaxMessagePayload, MessageCap, MaxTxOutPerMessage, OutputCap, MaxTxInPerMessage, InputCap;
    var q := p + VarIntSerializeSize(m);
    VarIntReads(s, p, m);
    CapsAre(ebs);
    TxOutsAtIff(s, q, outs);
    HasWithin(s, q, EncTxOuts(outs));
    TxOutLawful(ebs);
    assert forall i :: 0 <= i < |outs| ==> TxOutFit(ebs)(outs[i]);
    ManyComplete(TxOutParser(ebs), EncTxOut, TxOutFit(ebs), s, q, outs);
  }

  // The next output has a script over the message limit.
  lemma OutputScriptRefused(ebs: uint64, s: bytes, ins: seq<TxIn>, m: uint64, outs: seq<TxOut>, len: uint64)
    requires |ins| < TWO64 && InputsBegin(ebs, s, |ins|, ins)
    requires OutputsBegin(ebs, s, InsEnd(|ins|, ins), m, outs) && |outs| < m
    requires var p := InsEnd(|ins|, ins) + VarIntSerializeSize(m) + OutsSize(outs) + 8;
             p <= |s| && VarIntAt(s, p, len) && len > MessageCap(ebs)
    ensures var p := InsEnd(|ins|, ins) + VarIntSerializeSize(m) + OutsSize(outs) + 8;
            TakeTx(ebs, s, 0) == Fail(ScriptTooLong, p + VarIntSerializeSize(len))
  {
    hide VarIntAt, TakeTxIns, TakeTail, TakeCount, TakeTx, InsSize, OutsSize, InputsBegin, OutputsBegin;
    hide MaxMessagePayload, MessageCap, MaxTxInPerMessage, InputCap, VarIntSerializeSize, TakeU32;
    InputsRead(ebs, s, |ins|, ins);
    TakeTxSplit(ebs, s, 0);
    TailScriptRefused(ebs, s, InsEnd(|ins|, ins), m, outs, len);
  }

  lemma TailScriptRefused(ebs: uint64, s: bytes, p: nat, m: uint64, outs: seq<TxOut>, len: uint64)
    requires p <= |s| && OutputsBegin(ebs, s, p, m, outs) && |outs| < m
    requires var q := p + VarIntSerializeSize(m) + OutsSize(outs) + 8;
             q <= |s| && VarIntAt(s, q, len) && len > MessageCap(ebs)
    ensures var q := p + VarIntSerializeSize(m) + OutsSize(outs) + 8;
            TakeTail(ebs, s, p) == Fail(ScriptTooLong, q + VarIntSerializeSize(len))
  {
    hide VarIntAt, TakeVarInt, TakeTxOuts, TakeTxOut, OutsSize, OutputsBegin;
    hide MaxMessagePayload, MessageCap, MaxTxOutPerMessage, OutputCap, MaxTxInPerMessage, InputCap;
    var q := p + VarIntSerializeSize(m);
    OutputsRead(ebs, s, p, m, outs);
    CapsAre(ebs);
    TakeTxOutsStep(ebs, s, q, |outs|, m);
    LongScriptRefused(ebs, s, q + OutsSize(outs), len);
  }

  lemma LongScriptRefused(ebs: uint64, s: bytes, p: nat, len: uint64)
    requires p + 8 <= |s| && VarIntAt(s, p + 8, len) && len > MaxMessagePayload(ebs)
    ensures TakeTxOut(ebs, s, p) == Fail(ScriptTooLong, p + 8 + VarIntSerializeSize(len))
  {
    hide VarIntAt, TakeVarInt, TakeUint, MaxMessagePayload;
    AmountThere(s, p);
    VarIntReads(s, p + 8, len);
  }

  lemma AmountThere(s: bytes, p: nat)
    requires p + 8 <= |s|
    ensures TakeU64(s, p).Ok? && TakeU64(s, p).next == p + 8
  {
    hide FromLE;
  }

  // Anything but the six marker bytes after the version, if the first of them is a count
  // of one byte.
  lemma MarkerRefused(ebs: uint64, s: bytes)
    requires |s| >= 10 && s[4] < 0xfd && s[4..10] != [0x00, 0x00, 0x00, 0x00, 0x00, 0xef]
    ensures TakeExtTx(ebs, s, 0) == Fail(BadExtendedMarker, 10)
  {
    hide TakeVarInt, TakeUint, TakeExtBody;
    FirstFour(s);
    assert s[4..5] == EncVarInt(s[4]);
    TakeVarIntComplete(s, 4, s[4]);
    assert s[4..10] == [s[4]] + s[5..10];
  }

  lemma TxCountRefused(ebs: uint64, s: bytes, n: uint64)
    requires |s| >= 80 && VarIntAt(s, 80, n) && n > TxCap(ebs)
    ensures TakeBlock(ebs, s, 0) == Fail(TooManyTransactions, 80 + VarIntSerializeSize(n))
  {
    hide VarIntAt, TakeVarInt, TakeTxs, FromLE;
    VarIntReads(s, 80, n);
    CapsAre(ebs);
  }

  // ---------- The kinds of error ----------

  predicate TxError(e: Error) {
    EndOfStream(e) || e == NonCanonicalVarInt || e == TooManyInputs || e == TooManyOutputs || e == ScriptTooLong
  }

  predicate VersionError(e: Error) {
    EndOfStream(e) || e == NonCanonicalVarInt || e == StringTooLong || e == UserAgentTooLong || e == BytesTooLong
  }

  ghost predicate FailsOnlyWith<T(!new)>(f: Parser<T>, ok: Error -> bool) {
    forall s: bytes, p: nat :: f(s, p).Fail? ==> ok(f(s, p).err)
  }

  lemma {:induction false} ManyErrors<T(!new)>(f: Parser<T>, ok: Error -> bool, s: bytes, p: nat, k: nat)
    requires FailsOnlyWith(f, ok)
    ensures Many(f, s, p, k).Fail? ==> ok(Many(f, s, p, k).err)
    decreases k
  {
    if k > 0 {
      ManyErrors(f, ok, s, p, k - 1);
    }
  }

  lemma VarIntErrors(s: bytes, p: nat)
    ensures TakeVarInt(s, p).Fail? ==> EndOfStream(TakeVarInt(s, p).err) || TakeVarInt(s, p).err == NonCanonicalVarInt
  {
    hide FromLE;
  }

  lemma TxInErrors(ebs: uint64, s: bytes, p: nat)
    ensures TakeTxIn(ebs, s, p).Fail? ==> TxError(TakeTxIn(ebs, s, p).err)
  {
    hide FromLE, TakeVarInt;
    VarIntErrors(s, TakeOutPoint(s, p).next);
  }

  lemma TxOutErrors(ebs: uint64, s: bytes, p: nat)
    ensures TakeTxOut(ebs, s, p).Fail? ==> TxError(TakeTxOut(ebs, s, p).err)
  {
    hide FromLE, TakeVarInt;
    VarIntErrors(s, TakeU64(s, p).next);
  }

  lemma TailErrors(ebs: uint64, s: bytes, p: nat)
    ensures TakeTail(ebs, s, p).Fail? ==> TxError(TakeTail(ebs, s, p).err)
  {
    hide TakeVarInt, Many, FromLE, TakeTxOut, MaxTxOutPerMessage;
    forall s: bytes, p: nat | TxOutParser(ebs)(s, p).Fail?
      ensures TxError(TxOutParser(ebs)(s, p).err)
    {
      TxOutErrors(ebs, s, p);
    }
    VarIntErrors(s, p);
    var c := TakeVarInt(s, p);
    if c.Ok? {
      ManyErrors(TxOutParser(ebs), TxError, s, c.next, c.value);
    }
  }

  lemma TxErrors(ebs: uint64, s: bytes, p: nat)
    ensures TakeTx(ebs, s, p).Fail? ==> TxError(TakeTx(ebs, s, p).err)
  {
    hide TakeVarInt, Many, FromLE, TakeTxIn, TakeTail, MaxTxInPerMessage;
    forall s: bytes, p: nat | TxInParser(ebs)(s, p).Fail?
      ensures TxError(TxInParser(ebs)(s, p).err)
    {
      TxInErrors(ebs, s, p);
    }
    VarIntErrors(s, p + 4);
    var c := TakeVarInt(s, p + 4);
    if c.Ok? {
      ManyErrors(TxInParser(ebs), TxError, s, c.next, c.value);
      TailErrors(ebs, s, TakeTxIns(ebs, s, c.next, c.value).next);
    }
  }

  lemma ExtTxInErrors(ebs: uint64, s: bytes, p: nat)
    ensures TakeExtTxIn(ebs, s, p).Fail? ==> TxError(TakeExtTxIn(ebs, s, p).err)
  {
    hide FromLE, TakeVarInt, TakeTxIn;
    TxInErrors(ebs, s, p);
    VarIntErrors(s, TakeU64(s, TakeTxIn(ebs, s, p).next).next);
  }

  lemma ExtTxErrors(ebs: uint64, s: bytes, p: nat)
    ensures var r := TakeExtTx(ebs, s, p); r.Fail? ==> TxError(r.err) || r.err == BadExtendedMarker
  {
    hide TakeVarInt, Many, FromLE, TakeExtTxIn, TakeTail, TakeMarker, MaxTxInPerMessage;
    forall s: bytes, p: nat | ExtTxInParser(ebs)(s, p).Fail?
      ensures TxError(ExtTxInParser(ebs)(s, p).err)
    {
      ExtTxInErrors(ebs, s, p);
    }
    MarkerErrors(s, p + 4);
    var q := TakeMarker(s, p + 4).next;
    VarIntErrors(s, q);
    var c := TakeVarInt(s, q);
    if c.Ok? {
      ManyErrors(ExtTxInParser(ebs), TxError, s, c.next, c.value);
      TailErrors(ebs, s, TakeExtTxIns(ebs, s, c.next, c.value).next);
    }
  }

  lemma MarkerErrors(s: bytes, p: nat)
    ensures var r := TakeMarker(s, p); r.Fail? ==> TxError(r.err) || r.err == BadExtendedMarker
  {
    hide TakeVarInt;
    VarIntErrors(s, p);
  }

  lemma BlockErrors(ebs: uint64, s: bytes, p: nat)
    ensures var r := TakeBlock(ebs, s, p); r.Fail? ==> TxError(r.err) || r.err == TooManyTransactions
  {
    hide TakeVarInt, Many, FromLE, TakeTx, MaxTxPerBlock;
    forall s: bytes, p: nat | TxParser(ebs)(s, p).Fail?
      ensures TxError(TxParser(ebs)(s, p).err)
    {
      TxErrors(ebs, s, p);
    }
    VarIntErrors(s, p + 80);
    var c := TakeVarInt(s, p + 80);
    if c.Ok? {
      ManyErrors(TxParser(ebs), TxError, s, c.next, c.value);
    }
  }

  lemma AddressErrors(s: bytes, p: nat)
    ensures TakeAddress(s, p).Fail? ==> EndOfStream(TakeAddress(s, p).err)
  {
    hide FromLE;
  }

  // From the last block on.
  lemma TrailingErrors(s: bytes, p: nat, v: Version)
    ensures var r := TakeLastBlock(s, p, v); r.Fail? ==> VersionError(r.err)
  {
    hide FromLE, TakeVarInt;
    forall q: nat
      ensures TakeVarInt(s, q).Fail? ==> EndOfStream(TakeVarInt(s, q).err) || TakeVarInt(s, q).err == NonCanonicalVarInt
    {
      VarIntErrors(s, q);
    }
  }

  lemma UserAgentErrors(ebs: uint64, s: bytes, p: nat)
    ensures var r := TakeUserAgentText(ebs, s, p); r.Fail? ==> VersionError(r.err)
  {
    hide TakeVarInt, MaxMessagePayload;
    VarIntErrors(s, p);
  }

  lemma FixedErrors(s: bytes, p: nat, v: Version)
    ensures var r := TakeFixed(s, p, v); r.Fail? ==> EndOfStream(r.err)
  {
    hide FromLE, TakeAddress;
    AddressErrors(s, p + 20);
  }

  lemma VersionErrors(ebs: uint64, s: bytes, p: nat, v: Version)
    ensures TakeVersion(ebs, s, p, v).Fail? ==> VersionError(TakeVersion(ebs, s, p, v).err)
  {
    hide FromLE, TakeFixed, TakeAddress, TakeUserAgentText, TakeLastBlock;
    FixedErrors(s, p, v);
    forall q: nat
      ensures TakeAddress(s, q).Fail? ==> EndOfStream(TakeAddress(s, q).err)
      ensures TakeUserAgentText(ebs, s, q).Fail? ==> VersionError(TakeUserAgentText(ebs, s, q).err)
    {
      AddressErrors(s, q);
      UserAgentErrors(ebs, s, q);
    }
    forall q: nat, w
      ensures TakeLastBlock(s, q, w).Fail? ==> VersionError(TakeLastBlock(s, q, w).err)
    {
      TrailingErrors(s, q, w);
    }
  }
}
