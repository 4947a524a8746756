/**
 Transactions as values: parser, printer and their laws (msg_tx.go).
 */
module Transactions {
  import opened Bytes
  import opened Parsing
  import opened VarInts
  import opened Repetition
  import opened Limits

  datatype OutPoint = OutPoint(hash: Hash, index: uint32)
  datatype TxIn = TxIn(previousOutPoint: OutPoint, signatureScript: bytes, sequence: uint32)
  datatype TxOut = TxOut(value: int64, pkScript: bytes)
  datatype Tx = Tx(version: int32, txIn: seq<TxIn>, txOut: seq<TxOut>, lockTime: uint32)

  // ---------- Printer ----------

  function EncOutPoint(o: OutPoint): (r: bytes)
    ensures |r| == 36
  {
    o.hash + LE(4, o.index)
  }

  function EncTxIn(i: TxIn): bytes {
    EncOutPoint(i.previousOutPoint) + (EncVarBytes(i.signatureScript) + LE(4, i.sequence))
  }

  function EncTxOut(o: TxOut): bytes {
    LE(8, AsUint64(o.value)) + EncVarBytes(o.pkScript)
  }

  function EncTxIns(xs: seq<TxIn>): bytes { EncMany(EncTxIn, xs) }

  function EncTxOuts(xs: seq<TxOut>): bytes { EncMany(EncTxOut, xs) }

  // Counted outputs and the lock time: the part shared with the extended format.
  function EncTail(outs: seq<TxOut>, lockTime: uint32): bytes {
    EncVarInt(|outs|) + (EncTxOuts(outs) + LE(4, lockTime))
  }

  function EncTx(t: Tx): bytes {
    LE(4, AsUint32(t.version)) + (EncVarInt(|t.txIn|) + (EncTxIns(t.txIn) + EncTail(t.txOut, t.lockTime)))
  }

  // ---------- Parser ----------

  function TakeOutPoint(s: bytes, p: nat): (r: Parsed<OutPoint>)
    ensures Bounded(r, s, p)
  {
    match TakeHash(s, p)
    case Fail(e, q) => Fail(e, q)
    case Ok(h, q) =>
      match TakeU32(s, q)
      case Fail(e, t) => Fail(e, t)
      case Ok(i, t) => Ok(OutPoint(h, i), t)
  }

  // The signature script is capped by the input count limit, taken as bytes.
  function TakeTxIn(ebs: uint64, s: bytes, p: nat): (r: Parsed<TxIn>)
    ensures Bounded(r, s, p)
  {
    match TakeOutPoint(s, p)
    case Fail(e, q) => Fail(e, q)
    case Ok(o, q) =>
      match TakeVarBytes(s, q, MaxTxInPerMessage(ebs), ScriptTooLong)
      case Fail(e, t) => Fail(e, t)
      case Ok(b, t) =>
        match TakeU32(s, t)
        case Fail(e, u) => Fail(e, u)
        case Ok(n, u) => Ok(TxIn(o, b, n), u)
  }

  function TakeTxOut(ebs: uint64, s: bytes, p: nat): (r: Parsed<TxOut>)
    ensures Bounded(r, s, p)
  {
    match TakeU64(s, p)
    case Fail(e, q) => Fail(e, q)
    case Ok(v, q) =>
      match TakeVarBytes(s, q, MaxMessagePayload(ebs), ScriptTooLong)
      case Fail(e, t) => Fail(e, t)
      case Ok(b, t) => Ok(TxOut(AsInt64(v), b), t)
  }

  function TxInParser(ebs: uint64): Parser<TxIn> { (s: bytes, p: nat) => TakeTxIn(ebs, s, p) }

  function TxOutParser(ebs: uint64): Parser<TxOut> { (s: bytes, p: nat) => TakeTxOut(ebs, s, p) }

  function TakeTxIns(ebs: uint64, s: bytes, p: nat, k: nat): (r: Parsed<seq<TxIn>>)
    ensures Bounded(r, s, p)
    ensures k == 0 ==> r == Ok([], p)
    ensures r.Ok? ==> |r.value| == k
  {
    ManyBounded(TxInParser(ebs), s, p, k);
    Many(TxInParser(ebs), s, p, k)
  }

  function TakeTxOuts(ebs: uint64, s: bytes, p: nat, k: nat): (r: Parsed<seq<TxOut>>)
    ensures Bounded(r, s, p)
    ensures k == 0 ==> r == Ok([], p)
    ensures r.Ok? ==> |r.value| == k
  {
    ManyBounded(TxOutParser(ebs), s, p, k);
    Many(TxOutParser(ebs), s, p, k)
  }

  function TakeTail(ebs: uint64, s: bytes, p: nat): (r: Parsed<(seq<TxOut>, uint32)>)
    ensures Bounded(r, s, p)
  {
    match TakeVarInt(s, p)
    case Fail(e, q) => Fail(e, q)
    case Ok(k, q) =>
      if k > MaxTxOutPerMessage(ebs) then Fail(TooManyOutputs, q) else
      match TakeTxOuts(ebs, s, q, k)
      case Fail(e, t) => Fail(e, t)
      case Ok(outs, t) =>
        match TakeU32(s, t)
        case Fail(e, u) => Fail(e, u)
        case Ok(l, u) => Ok((outs, l), u)
  }

  // Everything after the version.
  function TakeBody(ebs: uint64, version: int32, s: bytes, p: nat): (r: Parsed<Tx>)
    ensures Bounded(r, s, p)
  {
    match TakeVarInt(s, p)
    case Fail(e, q) => Fail(e, q)
    case Ok(k, q) =>
      if k > MaxTxInPerMessage(ebs) then Fail(TooManyInputs, q) else
      match TakeTxIns(ebs, s, q, k)
      case Fail(e, t) => Fail(e, t)
      case Ok(ins, t) =>
        match TakeTail(ebs, s, t)
        case Fail(e, u) => Fail(e, u)
        case Ok((outs, l), u) => Ok(Tx(version, ins, outs, l), u)
  }

  function TakeTx(ebs: uint64, s: bytes, p: nat): (r: Parsed<Tx>)
    ensures Bounded(r, s, p)
  {
    match TakeU32(s, p)
    case Fail(e, q) => Fail(e, q)
    case Ok(v, q) => TakeBody(ebs, AsInt32(v), s, q)
  }

  // ---------- Step by step, as the decoder goes ----------

  // Everything before the inputs; the value is their number.
  function TakeCount(ebs: uint64, s: bytes, p: nat): (r: Parsed<uint64>)
    ensures Bounded(r, s, p)
  {
    match TakeU32(s, p)
    case Fail(e, q) => Fail(e, q)
    case Ok(_, q) =>
      match TakeVarInt(s, q)
      case Fail(e, t) => Fail(e, t)
      case Ok(n, t) => if n > MaxTxInPerMessage(ebs) then Fail(TooManyInputs, t) else Ok(n, t)
  }

  // The parser, cut where the inputs begin and where they end.
  lemma TakeTxSplit(ebs: uint64, s: bytes, p: nat)
    ensures match TakeCount(ebs, s, p)
            case Fail(e, q) => TakeTx(ebs, s, p) == Fail(e, q)
            case Ok(n, q) =>
              TakeU32(s, p).Ok? &&
              match TakeTxIns(ebs, s, q, n)
              case Fail(e, t) => TakeTx(ebs, s, p) == Fail(e, t)
              case Ok(ins, t) =>
                match TakeTail(ebs, s, t)
                case Fail(e, u) => TakeTx(ebs, s, p) == Fail(e, u)
                case Ok((outs, l), u) =>
                  TakeTx(ebs, s, p) == Ok(Tx(AsInt32(TakeU32(s, p).value), ins, outs, l), u)
  {
    hide TakeU32, TakeVarInt, TakeTxIns, TakeTail, MaxTxInPerMessage;
  }

  lemma TakeTxInsStep(ebs: uint64, s: bytes, p: nat, i: nat, k: nat)
    requires i < k
    requires TakeTxIns(ebs, s, p, i).Ok?
    ensures var Ok(xs, q) := TakeTxIns(ebs, s, p, i);
            match TakeTxIn(ebs, s, q)
            case Ok(x, t) => TakeTxIns(ebs, s, p, i + 1) == Ok(xs + [x], t)
            case Fail(e, t) => TakeTxIns(ebs, s, p, k) == Fail(e, t)
  {
    hide TakeTxIn;
    ManyStep(TxInParser(ebs), s, p, i, k);
  }

  lemma TakeTxOutsStep(ebs: uint64, s: bytes, p: nat, i: nat, k: nat)
    requires i < k
    requires TakeTxOuts(ebs, s, p, i).Ok?
    ensures var Ok(xs, q) := TakeTxOuts(ebs, s, p, i);
            match TakeTxOut(ebs, s, q)
            case Ok(x, t) => TakeTxOuts(ebs, s, p, i + 1) == Ok(xs + [x], t)
            case Fail(e, t) => TakeTxOuts(ebs, s, p, k) == Fail(e, t)
  {
    hide TakeTxOut;
    ManyStep(TxOutParser(ebs), s, p, i, k);
  }

  // ---------- What fits the decoder's limits ----------

  predicate TxInFits(ebs: uint64, i: TxIn) { |i.signatureScript| <= MaxTxInPerMessage(ebs) }

  predicate TxOutFits(ebs: uint64, o: TxOut) { |o.pkScript| <= MaxMessagePayload(ebs) }

  function TxInFit(ebs: uint64): TxIn -> bool { i => TxInFits(ebs, i) }

  function TxOutFit(ebs: uint64): TxOut -> bool { o => TxOutFits(ebs, o) }

  predicate TailFits(ebs: uint64, outs: seq<TxOut>) {
    && |outs| <= MaxTxOutPerMessage(ebs)
    && forall i :: 0 <= i < |outs| ==> TxOutFits(ebs, outs[i])
  }

  predicate TxFits(ebs: uint64, t: Tx) {
    && |t.txIn| <= MaxTxInPerMessage(ebs)
    && (forall i :: 0 <= i < |t.txIn| ==> TxInFits(ebs, t.txIn[i]))
    && TailFits(ebs, t.txOut)
  }

  // ---------- Laws of the parts ----------

  lemma TakeOutPointIff(s: bytes, p: nat, o: OutPoint, q: nat)
    requires p <= |s|
    ensures TakeOutPoint(s, p) == Ok(o, q) <==> Has(s, p, EncOutPoint(o)) && q == p + 36
  {
    hide Has, LE, TakeU32, TakeN;
    HasConcat(s, p, o.hash, LE(4, o.index));
    TakeNIff(s, p, 32, o.hash, p + 32);
    if p + 32 <= |s| {
      TakeU32Iff(s, p + 32, o.index, p + 36);
    }
  }

  lemma TakeTxInSound(ebs: uint64, s: bytes, p: nat)
    requires p <= |s|
    requires TakeTxIn(ebs, s, p).Ok?
    ensures var Ok(x, q) := TakeTxIn(ebs, s, p);
            TxInFits(ebs, x) && Has(s, p, EncTxIn(x)) && q == p + |EncTxIn(x)|
  {
    hide Has, LE, TakeU32, TakeVarBytes, EncVarBytes, TakeOutPoint, EncOutPoint, MaxTxInPerMessage;
    var Ok(x, u) := TakeTxIn(ebs, s, p);
    var Ok(o, q) := TakeOutPoint(s, p);
    var Ok(b, t) := TakeVarBytes(s, q, MaxTxInPerMessage(ebs), ScriptTooLong);
    TakeOutPointIff(s, p, o, q);
    TakeVarBytesIff(s, q, MaxTxInPerMessage(ebs), ScriptTooLong, b, t);
    TakeU32Iff(s, t, x.sequence, u);
    HasConcat(s, q, EncVarBytes(b), LE(4, x.sequence));
    HasConcat(s, p, EncOutPoint(o), EncVarBytes(b) + LE(4, x.sequence));
  }

  lemma TakeTxInComplete(ebs: uint64, s: bytes, p: nat, x: TxIn)
    requires TxInFits(ebs, x)
    requires Has(s, p, EncTxIn(x))
    ensures TakeTxIn(ebs, s, p) == Ok(x, p + |EncTxIn(x)|)
  {
    hide Has, LE, TakeU32, TakeVarBytes, EncVarBytes, TakeOutPoint, EncOutPoint, MaxTxInPerMessage;
    HasWithin(s, p, EncTxIn(x));
    var q := p + 36;
    var b := x.signatureScript;
    var t := q + |EncVarBytes(b)|;
    HasConcat(s, p, EncOutPoint(x.previousOutPoint), EncVarBytes(b) + LE(4, x.sequence));
    HasConcat(s, q, EncVarBytes(b), LE(4, x.sequence));
    TakeOutPointIff(s, p, x.previousOutPoint, q);
    TakeVarBytesIff(s, q, MaxTxInPerMessage(ebs), ScriptTooLong, b, t);
    TakeU32Iff(s, t, x.sequence, t + 4);
  }

  lemma TxInLawful(ebs: uint64)
    ensures Lawful(TxInParser(ebs), EncTxIn, TxInFit(ebs))
  {
    hide Has, EncTxIn, EncTxOut, TakeTxIn, TakeTxOut, TxInFits, TxOutFits;
    forall s, p: nat | p <= |s| && TxInParser(ebs)(s, p).Ok?
      ensures var Ok(x, q) := TxInParser(ebs)(s, p);
              TxInFit(ebs)(x) && Has(s, p, EncTxIn(x)) && q == p + |EncTxIn(x)|
    {
      TakeTxInSound(ebs, s, p);
    }
    forall s, p: nat, x | Has(s, p, EncTxIn(x)) && TxInFit(ebs)(x)
      ensures TxInParser(ebs)(s, p) == Ok(x, p + |EncTxIn(x)|)
    {
      TakeTxInComplete(ebs, s, p, x);
    }
  }

  lemma TakeTxOutSound(ebs: uint64, s: bytes, p: nat)
    requires p <= |s|
    requires TakeTxOut(ebs, s, p).Ok?
    ensures var Ok(x, q) := TakeTxOut(ebs, s, p);
            TxOutFits(ebs, x) && Has(s, p, EncTxOut(x)) && q == p + |EncTxOut(x)|
  {
    hide Has, LE, TakeU64, TakeVarBytes, EncVarBytes, MaxMessagePayload;
    var Ok(x, t) := TakeTxOut(ebs, s, p);
    var Ok(v, q) := TakeU64(s, p);
    TakeU64Iff(s, p, v, q);
    TakeVarBytesIff(s, q, MaxMessagePayload(ebs), ScriptTooLong, x.pkScript, t);
    HasConcat(s, p, LE(8, v), EncVarBytes(x.pkScript));
  }

  lemma TakeTxOutComplete(ebs: uint64, s: bytes, p: nat, x: TxOut)
    requires TxOutFits(ebs, x)
    requires Has(s, p, EncTxOut(x))
    ensures TakeTxOut(ebs, s, p) == Ok(x, p + |EncTxOut(x)|)
  {
    hide Has, LE, TakeU64, TakeVarBytes, EncVarBytes, MaxMessagePayload;
    HasWithin(s, p, EncTxOut(x));
    var v := AsUint64(x.value);
    HasConcat(s, p, LE(8, v), EncVarBytes(x.pkScript));
    TakeU64Iff(s, p, v, p + 8);
    TakeVarBytesIff(s, p + 8, MaxMessagePayload(ebs), ScriptTooLong, x.pkScript, p + |EncTxOut(x)|);
  }

  lemma TxOutLawful(ebs: uint64)
    ensures Lawful(TxOutParser(ebs), EncTxOut, TxOutFit(ebs))
  {
    hide Has, EncTxIn, EncTxOut, TakeTxIn, TakeTxOut, TxInFits, TxOutFits;
    forall s, p: nat | p <= |s| && TxOutParser(ebs)(s, p).Ok?
      ensures var Ok(x, q) := TxOutParser(ebs)(s, p);
              TxOutFit(ebs)(x) && Has(s, p, EncTxOut(x)) && q == p + |EncTxOut(x)|
    {
      TakeTxOutSound(ebs, s, p);
    }
    forall s, p: nat, x | Has(s, p, EncTxOut(x)) && TxOutFit(ebs)(x)
      ensures TxOutParser(ebs)(s, p) == Ok(x, p + |EncTxOut(x)|)
    {
      TakeTxOutComplete(ebs, s, p, x);
    }
  }

  lemma TakeTailSound(ebs: uint64, s: bytes, p: nat)
    requires p <= |s|
    requires TakeTail(ebs, s, p).Ok?
    ensures var Ok((outs, l), q) := TakeTail(ebs, s, p);
            TailFits(ebs, outs) && Has(s, p, EncTail(outs, l)) && q == p + |EncTail(outs, l)|
  {
    hide Has, LE, TakeU32, TakeVarInt, EncVarInt, Many, EncMany, Lawful, MaxTxOutPerMessage, TakeTxOut, EncTxOut;
    var Ok((outs, l), u) := TakeTail(ebs, s, p);
    var Ok(k, q) := TakeVarInt(s, p);
    var t := TakeTxOuts(ebs, s, q, k).next;
    TakeVarIntSound(s, p);
    TxOutLawful(ebs);
    ManySound(TxOutParser(ebs), EncTxOut, TxOutFit(ebs), s, q, k);
    assert forall i :: 0 <= i < |outs| ==> TxOutFit(ebs)(outs[i]) ==> TxOutFits(ebs, outs[i]);
    TakeU32Iff(s, t, l, u);
    HasConcat(s, q, EncTxOuts(outs), LE(4, l));
    HasConcat(s, p, EncVarInt(|outs|), EncTxOuts(outs) + LE(4, l));
  }

  lemma TakeTailComplete(ebs: uint64, s: bytes, p: nat, outs: seq<TxOut>, l: uint32)
    requires TailFits(ebs, outs)
    requires Has(s, p, EncTail(outs, l))
    ensures TakeTail(ebs, s, p) == Ok((outs, l), p + |EncTail(outs, l)|)
  {
    hide Has, LE, TakeU32, TakeVarInt, EncVarInt, Many, EncMany, Lawful, MaxTxOutPerMessage, TakeTxOut, EncTxOut;
    HasWithin(s, p, EncTail(outs, l));
    var q := p + |EncVarInt(|outs|)|;
    var t := q + |EncTxOuts(outs)|;
    HasConcat(s, p, EncVarInt(|outs|), EncTxOuts(outs) + LE(4, l));
    HasConcat(s, q, EncTxOuts(outs), LE(4, l));
    TakeVarIntComplete(s, p, |outs|);
    TxOutLawful(ebs);
    ManyComplete(TxOutParser(ebs), EncTxOut, TxOutFit(ebs), s, q, outs);
    TakeU32Iff(s, t, l, t + 4);
  }

  // ---------- Canonical encoding of transactions ----------

  lemma TakeTxSound(ebs: uint64, s: bytes, p: nat)
    requires p <= |s|
    requires TakeTx(ebs, s, p).Ok?
    ensures var Ok(x, q) := TakeTx(ebs, s, p);
            TxFits(ebs, x) && Has(s, p, EncTx(x)) && q == p + |EncTx(x)|
  {
    hide Has, LE, TakeU32, TakeVarInt, EncVarInt, Many, EncMany, Lawful, MaxTxInPerMessage, TakeTxIn, EncTxIn;
    hide TakeTail, EncTail, TailFits;
    var Ok(x, w) := TakeTx(ebs, s, p);
    var Ok(v, q) := TakeU32(s, p);
    var Ok(k, t) := TakeVarInt(s, q);
    var Ok(ins, u) := TakeTxIns(ebs, s, t, k);
    TakeU32Iff(s, p, v, q);
    TakeVarIntSound(s, q);
    TxInLawful(ebs);
    ManySound(TxInParser(ebs), EncTxIn, TxInFit(ebs), s, t, k);
    assert forall i :: 0 <= i < |ins| ==> TxInFit(ebs)(ins[i]) ==> TxInFits(ebs, ins[i]);
    TakeTailSound(ebs, s, u);
    var tail := EncTail(x.txOut, x.lockTime);
    HasConcat(s, t, EncTxIns(ins), tail);
    HasConcat(s, q, EncVarInt(|ins|), EncTxIns(ins) + tail);
    HasConcat(s, p, LE(4, v), EncVarInt(|ins|) + (EncTxIns(ins) + tail));
  }

  lemma TakeTxComplete(ebs: uint64, s: bytes, p: nat, x: Tx)
    requires TxFits(ebs, x)
    requires Has(s, p, EncTx(x))
    ensures TakeTx(ebs, s, p) == Ok(x, p + |EncTx(x)|)
  {
    hide Has, LE, TakeU32, TakeVarInt, EncVarInt, Many, EncMany, Lawful, MaxTxInPerMessage, TakeTxIn, EncTxIn;
    hide TakeTail, EncTail, TailFits;
    HasWithin(s, p, EncTx(x));
    var v, ins, tail := AsUint32(x.version), x.txIn, EncTail(x.txOut, x.lockTime);
    var q := p + 4;
    var t := q + |EncVarInt(|ins|)|;
    var u := t + |EncTxIns(ins)|;
    HasConcat(s, p, LE(4, v), EncVarInt(|ins|) + (EncTxIns(ins) + tail));
    HasConcat(s, q, EncVarInt(|ins|), EncTxIns(ins) + tail);
    HasConcat(s, t, EncTxIns(ins), tail);
    TakeU32Iff(s, p, v, q);
    TakeVarIntComplete(s, q, |ins|);
    TxInLawful(ebs);
    ManyComplete(TxInParser(ebs), EncTxIn, TxInFit(ebs), s, t, ins);
    TakeTailComplete(ebs, s, u, x.txOut, x.lockTime);
  }

  // The decoder accepts exactly the encodings of the transactions within its limits.
  lemma TakeTxIff(ebs: uint64, s: bytes, p: nat, x: Tx, q: nat)
    requires p <= |s|
    ensures TakeTx(ebs, s, p) == Ok(x, q)
       <==> TxFits(ebs, x) && Has(s, p, EncTx(x)) && q == p + |EncTx(x)|
  {
    hide Has, TakeTx, EncTx, TxFits;
    if TakeTx(ebs, s, p).Ok? {
      TakeTxSound(ebs, s, p);
    }
    if TxFits(ebs, x) && Has(s, p, EncTx(x)) {
      TakeTxComplete(ebs, s, p, x);
    }
  }

  // ---------- Relocation ----------

  lemma TakeOutPointShift(s: bytes, a: nat, p: nat)
    requires a <= |s|
    ensures TakeOutPoint(s, a + p) == TakeOutPoint(s[a..], p).Shift(a)
  {
    hide TakeUint, TakeN;
    TakeNShift(s, a, p, 32);
    TakeUintShift(s, a, p + 32, 4);
  }

  lemma TakeTxInShift(ebs: uint64, s: bytes, a: nat, p: nat)
    requires a <= |s|
    ensures TakeTxIn(ebs, s, a + p) == TakeTxIn(ebs, s[a..], p).Shift(a)
  {
    hide TakeUint, TakeVarBytes, TakeOutPoint, MaxTxInPerMessage;
    TakeOutPointShift(s, a, p);
    var q := TakeOutPoint(s[a..], p).next;
    TakeVarBytesShift(s, a, q, MaxTxInPerMessage(ebs), ScriptTooLong);
    var t := TakeVarBytes(s[a..], q, MaxTxInPerMessage(ebs), ScriptTooLong).next;
    TakeUintShift(s, a, t, 4);
  }

  lemma TakeTxOutShift(ebs: uint64, s: bytes, a: nat, p: nat)
    requires a <= |s|
    ensures TakeTxOut(ebs, s, a + p) == TakeTxOut(ebs, s[a..], p).Shift(a)
  {
    hide TakeUint, TakeVarBytes;
    TakeUintShift(s, a, p, 8);
    TakeVarBytesShift(s, a, p + 8, MaxMessagePayload(ebs), ScriptTooLong);
  }

  lemma TakeTxInsShift(ebs: uint64, s: bytes, a: nat, p: nat, k: nat)
    requires a <= |s|
    ensures TakeTxIns(ebs, s, a + p, k) == TakeTxIns(ebs, s[a..], p, k).Shift(a)
  {
    hide TakeTxIn, Many;
    forall s, a: nat, p: nat | a <= |s|
      ensures TxInParser(ebs)(s, a + p) == TxInParser(ebs)(s[a..], p).Shift(a)
    {
      TakeTxInShift(ebs, s, a, p);
    }
    ManyShift(TxInParser(ebs), s, a, p, k);
  }

  lemma TakeTxOutsShift(ebs: uint64, s: bytes, a: nat, p: nat, k: nat)
    requires a <= |s|
    ensures TakeTxOuts(ebs, s, a + p, k) == TakeTxOuts(ebs, s[a..], p, k).Shift(a)
  {
    hide TakeTxOut, Many;
    forall s, a: nat, p: nat | a <= |s|
      ensures TxOutParser(ebs)(s, a + p) == TxOutParser(ebs)(s[a..], p).Shift(a)
    {
      TakeTxOutShift(ebs, s, a, p);
    }
    ManyShift(TxOutParser(ebs), s, a, p, k);
  }

  lemma TakeTailShift(ebs: uint64, s: bytes, a: nat, p: nat)
    requires a <= |s|
    ensures TakeTail(ebs, s, a + p) == TakeTail(ebs, s[a..], p).Shift(a)
  {
    hide TakeUint, TakeVarInt, TakeTxOuts, MaxTxOutPerMessage;
    TakeVarIntShift(s, a, p);
    var r := TakeVarInt(s[a..], p);
    if r.Ok? {
      TakeTxOutsShift(ebs, s, a, r.next, r.value);
      TakeUintShift(s, a, TakeTxOuts(ebs, s[a..], r.next, r.value).next, 4);
    }
  }

  // Decoding looks only at the bytes from its position on.
  lemma TakeTxShift(ebs: uint64, s: bytes, a: nat, p: nat)
    requires a <= |s|
    ensures TakeTx(ebs, s, a + p) == TakeTx(ebs, s[a..], p).Shift(a)
  {
    hide TakeUint, TakeVarInt, TakeTxIns, TakeTail, MaxTxInPerMessage;
    TakeUintShift(s, a, p, 4);
    TakeVarIntShift(s, a, p + 4);
    var r := TakeVarInt(s[a..], p + 4);
    if r.Ok? {
      TakeTxInsShift(ebs, s, a, r.next, r.value);
      TakeTailShift(ebs, s, a, TakeTxIns(ebs, s[a..], r.next, r.value).next);
    }
  }
}
