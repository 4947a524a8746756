/**
 Extended-format transactions as values: parser, printer and their laws
 (msg_extended_tx.go). An extended input carries the amount and the script of the
 output it spends; a six-byte marker after the version tells the format apart.
 */
module ExtendedTransactions {
  import opened Bytes
  import opened Parsing
  import opened VarInts
  import opened Repetition
  import opened Limits
  import opened Transactions

  datatype ExtTxIn = ExtTxIn(
    previousOutPoint: OutPoint, previousTxSatoshis: uint64, previousTxScript: bytes,
    signatureScript: bytes, sequence: uint32)
  {
    function Plain(): TxIn { TxIn(previousOutPoint, signatureScript, sequence) }
  }

  datatype ExtTx = ExtTx(version: int32, txIn: seq<ExtTxIn>, txOut: seq<TxOut>, lockTime: uint32) {
    // The plain transaction with the same inputs and outputs.
    function Plain(): Tx {
      Tx(version, PlainIns(txIn), txOut, lockTime)
    }
  }

  function PlainIns(vs: seq<ExtTxIn>): seq<TxIn> {
    seq(|vs|, i requires 0 <= i < |vs| => vs[i].Plain())
  }

  const EF_HEADER: bytes := [0x00, 0x00, 0x00, 0x00, 0xEF]
  const MARKER: bytes := [0x00, 0x00, 0x00, 0x00, 0x00, 0xEF]

  // ---------- Printer ----------

  function EncExtTxIn(i: ExtTxIn): bytes {
    EncTxIn(i.Plain()) + (LE(8, i.previousTxSatoshis) + EncVarBytes(i.previousTxScript))
  }

  function EncExtTxIns(xs: seq<ExtTxIn>): bytes { EncMany(EncExtTxIn, xs) }

  // Everything after the marker.
  function EncExtBody(ins: seq<ExtTxIn>, outs: seq<TxOut>, lockTime: uint32): bytes {
    EncVarInt(|ins|) + (EncExtTxIns(ins) + EncTail(outs, lockTime))
  }

  function EncExtTx(t: ExtTx): bytes {
    LE(4, AsUint32(t.version)) + (MARKER + EncExtBody(t.txIn, t.txOut, t.lockTime))
  }

  // ---------- Parser ----------

  // Both scripts of an extended input are capped by the input count limit.
  function TakeExtTxIn(ebs: uint64, s: bytes, p: nat): (r: Parsed<ExtTxIn>)
    ensures Bounded(r, s, p)
  {
    match TakeTxIn(ebs, s, p)
    case Fail(e, q) => Fail(e, q)
    case Ok(i, q) =>
      match TakeU64(s, q)
      case Fail(e, t) => Fail(e, t)
      case Ok(v, t) =>
        match TakeVarBytes(s, t, MaxTxInPerMessage(ebs), ScriptTooLong)
        case Fail(e, u) => Fail(e, u)
        case Ok(b, u) => Ok(ExtTxIn(i.previousOutPoint, v, b, i.signatureScript, i.sequence), u)
  }

  function ExtTxInParser(ebs: uint64): Parser<ExtTxIn> { (s: bytes, p: nat) => TakeExtTxIn(ebs, s, p) }

  function TakeExtTxIns(ebs: uint64, s: bytes, p: nat, k: nat): (r: Parsed<seq<ExtTxIn>>)
    ensures Bounded(r, s, p)
    ensures k == 0 ==> r == Ok([], p)
    ensures r.Ok? ==> |r.value| == k
  {
    ManyBounded(ExtTxInParser(ebs), s, p, k);
    Many(ExtTxInParser(ebs), s, p, k)
  }

  // The zero count and the five further marker bytes; their value is checked last.
  function TakeMarker(s: bytes, p: nat): (r: Parsed<()>)
    ensures Bounded(r, s, p)
  {
    match TakeVarInt(s, p)
    case Fail(e, q) => Fail(e, q)
    case Ok(k, q) =>
      match TakeN(s, q, 5)
      case Fail(e, t) => Fail(e, t)
      case Ok(h, t) => if k != 0 || h != EF_HEADER then Fail(BadExtendedMarker, t) else Ok((), t)
  }

  function TakeExtBody(ebs: uint64, version: int32, s: bytes, p: nat): (r: Parsed<ExtTx>)
    ensures Bounded(r, s, p)
  {
    match TakeVarInt(s, p)
    case Fail(e, q) => Fail(e, q)
    case Ok(k, q) =>
      if k > MaxTxInPerMessage(ebs) then Fail(TooManyInputs, q) else
      match TakeExtTxIns(ebs, s, q, k)
      case Fail(e, t) => Fail(e, t)
      case Ok(ins, t) =>
        match TakeTail(ebs, s, t)
        case Fail(e, u) => Fail(e, u)
        case Ok((outs, l), u) => Ok(ExtTx(version, ins, outs, l), u)
  }

  function TakeExtTx(ebs: uint64, s: bytes, p: nat): (r: Parsed<ExtTx>)
    ensures Bounded(r, s, p)
  {
    match TakeU32(s, p)
    case Fail(e, q) => Fail(e, q)
    case Ok(v, q) =>
      match TakeMarker(s, q)
      case Fail(e, t) => Fail(e, t)
      case Ok(_, t) => TakeExtBody(ebs, AsInt32(v), s, t)
  }

  // ---------- Step by step, as the decoder goes ----------

  // Everything before the inputs; the value is their number.
  function TakeExtCount(ebs: uint64, s: bytes, p: nat): (r: Parsed<uint64>)
    ensures Bounded(r, s, p)
  {
    match TakeU32(s, p)
    case Fail(e, q) => Fail(e, q)
    case Ok(_, q) =>
      match TakeMarker(s, q)
      case Fail(e, t) => Fail(e, t)
      case Ok(_, t) =>
        match TakeVarInt(s, t)
        case Fail(e, u) => Fail(e, u)
        case Ok(n, u) => if n > MaxTxInPerMessage(ebs) then Fail(TooManyInputs, u) else Ok(n, u)
  }

  // The parser, cut where the inputs begin and where they end.
  lemma TakeExtTxSplit(ebs: uint64, s: bytes, p: nat)
    ensures match TakeExtCount(ebs, s, p)
            case Fail(e, q) => TakeExtTx(ebs, s, p) == Fail(e, q)
            case Ok(n, q) =>
              TakeU32(s, p).Ok? &&
              match TakeExtTxIns(ebs, s, q, n)
              case Fail(e, t) => TakeExtTx(ebs, s, p) == Fail(e, t)
              case Ok(ins, t) =>
                match TakeTail(ebs, s, t)
                case Fail(e, u) => TakeExtTx(ebs, s, p) == Fail(e, u)
                case Ok((outs, l), u) =>
                  TakeExtTx(ebs, s, p) == Ok(ExtTx(AsInt32(TakeU32(s, p).value), ins, outs, l), u)
  {
    hide TakeU32, TakeMarker, TakeVarInt, TakeExtTxIns, TakeTail, MaxTxInPerMessage;
  }

  lemma TakeExtTxInsStep(ebs: uint64, s: bytes, p: nat, i: nat, k: nat)
    requires i < k
    requires TakeExtTxIns(ebs, s, p, i).Ok?
    ensures var Ok(xs, q) := TakeExtTxIns(ebs, s, p, i);
            match TakeExtTxIn(ebs, s, q)
            case Ok(x, t) => TakeExtTxIns(ebs, s, p, i + 1) == Ok(xs + [x], t)
            case Fail(e, t) => TakeExtTxIns(ebs, s, p, k) == Fail(e, t)
  {
    hide TakeExtTxIn;
    ManyStep(ExtTxInParser(ebs), s, p, i, k);
  }

  // What is read up to an earlier input is the beginning of what is read up to a later one.
  lemma {:induction false} TakeExtTxInsPrefix(ebs: uint64, s: bytes, q: nat, k: nat, n: nat)
    requires k <= n && TakeExtTxIns(ebs, s, q, n).Ok?
    ensures TakeExtTxIns(ebs, s, q, k).Ok?
    ensures TakeExtTxIns(ebs, s, q, k).value == TakeExtTxIns(ebs, s, q, n).value[..k]
    decreases n
  {
    hide TakeExtTxIns, TakeExtTxIn;
    var xs := TakeExtTxIns(ebs, s, q, n).value;
    if k < n {
      EarlierReads(ebs, s, q, n - 1);
      TakeExtTxInsStep(ebs, s, q, n - 1, n);
      var ys := TakeExtTxIns(ebs, s, q, n - 1).value;
      assert ys == xs[..n - 1];
      TakeExtTxInsPrefix(ebs, s, q, k, n - 1);
      assert ys[..k] == xs[..k];
    }
  }

  lemma EarlierReads(ebs: uint64, s: bytes, q: nat, k: nat)
    requires TakeExtTxIns(ebs, s, q, k + 1).Ok?
    ensures TakeExtTxIns(ebs, s, q, k).Ok?
  {
    hide TakeExtTxIn;
  }

  predicate ExtTxInFits(ebs: uint64, i: ExtTxIn) {
    TxInFits(ebs, i.Plain()) && |i.previousTxScript| <= MaxTxInPerMessage(ebs)
  }

  function ExtTxInFit(ebs: uint64): ExtTxIn -> bool { i => ExtTxInFits(ebs, i) }

  predicate ExtTxFits(ebs: uint64, t: ExtTx) {
    && |t.txIn| <= MaxTxInPerMessage(ebs)
    && (forall i :: 0 <= i < |t.txIn| ==> ExtTxInFits(ebs, t.txIn[i]))
    && TailFits(ebs, t.txOut)
  }

  // ---------- Laws ----------

  lemma TakeExtTxInSound(ebs: uint64, s: bytes, p: nat)
    requires p <= |s|
    requires TakeExtTxIn(ebs, s, p).Ok?
    ensures var Ok(x, q) := TakeExtTxIn(ebs, s, p);
            ExtTxInFits(ebs, x) && Has(s, p, EncExtTxIn(x)) && q == p + |EncExtTxIn(x)|
  {
    hide Has, LE, TakeU64, TakeVarBytes, EncVarBytes, TakeTxIn, EncTxIn, MaxTxInPerMessage, TxInFits;
    var Ok(x, u) := TakeExtTxIn(ebs, s, p);
    var Ok(i, q) := TakeTxIn(ebs, s, p);
    var Ok(v, t) := TakeU64(s, q);
    assert x.Plain() == i;
    TakeTxInSound(ebs, s, p);
    TakeU64Iff(s, q, v, t);
    TakeVarBytesIff(s, t, MaxTxInPerMessage(ebs), ScriptTooLong, x.previousTxScript, u);
    HasConcat(s, q, LE(8, v), EncVarBytes(x.previousTxScript));
    HasConcat(s, p, EncTxIn(i), LE(8, v) + EncVarBytes(x.previousTxScript));
  }

  lemma TakeExtTxInComplete(ebs: uint64, s: bytes, p: nat, x: ExtTxIn)
    requires ExtTxInFits(ebs, x)
    requires Has(s, p, EncExtTxIn(x))
    ensures TakeExtTxIn(ebs, s, p) == Ok(x, p + |EncExtTxIn(x)|)
  {
    hide Has, LE, TakeU64, TakeVarBytes, EncVarBytes, TakeTxIn, EncTxIn, MaxTxInPerMessage, TxInFits;
    HasWithin(s, p, EncExtTxIn(x));
    var i, v, b := x.Plain(), x.previousTxSatoshis, x.previousTxScript;
    var q := p + |EncTxIn(i)|;
    HasConcat(s, p, EncTxIn(i), LE(8, v) + EncVarBytes(b));
    HasConcat(s, q, LE(8, v), EncVarBytes(b));
    TakeTxInComplete(ebs, s, p, i);
    TakeU64Iff(s, q, v, q + 8);
    TakeVarBytesIff(s, q + 8, MaxTxInPerMessage(ebs), ScriptTooLong, b, q + 8 + |EncVarBytes(b)|);
  }

  lemma ExtTxInLawful(ebs: uint64)
    ensures Lawful(ExtTxInParser(ebs), EncExtTxIn, ExtTxInFit(ebs))
  {
    hide Has, EncExtTxIn, TakeExtTxIn, ExtTxInFits;
    forall s, p: nat | p <= |s| && ExtTxInParser(ebs)(s, p).Ok?
      ensures var Ok(x, q) := ExtTxInParser(ebs)(s, p);
              ExtTxInFit(ebs)(x) && Has(s, p, EncExtTxIn(x)) && q == p + |EncExtTxIn(x)|
    {
      TakeExtTxInSound(ebs, s, p);
    }
    forall s, p: nat, x | Has(s, p, EncExtTxIn(x)) && ExtTxInFit(ebs)(x)
      ensures ExtTxInParser(ebs)(s, p) == Ok(x, p + |EncExtTxIn(x)|)
    {
      TakeExtTxInComplete(ebs, s, p, x);
    }
  }

  lemma TakeMarkerIff(s: bytes, p: nat, q: nat)
    requires p <= |s|
    ensures TakeMarker(s, p).Ok? && TakeMarker(s, p).next == q <==> Has(s, p, MARKER) && q == p + 6
  {
    hide Has, TakeVarInt, TakeN;
    assert MARKER == EncVarInt(0) + EF_HEADER;
    HasConcat(s, p, EncVarInt(0), EF_HEADER);
    if TakeVarInt(s, p).Ok? {
      TakeVarIntSound(s, p);
      var Ok(k, t) := TakeVarInt(s, p);
      TakeNIff(s, t, 5, EF_HEADER, t + 5);
    }
    if Has(s, p, EncVarInt(0)) {
      TakeVarIntComplete(s, p, 0);
    }
  }

  lemma TakeExtBodySound(ebs: uint64, version: int32, s: bytes, p: nat)
    requires p <= |s|
    requires TakeExtBody(ebs, version, s, p).Ok?
    ensures var Ok(x, q) := TakeExtBody(ebs, version, s, p);
            var e := EncExtBody(x.txIn, x.txOut, x.lockTime);
            x.version == version && ExtTxFits(ebs, x) && Has(s, p, e) && q == p + |e|
  {
    hide Has, TakeVarInt, EncVarInt, Many, EncMany, Lawful, MaxTxInPerMessage, TakeExtTxIn, EncExtTxIn;
    hide TakeTail, EncTail, TailFits;
    var Ok(x, w) := TakeExtBody(ebs, version, s, p);
    var Ok(k, t) := TakeVarInt(s, p);
    var Ok(ins, u) := TakeExtTxIns(ebs, s, t, k);
    TakeVarIntSound(s, p);
    ExtTxInLawful(ebs);
    ManySound(ExtTxInParser(ebs), EncExtTxIn, ExtTxInFit(ebs), s, t, k);
    assert forall i :: 0 <= i < |ins| ==> ExtTxInFit(ebs)(ins[i]) ==> ExtTxInFits(ebs, ins[i]);
    TakeTailSound(ebs, s, u);
    var tail := EncTail(x.txOut, x.lockTime);
    HasConcat(s, t, EncExtTxIns(ins), tail);
    HasConcat(s, p, EncVarInt(|ins|), EncExtTxIns(ins) + tail);
  }

  lemma TakeExtBodyComplete(ebs: uint64, s: bytes, p: nat, x: ExtTx)
    requires ExtTxFits(ebs, x)
    requires Has(s, p, EncExtBody(x.txIn, x.txOut, x.lockTime))
    ensures TakeExtBody(ebs, x.version, s, p) == Ok(x, p + |EncExtBody(x.txIn, x.txOut, x.lockTime)|)
  {
    hide Has, TakeVarInt, EncVarInt, Many, EncMany, Lawful, MaxTxInPerMessage, TakeExtTxIn, EncExtTxIn;
    hide TakeTail, EncTail, TailFits;
    HasWithin(s, p, EncExtBody(x.txIn, x.txOut, x.lockTime));
    var ins, tail := x.txIn, EncTail(x.txOut, x.lockTime);
    var t := p + |EncVarInt(|ins|)|;
    HasConcat(s, p, EncVarInt(|ins|), EncExtTxIns(ins) + tail);
    HasConcat(s, t, EncExtTxIns(ins), tail);
    TakeVarIntComplete(s, p, |ins|);
    ExtTxInLawful(ebs);
    ManyComplete(ExtTxInParser(ebs), EncExtTxIn, ExtTxInFit(ebs), s, t, ins);
    TakeTailComplete(ebs, s, t + |EncExtTxIns(ins)|, x.txOut, x.lockTime);
  }

  lemma TakeExtTxSound(ebs: uint64, s: bytes, p: nat)
    requires p <= |s|
    requires TakeExtTx(ebs, s, p).Ok?
    ensures var Ok(x, q) := TakeExtTx(ebs, s, p);
            ExtTxFits(ebs, x) && Has(s, p, EncExtTx(x)) && q == p + |EncExtTx(x)|
  {
    hide Has, LE, TakeU32, TakeMarker, TakeExtBody, EncExtBody, ExtTxFits;
    var Ok(x, w) := TakeExtTx(ebs, s, p);
    var Ok(v, t) := TakeU32(s, p);
    var Ok(_, u) := TakeMarker(s, t);
    var body := EncExtBody(x.txIn, x.txOut, x.lockTime);
    TakeU32Iff(s, p, v, t);
    TakeMarkerIff(s, t, u);
    TakeExtBodySound(ebs, AsInt32(v), s, u);
    HasConcat(s, t, MARKER, body);
    HasConcat(s, p, LE(4, v), MARKER + body);
  }

  lemma TakeExtTxComplete(ebs: uint64, s: bytes, p: nat, x: ExtTx)
    requires ExtTxFits(ebs, x)
    requires Has(s, p, EncExtTx(x))
    ensures TakeExtTx(ebs, s, p) == Ok(x, p + |EncExtTx(x)|)
  {
    hide Has, LE, TakeU32, TakeMarker, TakeExtBody, EncExtBody, ExtTxFits;
    HasWithin(s, p, EncExtTx(x));
    var body := EncExtBody(x.txIn, x.txOut, x.lockTime);
    HasConcat(s, p, LE(4, AsUint32(x.version)), MARKER + body);
    HasConcat(s, p + 4, MARKER, body);
    TakeU32Iff(s, p, AsUint32(x.version), p + 4);
    TakeMarkerIff(s, p + 4, p + 10);
    TakeExtBodyComplete(ebs, s, p + 10, x);
  }

  // The decoder accepts exactly the encodings of the extended transactions within its limits.
  lemma TakeExtTxIff(ebs: uint64, s: bytes, p: nat, x: ExtTx, q: nat)
    requires p <= |s|
    ensures TakeExtTx(ebs, s, p) == Ok(x, q)
       <==> ExtTxFits(ebs, x) && Has(s, p, EncExtTx(x)) && q == p + |EncExtTx(x)|
  {
    hide Has, TakeExtTx, EncExtTx, ExtTxFits;
    if TakeExtTx(ebs, s, p).Ok? {
      TakeExtTxSound(ebs, s, p);
    }
    if ExtTxFits(ebs, x) && Has(s, p, EncExtTx(x)) {
      TakeExtTxComplete(ebs, s, p, x);
    }
  }

  // ---------- Relocation ----------

  lemma TakeExtTxInShift(ebs: uint64, s: bytes, a: nat, p: nat)
    requires a <= |s|
    ensures TakeExtTxIn(ebs, s, a + p) == TakeExtTxIn(ebs, s[a..], p).Shift(a)
  {
    hide TakeTxIn, TakeUint, TakeVarBytes, MaxTxInPerMessage;
    TakeTxInShift(ebs, s, a, p);
    var q := TakeTxIn(ebs, s[a..], p).next;
    TakeUintShift(s, a, q, 8);
    TakeVarBytesShift(s, a, q + 8, MaxTxInPerMessage(ebs), ScriptTooLong);
  }

  lemma TakeExtTxInsShift(ebs: uint64, s: bytes, a: nat, p: nat, k: nat)
    requires a <= |s|
    ensures TakeExtTxIns(ebs, s, a + p, k) == TakeExtTxIns(ebs, s[a..], p, k).Shift(a)
  {
    hide TakeExtTxIn, Many;
    forall s, a: nat, p: nat | a <= |s|
      ensures ExtTxInParser(ebs)(s, a + p) == ExtTxInParser(ebs)(s[a..], p).Shift(a)
    {
      TakeExtTxInShift(ebs, s, a, p);
    }
    ManyShift(ExtTxInParser(ebs), s, a, p, k);
  }

  lemma TakeMarkerShift(s: bytes, a: nat, p: nat)
    requires a <= |s|
    ensures TakeMarker(s, a + p) == TakeMarker(s[a..], p).Shift(a)
  {
    hide TakeVarInt, TakeN;
    TakeVarIntShift(s, a, p);
    TakeNShift(s, a, TakeVarInt(s[a..], p).next, 5);
  }

  lemma TakeExtBodyShift(ebs: uint64, version: int32, s: bytes, a: nat, p: nat)
    requires a <= |s|
    ensures TakeExtBody(ebs, version, s, a + p) == TakeExtBody(ebs, version, s[a..], p).Shift(a)
  {
    hide TakeVarInt, TakeExtTxIns, TakeTail, MaxTxInPerMessage;
    TakeVarIntShift(s, a, p);
    var r := TakeVarInt(s[a..], p);
    if r.Ok? {
      TakeExtTxInsShift(ebs, s, a, r.next, r.value);
      TakeTailShift(ebs, s, a, TakeExtTxIns(ebs, s[a..], r.next, r.value).next);
    }
  }

  // Decoding looks only at the bytes from its position on.
  lemma TakeExtTxShift(ebs: uint64, s: bytes, a: nat, p: nat)
    requires a <= |s|
    ensures TakeExtTx(ebs, s, a + p) == TakeExtTx(ebs, s[a..], p).Shift(a)
  {
    hide TakeUint, TakeMarker, TakeExtBody;
    TakeUintShift(s, a, p, 4);
    TakeMarkerShift(s, a, p + 4);
    var r := TakeU32(s[a..], p);
    if r.Ok? {
      TakeExtBodyShift(ebs, AsInt32(r.value), s, a, TakeMarker(s[a..], p + 4).next);
    }
  }
}
