/**
 Where every field of every format stands, byte by byte: offsets, widths, byte order and
 sign, as the protocol documents them. Nothing here goes through a parser, so a printer
 and a parser that agreed on a different format would both be wrong.
 */
module WireLayout {
  import opened Bytes
  import opened Parsing
  import opened VarInts
  import opened Transactions
  import opened ExtendedTransactions
  import opened Blocks
  import opened Versions
  import opened Sizes

  // ---------- Numbers ----------

  // The n bytes at p are v, least significant byte first; a negative v in two's complement.
  ghost predicate NumberAt(s: bytes, p: nat, n: nat, v: int) {
    p + n <= |s| && forall i :: 0 <= i < n ==> s[p + i] == v / Pow256(i) % 256
  }

  lemma DivideTwice(v: nat, k: nat)
    requires k > 0
    ensures v / 256 / k == v / (256 * k)
  {
    var q := v / 256 / k;
    var r := v - 256 * k * q;
    assert v == 256 * (v / 256) + v % 256;
    assert v / 256 == k * q + v / 256 % k;
    assert r == 256 * (v / 256 % k) + v % 256;
    assert 0 <= r < 256 * k;
    assert v == (256 * k) * q + r;
    QuotientIs(v, 256 * k, q, r);
  }

  lemma SmallMultiple(d: nat, y: int)
    requires d > 0 && 0 < d + d * y && d * y < d
    ensures y == 0
  {
  }

  lemma Quotient(v: int, d: nat)
    requires d > 0
    ensures v == d * (v / d) + v % d
  {
  }

  lemma QuotientIs(v: int, d: nat, q: int, r: nat)
    requires d > 0 && v == d * q + r && r < d
    ensures v / d == q
  {
    Quotient(v, d);
    var x, m := v / d, v % d;
    assert d * (x - q) == d * x - d * q;
    SmallMultiple(d, x - q);
  }

  // Little-endian numbers, digit by digit.
  lemma {:induction false} LEDigit(n: nat, v: nat, i: nat)
    requires i < n
    ensures LE(n, v)[i] == v / Pow256(i) % 256
  {
    if i > 0 {
      LEDigit(n - 1, v / 256, i - 1);
      DivideTwice(v, Pow256(i - 1));
    }
  }

  lemma NumberIff(s: bytes, p: nat, n: nat, v: nat)
    ensures Has(s, p, LE(n, v)) <==> NumberAt(s, p, n, v)
  {
    hide LE, Pow256;
    if p + n <= |s| {
      forall i | 0 <= i < n
        ensures LE(n, v)[i] == v / Pow256(i) % 256 && s[p..p + n][i] == s[p + i]
      {
        LEDigit(n, v, i);
      }
    }
  }

  lemma {:induction false} Pow256Sum(a: nat, b: nat)
    ensures Pow256(a + b) == Pow256(a) * Pow256(b)
  {
    if a > 0 {
      Pow256Sum(a - 1, b);
      assert Pow256(a) * Pow256(b) == 256 * (Pow256(a - 1) * Pow256(b));
    }
  }

  // The digits of a negative number are those of its two's complement.
  lemma WrappedDigit(v: int, n: nat, i: nat)
    requires i < n
    ensures (v + Pow256(n)) / Pow256(i) % 256 == v / Pow256(i) % 256
  {
    hide Pow256;
    var k, m := Pow256(i), Pow256(n - i - 1);
    Pow256Sum(i, n - i);
    Pow256Sum(1, n - i - 1);
    Pow256Values();
    assert Pow256(n) == k * (256 * m);
    MoreQuotient(v, k, 256 * m);
    SameRemainder(v / k, m);
  }

  lemma SameRemainder(x: int, m: int)
    ensures (x + 256 * m) % 256 == x % 256
  {
  }

  lemma MoreQuotient(v: int, k: nat, c: nat)
    requires k > 0
    ensures (v + k * c) / k == v / k + c
  {
    Quotient(v, k);
    assert k * (v / k + c) == k * (v / k) + k * c;
    QuotientIs(v + k * c, k, v / k + c, v % k);
  }

  lemma SignedIff(s: bytes, p: nat, v: int32)
    ensures Has(s, p, LE(4, AsUint32(v))) <==> NumberAt(s, p, 4, v)
  {
    hide Has, LE, Pow256;
    NumberIff(s, p, 4, AsUint32(v));
    Pow256Values();
    forall i | 0 <= i < 4
      ensures AsUint32(v) / Pow256(i) % 256 == v / Pow256(i) % 256
    {
      WrappedDigit(v, 4, i);
    }
  }

  lemma Signed64Iff(s: bytes, p: nat, v: int64)
    ensures Has(s, p, LE(8, AsUint64(v))) <==> NumberAt(s, p, 8, v)
  {
    hide Has, LE, Pow256;
    NumberIff(s, p, 8, AsUint64(v));
    Pow256Values();
    forall i | 0 <= i < 8
      ensures AsUint64(v) / Pow256(i) % 256 == v / Pow256(i) % 256
    {
      WrappedDigit(v, 8, i);
    }
  }

  lemma ByteIff(s: bytes, p: nat, b: byte)
    ensures Has(s, p, [b]) <==> p < |s| && s[p] == b
  {
    if p < |s| {
      assert s[p..p + 1] == [s[p]];
    }
  }

  // ---------- Variable-length integers and byte strings ----------

  ghost predicate VarIntAt(s: bytes, p: nat, v: nat) {
    if v < 0xfd then NumberAt(s, p, 1, v)
    else if v <= 0xffff then p < |s| && s[p] == 0xfd && NumberAt(s, p + 1, 2, v)
    else if v <= 0xffff_ffff then p < |s| && s[p] == 0xfe && NumberAt(s, p + 1, 4, v)
    else p < |s| && s[p] == 0xff && NumberAt(s, p + 1, 8, v)
  }

  lemma VarIntAtIff(s: bytes, p: nat, v: nat)
    ensures Has(s, p, EncVarInt(v)) <==> VarIntAt(s, p, v)
  {
    hide Has, NumberAt;
    if v < 0xfd {
      NumberIff(s, p, 1, v);
      assert LE(1, v) == [v];
    } else {
      var d := if v <= 0xffff then 0xfd else if v <= 0xffff_ffff then 0xfe else 0xff;
      var n := if v <= 0xffff then 2 else if v <= 0xffff_ffff then 4 else 8;
      assert EncVarInt(v) == [d] + LE(n, v);
      HasConcat(s, p, [d], LE(n, v));
      ByteIff(s, p, d);
      NumberIff(s, p + 1, n, v);
    }
  }

  ghost predicate BytesAt(s: bytes, p: nat, b: bytes) {
    VarIntAt(s, p, |b|) && Has(s, p + VarIntSerializeSize(|b|), b)
  }

  lemma BytesAtIff(s: bytes, p: nat, b: bytes)
    ensures Has(s, p, EncVarBytes(b)) <==> BytesAt(s, p, b)
  {
    hide Has, VarIntAt, EncVarInt;
    HasConcat(s, p, EncVarInt(|b|), b);
    VarIntAtIff(s, p, |b|);
  }

  // ---------- Transactions ----------

  // Hash, index, script, sequence number.
  ghost predicate TxInAt(s: bytes, p: nat, i: TxIn) {
    var end := p + TxInSerializeSize(i);
    && Has(s, p, i.previousOutPoint.hash) && NumberAt(s, p + 32, 4, i.previousOutPoint.index)
    && BytesAt(s, p + 36, i.signatureScript) && NumberAt(s, end - 4, 4, i.sequence)
  }

  lemma TxInAtIff(s: bytes, p: nat, i: TxIn)
    ensures Has(s, p, EncTxIn(i)) <==> TxInAt(s, p, i)
  {
    hide Has, LE, NumberAt, BytesAt, EncVarBytes;
    var o, b := i.previousOutPoint, EncVarBytes(i.signatureScript);
    HasConcat(s, p, EncOutPoint(o), b + LE(4, i.sequence));
    HasConcat(s, p, o.hash, LE(4, o.index));
    HasConcat(s, p + 36, b, LE(4, i.sequence));
    NumberIff(s, p + 32, 4, o.index);
    BytesAtIff(s, p + 36, i.signatureScript);
    NumberIff(s, p + 36 + |b|, 4, i.sequence);
    TxInLength(i);
  }

  lemma TxInLength(i: TxIn)
    ensures TxInSerializeSize(i) == 40 + |EncVarBytes(i.signatureScript)|
  {
    hide EncVarInt;
  }

  // Amount, script.
  ghost predicate TxOutAt(s: bytes, p: nat, o: TxOut) {
    NumberAt(s, p, 8, o.value) && BytesAt(s, p + 8, o.pkScript)
  }

  lemma TxOutAtIff(s: bytes, p: nat, o: TxOut)
    ensures Has(s, p, EncTxOut(o)) <==> TxOutAt(s, p, o)
  {
    hide Has, LE, NumberAt, BytesAt, EncVarBytes;
    HasConcat(s, p, LE(8, AsUint64(o.value)), EncVarBytes(o.pkScript));
    Signed64Iff(s, p, o.value);
    BytesAtIff(s, p + 8, o.pkScript);
  }

  // One after another.
  ghost predicate TxInsAt(s: bytes, p: nat, xs: seq<TxIn>) {
    if xs == [] then p <= |s|
    else TxInsAt(s, p, xs[..|xs| - 1]) && TxInAt(s, p + InsSize(xs[..|xs| - 1]), xs[|xs| - 1])
  }

  function InsSize(xs: seq<TxIn>): nat {
    if xs == [] then 0 else InsSize(xs[..|xs| - 1]) + TxInSerializeSize(xs[|xs| - 1])
  }

  lemma {:induction false} TxInsAtIff(s: bytes, p: nat, xs: seq<TxIn>)
    ensures Has(s, p, EncTxIns(xs)) <==> TxInsAt(s, p, xs)
    ensures |EncTxIns(xs)| == InsSize(xs)
    decreases |xs|
  {
    hide Has, TxInAt, EncTxIn;
    if xs == [] {
      NothingHere(s, p);
    } else {
      var n := |xs| - 1;
      TxInsAtIff(s, p, xs[..n]);
      HasConcat(s, p, EncTxIns(xs[..n]), EncTxIn(xs[n]));
      TxInAtIff(s, p + InsSize(xs[..n]), xs[n]);
    }
  }

  lemma NothingHere(s: bytes, p: nat)
    ensures Has(s, p, []) <==> p <= |s|
  {
  }

  ghost predicate TxOutsAt(s: bytes, p: nat, xs: seq<TxOut>) {
    if xs == [] then p <= |s|
    else TxOutsAt(s, p, xs[..|xs| - 1]) && TxOutAt(s, p + OutsSize(xs[..|xs| - 1]), xs[|xs| - 1])
  }

  function OutsSize(xs: seq<TxOut>): nat {
    if xs == [] then 0 else OutsSize(xs[..|xs| - 1]) + TxOutSerializeSize(xs[|xs| - 1])
  }

  lemma {:induction false} TxOutsAtIff(s: bytes, p: nat, xs: seq<TxOut>)
    ensures Has(s, p, EncTxOuts(xs)) <==> TxOutsAt(s, p, xs)
    ensures |EncTxOuts(xs)| == OutsSize(xs)
    decreases |xs|
  {
    hide Has, TxOutAt, EncTxOut;
    if xs == [] {
      NothingHere(s, p);
    } else {
      var n := |xs| - 1;
      TxOutsAtIff(s, p, xs[..n]);
      HasConcat(s, p, EncTxOuts(xs[..n]), EncTxOut(xs[n]));
      TxOutAtIff(s, p + OutsSize(xs[..n]), xs[n]);
    }
  }

  // Counted outputs, lock time.
  ghost predicate TailAt(s: bytes, p: nat, outs: seq<TxOut>, lockTime: uint32) {
    var q := p + VarIntSerializeSize(|outs|);
    VarIntAt(s, p, |outs|) && TxOutsAt(s, q, outs) && NumberAt(s, q + OutsSize(outs), 4, lockTime)
  }

  lemma TailAtIff(s: bytes, p: nat, outs: seq<TxOut>, l: uint32)
    ensures Has(s, p, EncTail(outs, l)) <==> TailAt(s, p, outs, l)
    ensures |EncTail(outs, l)| == VarIntSerializeSize(|outs|) + OutsSize(outs) + 4
  {
    hide Has, LE, VarIntAt, NumberAt, EncVarInt, EncTxOuts, TxOutsAt;
    var q := p + VarIntSerializeSize(|outs|);
    HasConcat(s, p, EncVarInt(|outs|), EncTxOuts(outs) + LE(4, l));
    HasConcat(s, q, EncTxOuts(outs), LE(4, l));
    VarIntAtIff(s, p, |outs|);
    TxOutsAtIff(s, q, outs);
    NumberIff(s, q + OutsSize(outs), 4, l);
  }

  // Version, counted inputs, counted outputs, lock time.
  ghost predicate TxAt(s: bytes, p: nat, t: Tx) {
    var q := p + 4 + VarIntSerializeSize(|t.txIn|);
    && NumberAt(s, p, 4, t.version) && VarIntAt(s, p + 4, |t.txIn|) && TxInsAt(s, q, t.txIn)
    && TailAt(s, q + InsSize(t.txIn), t.txOut, t.lockTime)
  }

  function TxSize(t: Tx): nat {
    8 + VarIntSerializeSize(|t.txIn|) + InsSize(t.txIn) + VarIntSerializeSize(|t.txOut|) + OutsSize(t.txOut)
  }

  lemma TxAtIff(s: bytes, p: nat, t: Tx)
    ensures Has(s, p, EncTx(t)) <==> TxAt(s, p, t)
    ensures |EncTx(t)| == TxSize(t)
  {
    hide Has, LE, VarIntAt, NumberAt, EncVarInt, EncTxIns, EncTail, TxInsAt, TailAt;
    var q := p + 4 + VarIntSerializeSize(|t.txIn|);
    var ins, tail := EncTxIns(t.txIn), EncTail(t.txOut, t.lockTime);
    HasConcat(s, p, LE(4, AsUint32(t.version)), EncVarInt(|t.txIn|) + (ins + tail));
    HasConcat(s, p + 4, EncVarInt(|t.txIn|), ins + tail);
    HasConcat(s, q, ins, tail);
    SignedIff(s, p, t.version);
    VarIntAtIff(s, p + 4, |t.txIn|);
    TxInsAtIff(s, q, t.txIn);
    TailAtIff(s, q + InsSize(t.txIn), t.txOut, t.lockTime);
  }

  // The decoder accepts exactly what the protocol documents, within its limits.
  lemma TxOnTheWire(ebs: uint64, s: bytes, p: nat, t: Tx, q: nat)
    requires p <= |s|
    ensures TakeTx(ebs, s, p) == Ok(t, q) <==> TxFits(ebs, t) && TxAt(s, p, t) && q == p + TxSize(t)
  {
    hide Has, TakeTx, EncTx, TxFits, TxAt, TxSize;
    TakeTxIff(ebs, s, p, t, q);
    TxAtIff(s, p, t);
  }

  // ---------- Extended transactions ----------

  // A plain input, amount and script of the output it spends.
  ghost predicate ExtTxInAt(s: bytes, p: nat, i: ExtTxIn) {
    var q := p + TxInSerializeSize(i.Plain());
    && TxInAt(s, p, TxIn(i.previousOutPoint, i.signatureScript, i.sequence))
    && NumberAt(s, q, 8, i.previousTxSatoshis) && BytesAt(s, q + 8, i.previousTxScript)
  }

  lemma ExtTxInAtIff(s: bytes, p: nat, i: ExtTxIn)
    ensures Has(s, p, EncExtTxIn(i)) <==> ExtTxInAt(s, p, i)
  {
    hide Has, LE, EncTxIn, TxInAt, NumberAt, BytesAt, EncVarBytes;
    var q := p + TxInSerializeSize(i.Plain());
    HasConcat(s, p, EncTxIn(i.Plain()), LE(8, i.previousTxSatoshis) + EncVarBytes(i.previousTxScript));
    HasConcat(s, q, LE(8, i.previousTxSatoshis), EncVarBytes(i.previousTxScript));
    TxInAtIff(s, p, i.Plain());
    NumberIff(s, q, 8, i.previousTxSatoshis);
    BytesAtIff(s, q + 8, i.previousTxScript);
  }

  ghost predicate ExtTxInsAt(s: bytes, p: nat, xs: seq<ExtTxIn>) {
    if xs == [] then p <= |s|
    else ExtTxInsAt(s, p, xs[..|xs| - 1]) && ExtTxInAt(s, p + ExtInsSize(xs[..|xs| - 1]), xs[|xs| - 1])
  }

  function ExtInsSize(xs: seq<ExtTxIn>): nat {
    if xs == [] then 0 else ExtInsSize(xs[..|xs| - 1]) + ExtTxInSerializeSize(xs[|xs| - 1])
  }

  lemma {:induction false} ExtTxInsAtIff(s: bytes, p: nat, xs: seq<ExtTxIn>)
    ensures Has(s, p, EncExtTxIns(xs)) <==> ExtTxInsAt(s, p, xs)
    ensures |EncExtTxIns(xs)| == ExtInsSize(xs)
    decreases |xs|
  {
    hide Has, ExtTxInAt, EncExtTxIn;
    if xs == [] {
      NothingHere(s, p);
    } else {
      var n := |xs| - 1;
      ExtTxInsAtIff(s, p, xs[..n]);
      HasConcat(s, p, EncExtTxIns(xs[..n]), EncExtTxIn(xs[n]));
      ExtTxInAtIff(s, p + ExtInsSize(xs[..n]), xs[n]);
    }
  }

  // Version, six marker bytes, counted inputs, counted outputs, lock time.
  ghost predicate ExtTxAt(s: bytes, p: nat, t: ExtTx) {
    var q := p + 10 + VarIntSerializeSize(|t.txIn|);
    && NumberAt(s, p, 4, t.version) && Has(s, p + 4, [0x00, 0x00, 0x00, 0x00, 0x00, 0xef])
    && VarIntAt(s, p + 10, |t.txIn|) && ExtTxInsAt(s, q, t.txIn)
    && TailAt(s, q + ExtInsSize(t.txIn), t.txOut, t.lockTime)
  }

  function ExtTxSize(t: ExtTx): nat {
    14 + VarIntSerializeSize(|t.txIn|) + ExtInsSize(t.txIn) + VarIntSerializeSize(|t.txOut|) + OutsSize(t.txOut)
  }

  lemma ExtTxAtIff(s: bytes, p: nat, t: ExtTx)
    ensures Has(s, p, EncExtTx(t)) <==> ExtTxAt(s, p, t)
    ensures |EncExtTx(t)| == ExtTxSize(t)
  {
    hide Has, LE, VarIntAt, NumberAt, EncVarInt, EncExtTxIns, EncTail, ExtTxInsAt, TailAt;
    var q := p + 10 + VarIntSerializeSize(|t.txIn|);
    var ins, tail := EncExtTxIns(t.txIn), EncTail(t.txOut, t.lockTime);
    HasConcat(s, p, LE(4, AsUint32(t.version)), MARKER + EncExtBody(t.txIn, t.txOut, t.lockTime));
    HasConcat(s, p + 4, MARKER, EncExtBody(t.txIn, t.txOut, t.lockTime));
    HasConcat(s, p + 10, EncVarInt(|t.txIn|), ins + tail);
    HasConcat(s, q, ins, tail);
    SignedIff(s, p, t.version);
    VarIntAtIff(s, p + 10, |t.txIn|);
    ExtTxInsAtIff(s, q, t.txIn);
    TailAtIff(s, q + ExtInsSize(t.txIn), t.txOut, t.lockTime);
  }

  lemma ExtTxOnTheWire(ebs: uint64, s: bytes, p: nat, t: ExtTx, q: nat)
    requires p <= |s|
    ensures TakeExtTx(ebs, s, p) == Ok(t, q) <==> ExtTxFits(ebs, t) && ExtTxAt(s, p, t) && q == p + ExtTxSize(t)
  {
    hide Has, TakeExtTx, EncExtTx, ExtTxFits, ExtTxAt, ExtTxSize;
    TakeExtTxIff(ebs, s, p, t, q);
    ExtTxAtIff(s, p, t);
  }

  // ---------- Blocks ----------

  ghost predicate HeaderAt(s: bytes, p: nat, h: BlockHeader) {
    && NumberAt(s, p, 4, h.version) && Has(s, p + 4, h.prevBlock) && Has(s, p + 36, h.merkleRoot)
    && NumberAt(s, p + 68, 4, h.timestamp) && NumberAt(s, p + 72, 4, h.bits) && NumberAt(s, p + 76, 4, h.nonce)
  }

  lemma HeaderAtIff(s: bytes, p: nat, h: BlockHeader)
    ensures Has(s, p, EncHeader(h)) <==> HeaderAt(s, p, h)
  {
    hide Has, LE, NumberAt;
    HasConcat(s, p, LE(4, AsUint32(h.version)), h.prevBlock + (h.merkleRoot + EncStamps(h)));
    HasConcat(s, p + 4, h.prevBlock, h.merkleRoot + EncStamps(h));
    HasConcat(s, p + 36, h.merkleRoot, EncStamps(h));
    HasConcat(s, p + 68, LE(4, h.timestamp), LE(4, h.bits) + LE(4, h.nonce));
    HasConcat(s, p + 72, LE(4, h.bits), LE(4, h.nonce));
    SignedIff(s, p, h.version);
    NumberIff(s, p + 68, 4, h.timestamp);
    NumberIff(s, p + 72, 4, h.bits);
    NumberIff(s, p + 76, 4, h.nonce);
  }

  ghost predicate TxsAt(s: bytes, p: nat, xs: seq<Tx>) {
    if xs == [] then p <= |s|
    else TxsAt(s, p, xs[..|xs| - 1]) && TxAt(s, p + TxsSize(xs[..|xs| - 1]), xs[|xs| - 1])
  }

  function TxsSize(xs: seq<Tx>): nat {
    if xs == [] then 0 else TxsSize(xs[..|xs| - 1]) + TxSize(xs[|xs| - 1])
  }

  lemma {:induction false} TxsAtIff(s: bytes, p: nat, xs: seq<Tx>)
    ensures Has(s, p, EncTxs(xs)) <==> TxsAt(s, p, xs)
    ensures |EncTxs(xs)| == TxsSize(xs)
    decreases |xs|
  {
    hide Has, TxAt, EncTx, TxSize;
    if xs == [] {
      NothingHere(s, p);
    } else {
      var n := |xs| - 1;
      TxsAtIff(s, p, xs[..n]);
      HasConcat(s, p, EncTxs(xs[..n]), EncTx(xs[n]));
      TxAtIff(s, p + TxsSize(xs[..n]), xs[n]);
    }
  }

  // Eighty header bytes, counted transactions.
  ghost predicate BlockAt(s: bytes, p: nat, b: Block) {
    && HeaderAt(s, p, b.header) && VarIntAt(s, p + 80, |b.transactions|)
    && TxsAt(s, p + 80 + VarIntSerializeSize(|b.transactions|), b.transactions)
  }

  lemma BlockOnTheWire(ebs: uint64, s: bytes, p: nat, b: Block, q: nat)
    requires p <= |s|
    ensures TakeBlock(ebs, s, p) == Ok(b, q)
       <==> && BlockFits(ebs, b) && BlockAt(s, p, b)
            && q == p + 80 + VarIntSerializeSize(|b.transactions|) + TxsSize(b.transactions)
  {
    hide Has, TakeBlock, EncHeader, EncVarInt, EncTxs, BlockFits, HeaderAt, VarIntAt, TxsAt, TxsSize;
    var txs := b.transactions;
    TakeBlockIff(ebs, s, p, b, q);
    HasConcat(s, p, EncHeader(b.header), EncVarInt(|txs|) + EncTxs(txs));
    HasConcat(s, p + 80, EncVarInt(|txs|), EncTxs(txs));
    HeaderAtIff(s, p, b.header);
    VarIntAtIff(s, p + 80, |txs|);
    TxsAtIff(s, p + 80 + VarIntSerializeSize(|txs|), txs);
  }

  // ---------- Version messages ----------

  // Sixteen bytes: an IPv6 address as it is, an IPv4 address mapped into ::ffff:0:0/96,
  // and zeros for anything else.
  ghost predicate IpAt(s: bytes, p: nat, ip: bytes) {
    && p + 16 <= |s|
    && if |ip| == 16 then Has(s, p, ip)
       else if |ip| == 4 then
         ZeroAt(s, p, 10) && s[p + 10] == 0xff && s[p + 11] == 0xff && Has(s, p + 12, ip)
       else ZeroAt(s, p, 16)
  }

  ghost predicate ZeroAt(s: bytes, p: nat, n: nat) {
    p + n <= |s| && forall i :: p <= i < p + n ==> s[i] == 0
  }

  lemma ZerosIff(s: bytes, p: nat, n: nat)
    ensures Has(s, p, Zeros(n)) <==> ZeroAt(s, p, n)
  {
    if Has(s, p, Zeros(n)) {
      assert forall i :: p <= i < p + n ==> s[i] == s[p..p + n][i - p];
    }
  }

  lemma IpAtIff(s: bytes, p: nat, ip: bytes)
    ensures Has(s, p, To16(ip)) <==> IpAt(s, p, ip)
  {
    hide Has, Zeros, ZeroAt;
    if Has(s, p, To16(ip)) {
      HasWithin(s, p, To16(ip));
    }
    if |ip| == 4 {
      assert Zeros(10) + [0xff, 0xff] + ip == Zeros(10) + ([0xff] + ([0xff] + ip));
      HasConcat(s, p, Zeros(10), [0xff] + ([0xff] + ip));
      HasConcat(s, p + 10, [0xff], [0xff] + ip);
      HasConcat(s, p + 11, [0xff], ip);
      ZerosIff(s, p, 10);
      ByteIff(s, p + 10, 0xff);
      ByteIff(s, p + 11, 0xff);
    } else if |ip| != 16 {
      ZerosIff(s, p, 16);
    }
  }

  // Services, address, port with its high byte first.
  ghost predicate AddressAt(s: bytes, p: nat, a: NetAddress) {
    && NumberAt(s, p, 8, a.services) && IpAt(s, p + 8, a.ip)
    && p + 26 <= |s| && s[p + 24] == a.port / 256 && s[p + 25] == a.port % 256
  }

  lemma AddressAtIff(s: bytes, p: nat, a: NetAddress)
    ensures Has(s, p, EncAddress(a)) <==> AddressAt(s, p, a)
  {
    hide Has, LE, To16, IpAt, NumberAt;
    HasConcat(s, p, LE(8, a.services), To16(a.ip) + BE16(a.port));
    HasConcat(s, p + 8, To16(a.ip), BE16(a.port));
    NumberIff(s, p, 8, a.services);
    IpAtIff(s, p + 8, a.ip);
    assert BE16(a.port) == [a.port / 256] + [a.port % 256];
    HasConcat(s, p + 24, [a.port / 256], [a.port % 256]);
    ByteIff(s, p + 24, a.port / 256);
    ByteIff(s, p + 25, a.port % 256);
  }

  // Different IPv4 addresses are different on the wire, and none looks like no address.
  lemma MappedApart(a: NetAddress, b: NetAddress)
    requires |a.ip| == 4 && a.ip != b.ip && (|b.ip| == 4 || |b.ip| != 16)
    ensures EncAddress(a)[8..24] != EncAddress(b)[8..24]
  {
    hide LE;
    var x, y := EncAddress(a)[8..24], EncAddress(b)[8..24];
    assert x == To16(a.ip) && y == To16(b.ip);
    assert x[10] == 0xff && x[12..] == a.ip;
    assert |b.ip| == 4 ==> y[12..] == b.ip;
  }

  // With the timestamp in front where there is one.
  lemma NetAddressOnTheWire(pver: uint32, ts: bool, stamp: int64, a: NetAddress, s: bytes, p: nat)
    ensures Has(s, p, EncNetAddress(pver, ts, stamp, a))
       <==> if ts && pver >= 31402 then NumberAt(s, p, 4, stamp % 0x1_0000_0000) && AddressAt(s, p + 4, a)
            else AddressAt(s, p, a)
  {
    hide Has, LE, EncAddress, AddressAt, NumberAt;
    HasConcat(s, p, EncStamp(pver, ts, stamp), EncAddress(a));
    AddressAtIff(s, p + |EncStamp(pver, ts, stamp)|, a);
    if ts && pver >= 31402 {
      NumberIff(s, p, 4, stamp % 0x1_0000_0000);
    } else if Has(s, p, EncAddress(a)) {
      HasWithin(s, p, EncAddress(a));
      HasEmpty(s, p);
    }
  }

  // What an address is after it was written and read back: the IP in its sixteen bytes.
  lemma AddressComesBack(pver: uint32, ts: bool, stamp: int64, a: NetAddress, s: bytes, p: nat, was: int64)
    requires Has(s, p, EncNetAddress(pver, ts, stamp, a))
    ensures var r := TakeNetAddress(pver, ts, s, p, was);
            r.Ok? && var b := r.value.1;
            b.services == a.services && b.port == a.port && |b.ip| == 16 && IpAt(b.ip, 0, a.ip)
  {
    hide Has, EncNetAddress, TakeNetAddress, IpAt;
    NetAddressRoundTrip(pver, ts, stamp, a, s, p, was);
    var ip := To16(a.ip);
    HasWhole([], ip, []);
    assert [] + ip + [] == ip;
    IpAtIff(ip, 0, a.ip);
  }

  // Protocol version, services, timestamp, the two addresses, nonce, user agent, last
  // block, a relay byte from protocol version 70001 on, and an association ID if any.
  ghost predicate VersionAt(pver: uint32, s: bytes, p: nat, v: Version) {
    var q := p + 80 + VarIntSerializeSize(|v.userAgent|) + |v.userAgent|;
    var u := if pver >= 70001 then q + 5 else q + 4;
    && NumberAt(s, p, 4, v.protocolVersion) && NumberAt(s, p + 4, 8, v.services)
    && NumberAt(s, p + 12, 8, v.timestamp) && AddressAt(s, p + 20, v.addrYou) && AddressAt(s, p + 46, v.addrMe)
    && NumberAt(s, p + 72, 8, v.nonce) && BytesAt(s, p + 80, v.userAgent) && NumberAt(s, q, 4, v.lastBlock)
    && (pver >= 70001 ==> q + 4 < |s| && s[q + 4] == if v.disableRelayTx then 0 else 1)
    && (v.associationID != [] ==> BytesAt(s, u, v.associationID))
  }

  lemma FixedIff(s: bytes, p: nat, v: Version)
    ensures Has(s, p, EncFixed(v))
       <==> && NumberAt(s, p, 4, v.protocolVersion) && NumberAt(s, p + 4, 8, v.services)
            && NumberAt(s, p + 12, 8, v.timestamp) && AddressAt(s, p + 20, v.addrYou)
  {
    hide Has, LE, EncAddress, AddressAt, NumberAt;
    var you := EncAddress(v.addrYou);
    var stamp := LE(8, AsUint64(v.timestamp));
    HasConcat(s, p, LE(4, AsUint32(v.protocolVersion)), LE(8, v.services) + (stamp + you));
    HasConcat(s, p + 4, LE(8, v.services), stamp + you);
    HasConcat(s, p + 12, stamp, you);
    SignedIff(s, p, v.protocolVersion);
    NumberIff(s, p + 4, 8, v.services);
    Signed64Iff(s, p + 12, v.timestamp);
    AddressAtIff(s, p + 20, v.addrYou);
  }

  lemma FromLastBlockIff(pver: uint32, s: bytes, q: nat, v: Version)
    ensures var u := if pver >= 70001 then q + 5 else q + 4;
            Has(s, q, EncFromLastBlock(pver, v))
            <==>
            && NumberAt(s, q, 4, v.lastBlock)
            && (pver >= 70001 ==> q + 4 < |s| && s[q + 4] == if v.disableRelayTx then 0 else 1)
            && (v.associationID != [] ==> BytesAt(s, u, v.associationID))
  {
    hide Has, LE, BytesAt, EncVarBytes, NumberAt;
    HasConcat(s, q, LE(4, AsUint32(v.lastBlock)), EncFromRelay(pver, v));
    HasConcat(s, q + 4, EncRelay(pver, v), EncAssociation(v));
    SignedIff(s, q, v.lastBlock);
    var u := q + 4 + |EncRelay(pver, v)|;
    NothingHere(s, q + 4);
    NothingHere(s, u);
    if pver >= 70001 {
      ByteIff(s, q + 4, if v.disableRelayTx then 0 else 1);
    }
    BytesAtIff(s, u, v.associationID);
    if NumberAt(s, q, 4, v.lastBlock) {
      HasWithin(s, q, LE(4, AsUint32(v.lastBlock)));
    }
  }

  lemma VersionOnTheWire(pver: uint32, s: bytes, p: nat, v: Version)
    ensures Has(s, p, EncVersion(pver, v)) <==> VersionAt(pver, s, p, v)
  {
    hide Has, LE, EncFixed, EncAddress, EncVarBytes, EncFromLastBlock, NumberAt, BytesAt, AddressAt;
    HasConcat(s, p, EncFixed(v), EncFromAddrMe(pver, v));
    HasConcat(s, p + 46, EncAddress(v.addrMe), EncFromNonce(pver, v));
    HasConcat(s, p + 72, LE(8, v.nonce), EncFromUserAgent(pver, v));
    HasConcat(s, p + 80, EncVarBytes(v.userAgent), EncFromLastBlock(pver, v));
    FixedIff(s, p, v);
    AddressAtIff(s, p + 46, v.addrMe);
    NumberIff(s, p + 72, 8, v.nonce);
    BytesAtIff(s, p + 80, v.userAgent);
    AgentLength(v);
    FromLastBlockIff(pver, s, p + 80 + |EncVarBytes(v.userAgent)|, v);
  }

  lemma AgentLength(v: Version)
    ensures |EncVarBytes(v.userAgent)| == VarIntSerializeSize(|v.userAgent|) + |v.userAgent|
  {
    hide EncVarInt;
  }
}
