/**
 Block headers and blocks as values: parser, printer and their laws
 (block_header.go, msg_block.go).
 */
module Blocks {
  import opened Bytes
  import opened Parsing
  import opened VarInts
  import opened Repetition
  import opened Limits
  import opened Transactions

  // The timestamp is in whole seconds, as the wire carries it.
  datatype BlockHeader = BlockHeader(
    version: int32, prevBlock: Hash, merkleRoot: Hash, timestamp: uint32, bits: uint32, nonce: uint32)

  datatype Block = Block(header: BlockHeader, transactions: seq<Tx>)

  const BLOCK_HEADER_LEN := 80

  // ---------- Printer ----------

  function EncStamps(h: BlockHeader): (r: bytes)
    ensures |r| == 12
  {
    LE(4, h.timestamp) + (LE(4, h.bits) + LE(4, h.nonce))
  }

  function EncHeader(h: BlockHeader): (r: bytes)
    ensures |r| == BLOCK_HEADER_LEN
  {
    LE(4, AsUint32(h.version)) + (h.prevBlock + (h.merkleRoot + EncStamps(h)))
  }

  function EncTxs(txs: seq<Tx>): bytes { EncMany(EncTx, txs) }

  function EncBlock(b: Block): bytes {
    EncHeader(b.header) + (EncVarInt(|b.transactions|) + EncTxs(b.transactions))
  }

  // ---------- Parser ----------

  function TakeStamps(s: bytes, p: nat): (r: Parsed<(uint32, uint32, uint32)>)
    ensures Bounded(r, s, p)
    ensures r.Ok? ==> r.next == p + 12
  {
    match TakeU32(s, p)
    case Fail(e, q) => Fail(e, q)
    case Ok(t, q) =>
      match TakeU32(s, q)
      case Fail(e, u) => Fail(e, u)
      case Ok(b, u) =>
        match TakeU32(s, u)
        case Fail(e, w) => Fail(e, w)
        case Ok(n, w) => Ok((t, b, n), w)
  }

  function TakeHeader(s: bytes, p: nat): (r: Parsed<BlockHeader>)
    ensures Bounded(r, s, p)
    ensures r.Ok? ==> r.next == p + BLOCK_HEADER_LEN
  {
    match TakeU32(s, p)
    case Fail(e, q) => Fail(e, q)
    case Ok(v, q) =>
      match TakeHash(s, q)
      case Fail(e, t) => Fail(e, t)
      case Ok(prev, t) =>
        match TakeHash(s, t)
        case Fail(e, u) => Fail(e, u)
        case Ok(root, u) =>
          match TakeStamps(s, u)
          case Fail(e, w) => Fail(e, w)
          case Ok((time, bits, nonce), w) =>
            Ok(BlockHeader(AsInt32(v), prev, root, time, bits, nonce), w)
  }

  function TxParser(ebs: uint64): Parser<Tx> { (s: bytes, p: nat) => TakeTx(ebs, s, p) }

  function TakeTxs(ebs: uint64, s: bytes, p: nat, k: nat): (r: Parsed<seq<Tx>>)
    ensures Bounded(r, s, p)
    ensures k == 0 ==> r == Ok([], p)
    ensures r.Ok? ==> |r.value| == k
  {
    ManyBounded(TxParser(ebs), s, p, k);
    Many(TxParser(ebs), s, p, k)
  }

  function TakeBlockBody(ebs: uint64, h: BlockHeader, s: bytes, p: nat): (r: Parsed<Block>)
    ensures Bounded(r, s, p)
  {
    match TakeVarInt(s, p)
    case Fail(e, q) => Fail(e, q)
    case Ok(k, q) =>
      if k > MaxTxPerBlock(ebs) then Fail(TooManyTransactions, q) else
      match TakeTxs(ebs, s, q, k)
      case Fail(e, t) => Fail(e, t)
      case Ok(txs, t) => Ok(Block(h, txs), t)
  }

  function TakeBlock(ebs: uint64, s: bytes, p: nat): (r: Parsed<Block>)
    ensures Bounded(r, s, p)
  {
    match TakeHeader(s, p)
    case Fail(e, q) => Fail(e, q)
    case Ok(h, q) => TakeBlockBody(ebs, h, s, q)
  }

  lemma TakeTxsStep(ebs: uint64, s: bytes, p: nat, i: nat, k: nat)
    requires i < k
    requires TakeTxs(ebs, s, p, i).Ok?
    ensures var Ok(xs, q) := TakeTxs(ebs, s, p, i);
            match TakeTx(ebs, s, q)
            case Ok(x, t) => TakeTxs(ebs, s, p, i + 1) == Ok(xs + [x], t)
            case Fail(e, t) => TakeTxs(ebs, s, p, k) == Fail(e, t)
  {
    hide TakeTx;
    ManyStep(TxParser(ebs), s, p, i, k);
  }

  function TxFit(ebs: uint64): Tx -> bool { t => TxFits(ebs, t) }

  predicate BlockFits(ebs: uint64, b: Block) {
    && |b.transactions| <= MaxTxPerBlock(ebs)
    && forall i :: 0 <= i < |b.transactions| ==> TxFits(ebs, b.transactions[i])
  }

  // ---------- Laws ----------

  lemma TakeStampsIff(s: bytes, p: nat, h: BlockHeader, q: nat)
    requires p <= |s|
    ensures TakeStamps(s, p) == Ok((h.timestamp, h.bits, h.nonce), q)
       <==> Has(s, p, EncStamps(h)) && q == p + 12
  {
    hide Has, LE, TakeUint, TakeU32;
    HasConcat(s, p, LE(4, h.timestamp), LE(4, h.bits) + LE(4, h.nonce));
    HasConcat(s, p + 4, LE(4, h.bits), LE(4, h.nonce));
    TakeU32Iff(s, p, h.timestamp, p + 4);
    if p + 8 <= |s| {
      TakeU32Iff(s, p + 4, h.bits, p + 8);
      TakeU32Iff(s, p + 8, h.nonce, p + 12);
    }
    if Has(s, p, EncStamps(h)) {
      HasWithin(s, p, EncStamps(h));
    }
  }

  lemma TakeHeaderIff(s: bytes, p: nat, h: BlockHeader, q: nat)
    requires p <= |s|
    ensures TakeHeader(s, p) == Ok(h, q) <==> Has(s, p, EncHeader(h)) && q == p + BLOCK_HEADER_LEN
  {
    hide Has, LE, TakeU32, TakeN, TakeStamps, EncStamps;
    var v := AsUint32(h.version);
    HasConcat(s, p, LE(4, v), h.prevBlock + (h.merkleRoot + EncStamps(h)));
    HasConcat(s, p + 4, h.prevBlock, h.merkleRoot + EncStamps(h));
    HasConcat(s, p + 36, h.merkleRoot, EncStamps(h));
    TakeU32Iff(s, p, v, p + 4);
    if Has(s, p, EncHeader(h)) {
      HasWithin(s, p, EncHeader(h));
    }
    if p + 68 <= |s| {
      TakeNIff(s, p + 4, 32, h.prevBlock, p + 36);
      TakeNIff(s, p + 36, 32, h.merkleRoot, p + 68);
      TakeStampsIff(s, p + 68, h, p + 80);
    }
  }

  lemma TxLawful(ebs: uint64)
    ensures Lawful(TxParser(ebs), EncTx, TxFit(ebs))
  {
    hide Has, EncTx, TakeTx, TxFits;
    forall s, p: nat | p <= |s| && TxParser(ebs)(s, p).Ok?
      ensures var Ok(x, q) := TxParser(ebs)(s, p);
              TxFit(ebs)(x) && Has(s, p, EncTx(x)) && q == p + |EncTx(x)|
    {
      TakeTxSound(ebs, s, p);
    }
    forall s, p: nat, x | Has(s, p, EncTx(x)) && TxFit(ebs)(x)
      ensures TxParser(ebs)(s, p) == Ok(x, p + |EncTx(x)|)
    {
      TakeTxComplete(ebs, s, p, x);
    }
  }

  lemma TakeBlockSound(ebs: uint64, s: bytes, p: nat)
    requires p <= |s|
    requires TakeBlock(ebs, s, p).Ok?
    ensures var Ok(x, q) := TakeBlock(ebs, s, p);
            BlockFits(ebs, x) && Has(s, p, EncBlock(x)) && q == p + |EncBlock(x)|
  {
    hide Has, TakeHeader, EncHeader, TakeVarInt, EncVarInt, Many, EncMany, Lawful, MaxTxPerBlock, TakeTx, EncTx;
    hide TxFits;
    var Ok(x, u) := TakeBlock(ebs, s, p);
    var Ok(h, q) := TakeHeader(s, p);
    var Ok(k, t) := TakeVarInt(s, q);
    var txs := x.transactions;
    TakeHeaderIff(s, p, h, q);
    TakeVarIntSound(s, q);
    TxLawful(ebs);
    ManySound(TxParser(ebs), EncTx, TxFit(ebs), s, t, k);
    assert forall i :: 0 <= i < |txs| ==> TxFit(ebs)(txs[i]) ==> TxFits(ebs, txs[i]);
    HasConcat(s, q, EncVarInt(|txs|), EncTxs(txs));
    HasConcat(s, p, EncHeader(h), EncVarInt(|txs|) + EncTxs(txs));
  }

  lemma TakeBlockComplete(ebs: uint64, s: bytes, p: nat, x: Block)
    requires BlockFits(ebs, x)
    requires Has(s, p, EncBlock(x))
    ensures TakeBlock(ebs, s, p) == Ok(x, p + |EncBlock(x)|)
  {
    hide Has, TakeHeader, EncHeader, TakeVarInt, EncVarInt, Many, EncMany, Lawful, MaxTxPerBlock, TakeTx, EncTx;
    hide TxFits;
    HasWithin(s, p, EncBlock(x));
    var txs := x.transactions;
    var q := p + BLOCK_HEADER_LEN;
    HasConcat(s, p, EncHeader(x.header), EncVarInt(|txs|) + EncTxs(txs));
    HasConcat(s, q, EncVarInt(|txs|), EncTxs(txs));
    TakeHeaderIff(s, p, x.header, q);
    TakeVarIntComplete(s, q, |txs|);
    TxLawful(ebs);
    ManyComplete(TxParser(ebs), EncTx, TxFit(ebs), s, q + |EncVarInt(|txs|)|, txs);
  }

  // The decoder accepts exactly the encodings of the blocks within its limits.
  lemma TakeBlockIff(ebs: uint64, s: bytes, p: nat, x: Block, q: nat)
    requires p <= |s|
    ensures TakeBlock(ebs, s, p) == Ok(x, q)
       <==> BlockFits(ebs, x) && Has(s, p, EncBlock(x)) && q == p + |EncBlock(x)|
  {
    hide Has, TakeBlock, EncBlock, BlockFits;
    if TakeBlock(ebs, s, p).Ok? {
      TakeBlockSound(ebs, s, p);
    }
    if BlockFits(ebs, x) && Has(s, p, EncBlock(x)) {
      TakeBlockComplete(ebs, s, p, x);
    }
  }

  // ---------- Relocation ----------

  lemma TakeStampsShift(s: bytes, a: nat, p: nat)
    requires a <= |s|
    ensures TakeStamps(s, a + p) == TakeStamps(s[a..], p).Shift(a)
  {
    hide TakeUint;
    TakeUintShift(s, a, p, 4);
    TakeUintShift(s, a, p + 4, 4);
    TakeUintShift(s, a, p + 8, 4);
  }

  lemma TakeHeaderShift(s: bytes, a: nat, p: nat)
    requires a <= |s|
    ensures TakeHeader(s, a + p) == TakeHeader(s[a..], p).Shift(a)
  {
    hide TakeUint, TakeN, TakeStamps;
    TakeUintShift(s, a, p, 4);
    TakeNShift(s, a, p + 4, 32);
    TakeNShift(s, a, p + 36, 32);
    TakeStampsShift(s, a, p + 68);
  }

  lemma TakeTxsShift(ebs: uint64, s: bytes, a: nat, p: nat, k: nat)
    requires a <= |s|
    ensures TakeTxs(ebs, s, a + p, k) == TakeTxs(ebs, s[a..], p, k).Shift(a)
  {
    hide TakeTx, Many;
    forall s, a: nat, p: nat | a <= |s|
      ensures TxParser(ebs)(s, a + p) == TxParser(ebs)(s[a..], p).Shift(a)
    {
      TakeTxShift(ebs, s, a, p);
    }
    ManyShift(TxParser(ebs), s, a, p, k);
  }

  // Decoding looks only at the bytes from its position on.
  lemma TakeBlockShift(ebs: uint64, s: bytes, a: nat, p: nat)
    requires a <= |s|
    ensures TakeBlock(ebs, s, a + p) == TakeBlock(ebs, s[a..], p).Shift(a)
  {
    hide TakeHeader, TakeVarInt, TakeTxs, MaxTxPerBlock;
    TakeHeaderShift(s, a, p);
    TakeVarIntShift(s, a, p + BLOCK_HEADER_LEN);
    var r := TakeVarInt(s[a..], p + BLOCK_HEADER_LEN);
    if r.Ok? {
      TakeTxsShift(ebs, s, a, r.next, r.value);
    }
  }
}
