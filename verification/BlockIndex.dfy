/**
 The transaction index of a block (DeserializeTxLoc in msg_block.go): the block is
 decoded one transaction at a time through the script pool, and the position of
 each transaction in the input is recorded.
 */
module BlockIndex {
  import opened Bytes
  import opened Parsing
  import opened VarInts
  import opened Repetition
  import opened Limits
  import opened Transactions
  import opened Blocks
  import opened Sizes
  import opened Streams
  import opened TxMemory
  import opened ScriptPools
  import opened PoolDecoding
  import opened ArenaDecoding

  datatype TxLoc = TxLoc(txStart: nat, txLen: nat)

  // Where the transactions of a block stand in its encoding.
  function LocOf(txs: seq<Tx>, i: nat): TxLoc
    requires i < |txs|
  {
    TxLoc(BLOCK_HEADER_LEN + |EncVarInt(|txs|)| + |EncTxs(txs[..i])|, |EncTx(txs[i])|)
  }

  // Each location is exactly the range of that transaction's encoding, the first
  // follows the header and the count, and each next one follows the one before.
  lemma LocsAreRanges(b: Block, i: nat)
    requires i < |b.transactions|
    ensures var txs := b.transactions;
            var loc := LocOf(txs, i);
            && Has(EncBlock(b), loc.txStart, EncTx(txs[i])) && loc.txLen == |EncTx(txs[i])|
            && (i == 0 ==> loc.txStart == 80 + |EncVarInt(|txs|)|)
            && (i + 1 < |txs| ==> LocOf(txs, i + 1).txStart == loc.txStart + loc.txLen)
            && (i + 1 == |txs| ==> loc.txStart + loc.txLen == |EncBlock(b)|)
  {
    hide Has, EncTx, EncHeader, EncVarInt;
    var txs := b.transactions;
    var front := EncHeader(b.header) + EncVarInt(|txs|);
    assert EncBlock(b) == front + EncTxs(txs) + [];
    HasWhole(front, EncTxs(txs), []);
    EncManyElement(EncTx, txs, i);
    HasInside(EncBlock(b), |front|, EncTxs(txs), |EncTxs(txs[..i])|, EncTx(txs[i]));
    EncManyAppend(EncTx, txs[..i], txs[i]);
    assert txs[..i + 1] == txs[..i] + [txs[i]];
    assert txs[..|txs|] == txs;
    assert i == 0 ==> txs[..i] == [];
  }

  // Every decoded transaction is consolidated in an array of its own.
  ghost predicate AllConsolidated(ms: seq<MsgTx>, arrays: seq<array<byte>>, vs: seq<Tx>)
    reads ms, arrays
  {
    |ms| == |arrays| == |vs| && forall i :: 0 <= i < |ms| ==> Consolidated(ms[i], arrays[i], vs[i])
  }

  lemma AllConsolidatedAppend(ms: seq<MsgTx>, arrays: seq<array<byte>>, vs: seq<Tx>, m: MsgTx, a: array<byte>, v: Tx)
    requires AllConsolidated(ms, arrays, vs) && Consolidated(m, a, v)
    ensures AllConsolidated(ms + [m], arrays + [a], vs + [v])
  {
  }

  // A transaction that parses at q ends after its own encoding.
  lemma TxSpan(ebs: uint64, s: bytes, p: nat, i: nat)
    requires p <= |s|
    requires TakeTxs(ebs, s, p, i).Ok?
    ensures TakeTxs(ebs, s, p, i).next == p + |EncTxs(TakeTxs(ebs, s, p, i).value)|
  {
    hide Has, TakeTx, EncTx, TxFits, Lawful;
    TxLawful(ebs);
    ManySound(TxParser(ebs), EncTx, TxFit(ebs), s, p, i);
  }

  // Offsets found while decoding: transaction j stands at offset + its span.
  ghost predicate LocsFrom(locs: seq<TxLoc>, offset: nat, vs: seq<Tx>) {
    |locs| == |vs| && forall j :: 0 <= j < |vs| ==>
      locs[j] == TxLoc(offset + |EncTxs(vs[..j])|, |EncTx(vs[j])|)
  }

  lemma LocsFromAppend(locs: seq<TxLoc>, offset: nat, vs: seq<Tx>, v: Tx)
    requires LocsFrom(locs, offset, vs)
    ensures LocsFrom(locs + [TxLoc(offset + |EncTxs(vs)|, |EncTx(v)|)], offset, vs + [v])
    ensures |EncTxs(vs + [v])| == |EncTxs(vs)| + |EncTx(v)|
  {
    hide EncTxs;
    assert (vs + [v])[..|vs|] == vs;
    assert forall j :: 0 <= j < |vs| ==> (vs + [v])[..j] == vs[..j];
    EncTxsAppend(vs, v);
  }

  lemma EncTxsAppend(vs: seq<Tx>, v: Tx)
    ensures EncTxs(vs + [v]) == EncTxs(vs) + EncTx(v)
  {
    EncManyAppend(EncTx, vs, v);
  }

  method ReadTxsWithLocs(msg: MsgBlock, src: Source, pool: Pool, ebs: uint64, count: uint64, full: nat)
    returns (err: Outcome, locs: seq<TxLoc>, ghost arrays: seq<array<byte>>)
    requires src.Valid() && pool.Valid() && full <= src.base.pos
    modifies msg`transactions, src, src.base, pool, pool.repr
    ensures src.Valid() && pool.Valid() && pool.lent == old(pool.lent)
    ensures var spec := TakeTxs(ebs, src.View(), old(src.base.pos), count);
            && err == spec.Outcome() && src.base.pos == spec.next
            && (err.Success? ==>
                  && AllConsolidated(msg.transactions, arrays, spec.value)
                  && LocsFrom(locs, old(src.base.pos) - full, spec.value))
  {
    hide TakeTx, TakeTxs, EncTx, EncTxs, Pool.Valid, Consolidated, AllConsolidated, LocsFrom;
    hide Foreign, OutScripts, GivesOldBack, HandedInLast;
    PoolDecoding.EmptyReceiver(pool.lent);
    msg.transactions := [];
    locs, arrays := [], [];
    ghost var start, vals := src.base.pos, [];
    NothingDecoded(start - full);
    for i := 0 to count
      invariant src.Valid() && pool.Valid() && pool.lent == old(pool.lent)
      invariant old(pool.repr) <= pool.repr && fresh(pool.repr - old(pool.repr))
      invariant TakeTxs(ebs, src.View(), start, i) == Ok(vals, src.base.pos)
      invariant fresh(msg.transactions) && forall a :: a in arrays ==> fresh(a) && a !in pool.repr
      invariant AllConsolidated(msg.transactions, arrays, vals)
      invariant LocsFrom(locs, start - full, vals)
    {
      ghost var spec := TakeTx(ebs, src.View(), src.base.pos);
      TakeTxsStep(ebs, src.View(), start, i, count);
      TxSpan(ebs, src.View(), start, i);
      var txStart := src.base.pos - full;
      var tx := new MsgTx();
      ghost var scripts;
      err, scripts := PoolDecoding.DecodeTx(tx, src, pool, ebs);
      if err.Failure? {
        return;
      }
      TxSpan(ebs, src.View(), start, i + 1);
      LocsFromAppend(locs, start - full, vals, spec.value);
      AllConsolidatedAppend(msg.transactions, arrays, vals, tx, scripts, spec.value);
      msg.transactions := msg.transactions + [tx];
      locs := locs + [TxLoc(txStart, src.base.pos - full - txStart)];
      arrays, vals := arrays + [scripts], vals + [spec.value];
    }
    err := Success;
  }

  lemma NothingDecoded(offset: nat)
    ensures AllConsolidated([], [], []) && LocsFrom([], offset, [])
  {
  }

  // The indexed decoder yields the block the parser yields, and the locations of its
  // transactions within the bytes it was given.
  method DeserializeTxLoc(msg: MsgBlock, src: Source, pool: Pool, ebs: uint64)
    returns (err: Outcome, locs: seq<TxLoc>, ghost arrays: seq<array<byte>>)
    requires src.Valid() && pool.Valid()
    modifies msg, src, src.base, pool, pool.repr
    ensures src.Valid() && pool.Valid() && pool.lent == old(pool.lent)
    ensures var spec := TakeBlock(ebs, src.View(), old(src.base.pos));
            && err == spec.Outcome() && src.base.pos == spec.next
            && (err.Success? ==>
                  && msg.header == spec.value.header
                  && AllConsolidated(msg.transactions, arrays, spec.value.transactions)
                  && |locs| == |spec.value.transactions|
                  && forall i :: 0 <= i < |locs| ==> locs[i] == LocOf(spec.value.transactions, i))
  {
    hide TakeHeader, TakeVarInt, EncVarInt, TakeTxs, EncTx, EncTxs, MaxTxPerBlock, Pool.Valid, AllConsolidated;
    var full := src.base.pos;
    locs, arrays := [], [];
    var header := ReadHeader(src);
    if header.Fail? {
      return Failure(header.err), [], [];
    }
    msg.header := header.value;
    ghost var counted := src.base.pos;
    var txCount := ReadVarInt(src);
    if txCount.Fail? {
      return Failure(txCount.err), [], [];
    }
    TakeVarIntSound(src.View(), counted);
    if txCount.value > MaxTxPerBlock(ebs) {
      return Failure(TooManyTransactions), [], [];
    }
    err, locs, arrays := ReadTxsWithLocs(msg, src, pool, ebs, txCount.value, full);
  }

  // In the input itself: the range of each location is that transaction's encoding,
  // and its length is what SerializeSize computes.
  lemma LocsInInput(ebs: uint64, s: bytes, p: nat, i: nat)
    requires p <= |s|
    requires TakeBlock(ebs, s, p).Ok? && i < |TakeBlock(ebs, s, p).value.transactions|
    ensures var txs := TakeBlock(ebs, s, p).value.transactions;
            Has(s, p + LocOf(txs, i).txStart, EncTx(txs[i])) && LocOf(txs, i).txLen == |EncTx(txs[i])|
  {
    hide Has, TakeBlock, EncBlock, EncTx, EncTxs;
    var b := TakeBlock(ebs, s, p).value;
    TakeBlockSound(ebs, s, p);
    LocsAreRanges(b, i);
    HasInside(s, p, EncBlock(b), LocOf(b.transactions, i).txStart, EncTx(b.transactions[i]));
  }
}
