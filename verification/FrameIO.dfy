/**
 The framing layer as the source runs it (message.go): header reads, discarding in
 chunks, the writer, the buffered reader and the streaming reader with its limited
 reader, tee and deferred drain. Each is proved to do what the functions of Frames say.
 */
module FrameIO {
  import opened Bytes
  import opened Parsing
  import opened Limits
  import opened Transactions
  import opened ExtendedTransactions
  import opened Blocks
  import opened Versions
  import opened Frames
  import opened Streams
  import opened Writing
  import VersionCodec
  import opened Arenas
  import opened TxMemory
  import opened ScriptPools
  import opened ExtPoolDecoding
  import PoolDecoding
  import ArenaDecoding
  import opened Denotation
  import opened DecoderAgreement

  method ReadMessageHeader(r: Stream) returns (h: Parsed<Header>)
    requires r.pos <= |r.data|
    modifies r
    ensures var spec := TakeN(r.data, old(r.pos), HEADER_SIZE);
            && r.pos == h.next == spec.next
            && (spec.Fail? ==> h == Fail(spec.err, spec.next))
            && (spec.Ok? ==> h == Ok(ParseHeader(spec.value), spec.next))
  {
    hide ParseHeader;
    var src := new Source.Plain(r);
    assert src.View() == r.data;
    var b := src.ReadFull(HEADER_SIZE);
    match b
    case Fail(e, q) => h := Fail(e, q);
    case Ok(v, q) => h := Ok(ParseHeader(v), q);
  }

  // 10 KiB at a time, then the rest.
  method DiscardInput(r: Stream, n: nat)
    requires r.pos <= |r.data|
    modifies r
    ensures r.pos == Skip(r.data, old(r.pos), n)
  {
    var maxSize := 10 * 1024;
    var numReads, bytesRemaining := n / maxSize, n % maxSize;
    var src := new Source.Plain(r);
    assert src.View() == r.data;
    if n > 0 {
      for i := 0 to numReads
        invariant src.Valid()
        invariant r.pos == Skip(r.data, old(r.pos), i * maxSize)
      {
        var _ := src.Fetch(maxSize);
      }
    }
    if bytesRemaining > 0 {
      var _ := src.Fetch(bytesRemaining);
    }
  }

  // Lengths a Go slice can have.
  predicate MessageRepresentable(env: Env, pver: uint32, m: Message) {
    match m
    case TxMessage(t) => Representable(t)
    case ExtTxMessage(t) => ExtRepresentable(t)
    case BlockMessage(b) => BlockRepresentable(b)
    case VersionMessage(v) => |v.associationID| < TWO63
    case OtherMessage(_, _) => true
  }

  // BsvEncode of the message type.
  method EncodePayload(w: Writer, env: Env, pver: uint32, m: Message) returns (err: Outcome)
    requires MessageRepresentable(env, pver, m)
    modifies w
    ensures var spec := EncPayload(env, pver, m);
            && (spec.Wrote? ==> err == Success && w.out == old(w.out) + spec.out)
            && (spec.NotWritten? ==> err == Failure(spec.err))
  {
    hide EncTx, EncExtTx, EncBlock, EncVersion, Representable, ExtRepresentable, BlockRepresentable;
    err := Success;
    match m
    case TxMessage(t) => EncodeTx(w, t);
    case ExtTxMessage(t) => EncodeExtTx(w, t);
    case BlockMessage(b) => EncodeBlock(w, b);
    case VersionMessage(v) => err := VersionCodec.EncodeVersion(w, pver, v);
    case OtherMessage(c, content) => w.Write(env.otherEncode(c, pver, content));
  }

  method WriteMessage(w: Writer, env: Env, pver: uint32, net: uint32, m: Message) returns (n: nat, err: Outcome)
    requires MessageRepresentable(env, pver, m)
    modifies w
    ensures var spec := WriteFrame(env, pver, net, m);
            && (spec.Wrote? ==> err == Success && w.out == old(w.out) + spec.out && n == |spec.out|)
            && (spec.NotWritten? ==> err == Failure(spec.err) && w.out == old(w.out) && n == 0)
  {
    hide EncPayload, LE, Checksum, MaxMessagePayload, MaxPayload, MessageRepresentable;
    var cmd := Command(m);
    if |cmd| > 12 {
      return 0, Failure(CommandTooLong);
    }
    var bw := new Writer();
    err := EncodePayload(bw, env, pver, m);
    if err.Failure? {
      return 0, err;
    }
    var payload := bw.out;
    assert payload == EncPayload(env, pver, m).out;
    if |payload| > AsInt64(MaxMessagePayload(env.ebs)) {
      return 0, Failure(PayloadTooLarge);
    }
    if |payload| > MaxPayload(env, cmd, pver) {
      return 0, Failure(TypePayloadTooLarge);
    }
    if |payload| > 0xffff_ffff {
      return 0, Success;
    }
    var hw := new Writer();
    hw.Write(LE(4, net));
    hw.Write(Pad(cmd));
    hw.Write(LE(4, |payload|));
    hw.Write(Checksum(env, payload));
    assert hw.out == EncFrameHeader(net, cmd, |payload|, Checksum(env, payload));
    w.Write(hw.out + payload);
    return |hw.out + payload|, Success;
  }

  // ---------- Messages in memory ----------

  datatype MemMessage =
    | NoMessage
    | MemTx(tx: MsgTx)
    | MemExtTx(ext: MsgExtTx)
    | MemBlock(block: ArenaDecoding.MsgBlock)
    | MemVersion(version: VersionCodec.MsgVersion)
    | MemOther(command: bytes, content: bytes)

  ghost predicate SpentsDenote(ms: seq<MemSpent>, vs: seq<ExtTxIn>)
    reads SliceArrays(SpentBuffers(ms))
  {
    |ms| == |vs| && forall i :: 0 <= i < |ms| ==> SpentDenotes(ms, i, vs[i])
  }

  ghost predicate SpentDenotes(ms: seq<MemSpent>, i: nat, v: ExtTxIn)
    requires i < |ms|
    reads SliceArrays(SpentBuffers(ms))
  {
    var s := SpentBuffers(ms)[i];
    ms[i].previousTxSatoshis == v.previousTxSatoshis && s.Sound() && s.Contents() == v.previousTxScript
  }

  ghost function ExtMemory(m: MsgExtTx): set<array<byte>>
    reads m, m.plain
  {
    ScriptMemory(m.plain) + SliceArrays(SpentBuffers(m.spent))
  }

  ghost predicate ExtDenotes(m: MsgExtTx, t: ExtTx)
    reads m, m.plain, ExtMemory(m)
  {
    Denotes(m.plain, t.Plain()) && SpentsDenote(m.spent, t.txIn)
  }

  ghost function TxsMemory(ms: seq<MsgTx>): set<array<byte>>
    reads ms
  {
    set i, a | 0 <= i < |ms| && a in ScriptMemory(ms[i]) :: a
  }

  ghost predicate TxsDenote(ms: seq<MsgTx>, vs: seq<Tx>)
    reads ms, TxsMemory(ms)
  {
    |ms| == |vs| && forall i :: 0 <= i < |ms| ==> Denotes(ms[i], vs[i])
  }

  // The objects a message consists of.
  ghost function Block(m: MemMessage): set<ArenaDecoding.MsgBlock> { if m.MemBlock? then {m.block} else {} }

  ghost function Txs(m: MemMessage): seq<MsgTx>
    reads Block(m)
  {
    match m
    case MemTx(tx) => [tx]
    case MemExtTx(ext) => [ext.plain]
    case MemBlock(b) => b.transactions
    case _ => []
  }

  ghost function Rest(m: MemMessage): set<object> {
    match m
    case MemExtTx(ext) => {ext}
    case MemVersion(v) => {v}
    case _ => {}
  }

  ghost function ScriptArrays(m: MemMessage): set<array<byte>>
    reads Block(m), Txs(m), Rest(m)
  {
    match m
    case MemTx(tx) => assert Txs(m)[0] == tx; ScriptMemory(tx)
    case MemExtTx(ext) => assert Txs(m)[0] == ext.plain; ExtMemory(ext)
    case MemBlock(b) => TxsMemory(b.transactions)
    case _ => {}
  }

  // The message in memory is the message value v.
  ghost predicate Carries(m: MemMessage, v: Message)
    reads Block(m), Txs(m), Rest(m), ScriptArrays(m)
  {
    match (m, v)
    case (MemTx(tx), TxMessage(t)) => assert Txs(m)[0] == tx; Denotes(tx, t)
    case (MemExtTx(ext), ExtTxMessage(t)) => assert Txs(m)[0] == ext.plain; ExtDenotes(ext, t)
    case (MemBlock(b), BlockMessage(k)) => b.header == k.header && TxsDenote(b.transactions, k.transactions)
    case (MemVersion(w), VersionMessage(f)) => w.fields == f
    case (MemOther(c, d), OtherMessage(c', d')) => c == c' && d == d'
    case _ => false
  }

  lemma ExtDenotesOne(m: MsgExtTx, t: ExtTx, u: ExtTx)
    requires ExtDenotes(m, t) && ExtDenotes(m, u)
    ensures t == u
  {
    hide Denotes;
    DenotesOne(m.plain, t.Plain(), u.Plain());
    forall i | 0 <= i < |t.txIn|
      ensures t.txIn[i] == u.txIn[i]
    {
      assert PlainIns(t.txIn)[i] == PlainIns(u.txIn)[i];
      assert SpentDenotes(m.spent, i, t.txIn[i]) && SpentDenotes(m.spent, i, u.txIn[i]);
    }
  }

  // A message in memory is one message value.
  lemma CarriesOne(m: MemMessage, v: Message, w: Message)
    requires Carries(m, v) && Carries(m, w)
    ensures v == w
  {
    hide Denotes, ExtDenotes;
    match m
    case MemTx(tx) => DenotesOne(tx, v.tx, w.tx);
    case MemExtTx(ext) => ExtDenotesOne(ext, v.ext, w.ext);
    case MemBlock(b) =>
      forall i | 0 <= i < |b.transactions|
        ensures v.block.transactions[i] == w.block.transactions[i]
      {
        DenotesOne(b.transactions[i], v.block.transactions[i], w.block.transactions[i]);
      }
    case _ =>
  }

  // ---------- Bsvdecode of the message type ----------

  lemma KeptDenotes(ext: MsgExtTx, scripts: array<byte>, pool: Pool, t: ExtTx)
    requires pool.Valid() && HoldsExt(ext, scripts, pool.lent, t)
    ensures ExtDenotes(ext, t)
  {
    ConsolidatedDenotes(ext.plain, scripts, t.Plain());
    forall i | 0 <= i < |t.txIn|
      ensures SpentDenotes(ext.spent, i, t.txIn[i])
    {
      assert SpentHolds(pool.lent, ext.spent[i], t.txIn[i]);
    }
  }

  lemma HeldBlockDenotes(b: ArenaDecoding.MsgBlock, a: Arena, k: Blocks.Block)
    requires a.Valid() && b.HoldsBlock(a.cells, k)
    ensures TxsDenote(b.transactions, k.transactions)
  {
    hide Arena.Valid, Denotes;
    forall i | 0 <= i < |b.transactions|
      ensures Denotes(b.transactions[i], k.transactions[i])
    {
      HeldDenotes(b.transactions[i], a, k.transactions[i]);
    }
  }

  method DecodeOther(src: Source, env: Env, pver: uint32, command: bytes) returns (m: MemMessage, err: Outcome)
    requires src.Valid()
    modifies src, src.base
    ensures src.Valid()
    ensures var spec := TakeOther(env, pver, command, src.View(), old(src.base.pos));
            && err == spec.Outcome() && src.base.pos == spec.next
            && (err.Success? ==> Carries(m, spec.value))
  {
    var rest := src.Peek();
    var d := env.otherDecode(command, pver, rest);
    var used := if d.next <= |rest| then d.next else |rest|;
    var _ := src.Fetch(used);
    match d
    case Ok(c, _) => m, err := MemOther(command, c), Success;
    case Fail(e, _) => m, err := NoMessage, Failure(e);
  }

  method DecodePayload(src: Source, env: Env, pver: uint32, command: bytes, pool: Pool)
    returns (m: MemMessage, err: Outcome)
    requires src.Valid() && pool.Valid()
    requires command == CMD_VERSION ==> !src.limited && !src.tee
    modifies src, src.base, pool, pool.repr
    ensures src.Valid() && pool.Valid()
    ensures var spec := TakePayload(env, pver, command, src.View(), old(src.base.pos));
            && err == spec.Outcome() && src.base.pos == spec.next
            && (err.Success? ==> Carries(m, spec.value))
  {
    hide TakeTx, TakeExtTx, TakeBlock, TakeVersion, TakeOther;
    hide Pool.Valid, Arena.Valid, Denotes, ExtDenotes, TxsDenote, PoolDecoding.Consolidated;
    hide Foreign, PoolDecoding.OutScripts, ReadsAnInput, SpentOf, Kept, HoldsExt, GivesOldBack, NoBufferLost;
    hide KeepsABuffer, PoolDecoding.GivesOldBack, PoolDecoding.HandedInLast;
    m := NoMessage;
    PoolDecoding.EmptyReceiver(pool.lent);
    if command == CMD_TX {
      var tx := new MsgTx();
      ghost var scripts;
      err, scripts := PoolDecoding.DecodeTx(tx, src, pool, env.ebs);
      if err.Success? {
        ConsolidatedDenotes(tx, scripts, TakeTx(env.ebs, src.View(), old(src.base.pos)).value);
        m := MemTx(tx);
      }
    } else if command == CMD_EXTTX {
      var ext := new MsgExtTx();
      ghost var scripts, spent;
      err, scripts, spent := DecodeExtTx(ext, src, pool, env.ebs);
      if err.Success? {
        KeptDenotes(ext, scripts, pool, TakeExtTx(env.ebs, src.View(), old(src.base.pos)).value);
        m := MemExtTx(ext);
      }
    } else if command == CMD_BLOCK {
      var block := new ArenaDecoding.MsgBlock();
      var arena;
      err, arena := ArenaDecoding.DecodeBlock(block, src, env.ebs);
      if err.Success? {
        HeldBlockDenotes(block, arena, TakeBlock(env.ebs, src.View(), old(src.base.pos)).value);
        m := MemBlock(block);
      }
    } else if command == CMD_VERSION {
      var version := new VersionCodec.MsgVersion();
      err := VersionCodec.DecodeVersion(version, src, env.ebs);
      if err.Success? {
        m := MemVersion(version);
      }
    } else {
      m, err := DecodeOther(src, env, pver, command);
    }
  }

  // ---------- Readers ----------

  // What a reader returned is what the specification says.
  ghost predicate Reported(spec: Read, count: nat, m: MemMessage, err: Outcome)
    reads Block(m), Txs(m), Rest(m), ScriptArrays(m)
  {
    && count == spec.count
    && (spec.Got? ==> err == Success && Carries(m, spec.msg))
    && (spec.Refused? ==> err == Failure(spec.err))
  }

  // The checks between header and payload, in the order of the source; a refused
  // message is skipped unless its header alone is over the limit.
  method ScreenHeader(r: Stream, env: Env, pver: uint32, net: uint32, h: Header, streaming: bool) returns (err: Outcome)
    requires HEADER_SIZE <= r.pos <= |r.data|
    modifies r
    ensures var c := Screen(env, pver, net, h, streaming);
            if c.Pass? then err == Success && r.pos == old(r.pos)
            else var spec := Refuse(r.data, old(r.pos) - HEADER_SIZE, h, c);
                 err == Failure(spec.err) && r.pos == spec.next && spec.count == HEADER_SIZE
  {
    hide MaxMessagePayload, MaxPayload, Modelled;
    if h.length > MaxMessagePayload(env.ebs) {
      return Failure(PayloadTooLarge);
    }
    if h.magic != net {
      DiscardInput(r, h.length);
      return Failure(OtherNetwork);
    }
    if !env.utf8(h.command) {
      DiscardInput(r, h.length);
      return Failure(InvalidCommand);
    }
    if streaming && h.command == CMD_VERSION {
      DiscardInput(r, h.length);
      return Failure(VersionNotStreamable);
    }
    if !Handled(env, h.command) {
      DiscardInput(r, h.length);
      return Failure(UnhandledCommand);
    }
    if h.length > MaxPayload(env, h.command, pver) {
      DiscardInput(r, h.length);
      return Failure(TypePayloadTooLarge);
    }
    err := Success;
  }

  // ReadMessageWithEncodingN: the payload is read whole, summed, then decoded.
  method ReadMessage(r: Stream, env: Env, pver: uint32, net: uint32, pool: Pool)
    returns (count: nat, m: MemMessage, payload: bytes, err: Outcome)
    requires r.pos <= |r.data| && pool.Valid()
    modifies r, pool, pool.repr
    ensures pool.Valid()
    ensures var spec := ReadBuffered(env, pver, net, r.data, old(r.pos));
            r.pos == spec.next && Reported(spec, count, m, err)
    ensures payload == if err.Success? then r.data[old(r.pos) + HEADER_SIZE..r.pos] else []
  {
    hide ParseHeader, Screen, TakePayload, Checksum, Carries, Pool.Valid;
    m, payload := NoMessage, [];
    var start := r.pos;
    var h := ReadMessageHeader(r);
    if h.Fail? {
      return r.pos - start, NoMessage, [], Failure(h.err);
    }
    count := HEADER_SIZE;
    err := ScreenHeader(r, env, pver, net, h.value, false);
    if err.Failure? {
      return;
    }
    var length := if h.value.length == NO_LENGTH then 0 else h.value.length;
    var src := new Source.Plain(r);
    assert src.View() == r.data;
    var whole := src.ReadFull(length);
    count := r.pos - start;
    if whole.Fail? {
      return count, NoMessage, [], Failure(whole.err);
    }
    if Checksum(env, whole.value) != h.value.checksum {
      return count, NoMessage, [], Failure(BadChecksum);
    }
    var buffer := new Stream(whole.value);
    var pr := new Source.Plain(buffer);
    assert pr.View() == whole.value;
    m, err := DecodePayload(pr, env, pver, h.value.command, pool);
    if err.Success? {
      payload := whole.value;
    }
  }

  // Draining the stream does not touch the decoded message.
  method DrainRest(src: Source, m: MemMessage, ghost v: Message)
    requires src.Valid() && Carries(m, v)
    modifies src, src.base
    ensures src.Valid() && src.base.pos == src.End()
    ensures Carries(m, v)
  {
    ghost var txs, arrays := Txs(m), ScriptArrays(m);
    src.Drain();
    assert Txs(m) == txs && ScriptArrays(m) == arrays;
  }

  method DeferredDrain(src: Source, m: MemMessage, ghost v: Message)
    requires src.Valid() && Carries(m, v)
    modifies src, src.base
    ensures src.base.pos == src.End()
    ensures Carries(m, v)
  {
    ghost var txs, arrays := Txs(m), ScriptArrays(m);
    src.DrainUnderTee();
    assert Txs(m) == txs && ScriptArrays(m) == arrays;
  }

  // ReadMessageStreamingN: the decoder reads through a limit and a tee; the payload is
  // drained into the hasher, and whatever is left is drained when the call returns.
  method ReadMessageStreaming(r: Stream, env: Env, pver: uint32, net: uint32, pool: Pool)
    returns (count: nat, m: MemMessage, err: Outcome)
    requires r.pos <= |r.data| && pool.Valid()
    modifies r, pool, pool.repr
    ensures pool.Valid()
    ensures var spec := ReadStreaming(env, pver, net, r.data, old(r.pos));
            r.pos == spec.next && Reported(spec, count, m, err)
  {
    hide ParseHeader, TakePayload, Checksum, Carries, Pool.Valid;
    m := NoMessage;
    var start := r.pos;
    var h := ReadMessageHeader(r);
    if h.Fail? {
      return r.pos - start, NoMessage, Failure(h.err);
    }
    count := HEADER_SIZE;
    err := ScreenHeader(r, env, pver, net, h.value, true);
    if err.Failure? {
      return;
    }
    var length := if h.value.length == NO_LENGTH then 0 else h.value.length;
    var src := new Source.Limited(r, length, true);
    assert src.View() == r.data[..Skip(r.data, r.pos, length)];
    m, err := DecodePayload(src, env, pver, h.value.command, pool);
    if err.Failure? {
      count := HEADER_SIZE + (length - src.n);
      src.DrainUnderTee();
      return;
    }
    ghost var value := TakePayload(env, pver, h.value.command, src.View(), src.start).value;
    DrainRest(src, m, value);
    count := HEADER_SIZE + length;
    assert src.hashed == src.View()[src.start..];
    if Checksum(env, src.hashed) != h.value.checksum {
      err := Failure(BadChecksum);
    }
    DeferredDrain(src, m, value);
  }
}
