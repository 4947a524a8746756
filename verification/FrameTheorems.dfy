/**
 Laws of the framing layer: the two readers agree, readers stay aligned over whole
 runs, and written frames are read back.
 */
module FrameTheorems {
  import opened Bytes
  import opened Parsing
  import opened Limits
  import opened Transactions
  import opened ExtendedTransactions
  import opened Blocks
  import opened Versions
  import opened Sizes
  import opened Frames

  // ---------- Payload decoders look only at the bytes from their position on ----------

  lemma TakePayloadShift(env: Env, pver: uint32, command: bytes, s: bytes, a: nat, p: nat)
    requires a + p <= |s|
    requires command != CMD_VERSION
    ensures TakePayload(env, pver, command, s, a + p) == TakePayload(env, pver, command, s[a..], p).Shift(a)
  {
    hide TakeTx, TakeExtTx, TakeBlock;
    if command == CMD_TX {
      TakeTxShift(env.ebs, s, a, p);
    } else if command == CMD_EXTTX {
      TakeExtTxShift(env.ebs, s, a, p);
    } else if command == CMD_BLOCK {
      TakeBlockShift(env.ebs, s, a, p);
    } else {
      assert s[a + p..] == s[a..][p..];
    }
  }

  // ---------- The two readers ----------

  // The header at p, if it is whole.
  function HeaderAt(s: bytes, p: nat): Header
    requires p + HEADER_SIZE <= |s|
  {
    ParseHeader(s[p..p + HEADER_SIZE])
  }

  // The whole payload the header declares is there.
  predicate PayloadPresent(s: bytes, p: nat) {
    p + HEADER_SIZE <= |s| && p + HEADER_SIZE + EffectiveLength(HeaderAt(s, p)) <= |s|
  }

  // What the streaming reader decodes is what the buffered reader decodes, moved.
  lemma StreamedPayload(env: Env, pver: uint32, command: bytes, s: bytes, q: nat, n: nat)
    requires q + n <= |s| && command != CMD_VERSION
    ensures s[..q + n][q..] == s[q..q + n]
    ensures TakePayload(env, pver, command, s[..q + n], q) == TakePayload(env, pver, command, s[q..q + n], 0).Shift(q)
  {
    hide TakePayload;
    var view := s[..q + n];
    assert view[q..] == s[q..q + n];
    TakePayloadShift(env, pver, command, view, q, 0);
  }

  // For every stream that holds the whole declared payload and every command except
  // version: both readers succeed on the same inputs with the same message, the same
  // count and the same final position. When they refuse, the position is the same, the
  // error differs only if the payload is both undecodable and wrongly summed, and the
  // count differs only if the payload is undecodable.
  lemma ReadersAgree(env: Env, pver: uint32, net: uint32, s: bytes, p: nat)
    requires PayloadPresent(s, p)
    requires HeaderAt(s, p).command != CMD_VERSION
    ensures var b, t := ReadBuffered(env, pver, net, s, p), ReadStreaming(env, pver, net, s, p);
            && b.next == t.next
            && (b.Got? <==> t.Got?)
            && (b.Got? ==> b == t)
            && (b.Refused? && b != t ==>
                  var h, q := HeaderAt(s, p), p + HEADER_SIZE;
                  var payload := s[q..q + EffectiveLength(h)];
                  && TakePayload(env, pver, h.command, payload, 0).Fail?
                  && (b.err != t.err ==> Checksum(env, payload) != h.checksum))
  {
    hide TakePayload, ParseHeader, Checksum;
    var h, q := HeaderAt(s, p), p + HEADER_SIZE;
    if Screen(env, pver, net, h, false).Pass? {
      var n := EffectiveLength(h);
      StreamedPayload(env, pver, h.command, s, q, n);
      assert TakeN(s, q, n) == Ok(s[q..q + n], q + n);
    }
  }

  // With a truncated payload the buffered reader always refuses. The streaming reader
  // sums and decodes what is there, so the two agree on success exactly when the
  // payload is whole or the truncated bytes fail to decode or to match the checksum.
  lemma AgreementExact(env: Env, pver: uint32, net: uint32, s: bytes, p: nat)
    requires p + HEADER_SIZE <= |s|
    requires HeaderAt(s, p).command != CMD_VERSION
    requires Screen(env, pver, net, HeaderAt(s, p), false).Pass?
    ensures var h, q := HeaderAt(s, p), p + HEADER_SIZE;
            (ReadBuffered(env, pver, net, s, p).Got? <==> ReadStreaming(env, pver, net, s, p).Got?)
            <==>
            || PayloadPresent(s, p)
            || TakePayload(env, pver, h.command, s, q).Fail?
            || Checksum(env, s[q..]) != h.checksum
  {
    hide TakePayload, ParseHeader, Checksum;
    if PayloadPresent(s, p) {
      ReadersAgree(env, pver, net, s, p);
    } else {
      assert s[..|s|] == s;
    }
  }

  // ---------- Alignment over whole runs ----------

  function ReadOne(env: Env, pver: uint32, net: uint32, streaming: bool, s: bytes, p: nat): (r: Read)
    requires p <= |s|
    ensures p <= r.next <= |s|
  {
    if streaming then ReadStreaming(env, pver, net, s, p) else ReadBuffered(env, pver, net, s, p)
  }

  // Either reader ends where the frame ends, exactly unless an accepted header
  // announces an extended length.
  lemma AlignmentExact(env: Env, pver: uint32, net: uint32, streaming: bool, s: bytes, p: nat)
    requires p + HEADER_SIZE <= |s|
    requires HeaderAt(s, p).length <= MaxMessagePayload(env.ebs)
    requires p + HEADER_SIZE + HeaderAt(s, p).length <= |s|
    ensures ReadOne(env, pver, net, streaming, s, p).next == p + HEADER_SIZE + HeaderAt(s, p).length
       <==> HeaderAt(s, p).length != NO_LENGTH || !Screen(env, pver, net, HeaderAt(s, p), streaming).Pass?
  {
    hide TakePayload, ParseHeader, Checksum;
  }

  // One frame: a header and exactly the payload it declares, within the message limit.
  predicate WellFramed(env: Env, f: bytes) {
    && |f| >= HEADER_SIZE
    && HeaderAt(f, 0).length == |f| - HEADER_SIZE
    && HeaderAt(f, 0).length <= MaxMessagePayload(env.ebs)
    && HeaderAt(f, 0).length != NO_LENGTH
  }

  // Reading a frame inside a stream depends on that frame only.
  lemma ReadLocal(env: Env, pver: uint32, net: uint32, streaming: bool, s: bytes, p: nat, f: bytes)
    requires Has(s, p, f) && WellFramed(env, f)
    ensures ReadOne(env, pver, net, streaming, s, p) == ReadOne(env, pver, net, streaming, f, 0).Shift(p)
    ensures ReadOne(env, pver, net, streaming, s, p).next == p + |f|
  {
    hide TakePayload, ParseHeader, Checksum;
    var q, n := p + HEADER_SIZE, |f| - HEADER_SIZE;
    assert s[p..q] == s[p..p + |f|][..HEADER_SIZE] == f[0..HEADER_SIZE];
    var h := HeaderAt(f, 0);
    assert HeaderAt(s, p) == h;
    assert s[q..q + n] == s[p..p + |f|][HEADER_SIZE..] == f[HEADER_SIZE..HEADER_SIZE + n];
    assert TakeN(s, q, n) == TakeN(f, HEADER_SIZE, n).Shift(p);
    if streaming && Screen(env, pver, net, h, true).Pass? {
      StreamedPayload(env, pver, h.command, s, q, n);
      StreamedPayload(env, pver, h.command, f, HEADER_SIZE, n);
    }
  }

  function Flat(frames: seq<bytes>): bytes {
    if frames == [] then [] else frames[0] + Flat(frames[1..])
  }

  // Read after read, each with the reader the list names.
  function Run(env: Env, pver: uint32, net: uint32, readers: seq<bool>, s: bytes, p: nat): (rs: seq<Read>)
    requires p <= |s|
    ensures |rs| == |readers|
    decreases |readers|
  {
    if readers == [] then []
    else
      var r := ReadOne(env, pver, net, readers[0], s, p);
      [r] + Run(env, pver, net, readers[1..], s, r.next)
  }

  // On any concatenation of frames, with any mix of the two readers, the k-th read
  // starts where frame k starts and its result depends only on frame k, whatever the
  // earlier frames were: wrong network, unknown command, too long for their type, badly
  // summed or undecodable.
  lemma {:induction false} RunStaysAligned(
    env: Env, pver: uint32, net: uint32, readers: seq<bool>, frames: seq<bytes>, s: bytes, p: nat, k: nat)
    requires k < |readers| <= |frames|
    requires forall i :: 0 <= i < |frames| ==> WellFramed(env, frames[i])
    requires Has(s, p, Flat(frames))
    ensures var r := Run(env, pver, net, readers, s, p)[k];
            && r == ReadOne(env, pver, net, readers[k], frames[k], 0).Shift(p + |Flat(frames[..k])|)
            && r.next == p + |Flat(frames[..k + 1])|
    decreases |readers|
  {
    hide Has, WellFramed, ReadOne;
    var f := frames[0];
    HasWithin(s, p, Flat(frames));
    HasConcat(s, p, f, Flat(frames[1..]));
    ReadLocal(env, pver, net, readers[0], s, p, f);
    if k == 0 {
      assert frames[..1] == [f] && frames[..0] == [];
      assert Flat([f]) == f + Flat([]);
    } else {
      RunStaysAligned(env, pver, net, readers[1..], frames[1..], s, p + |f|, k - 1);
      assert frames[..k][1..] == frames[1..][..k - 1];
      assert frames[..k + 1][1..] == frames[1..][..k];
    }
  }

  // ---------- Frame round trip ----------

  lemma {:induction false} TrimZeros(c: bytes, n: nat)
    ensures Trim(c + Zeros(n)) == Trim(c)
  {
    var b := c + Zeros(n);
    if n == 0 {
      assert b == c;
    } else {
      assert b[..|b| - 1] == c + Zeros(n - 1);
      TrimZeros(c, n - 1);
    }
  }

  lemma TrimSame(c: bytes)
    ensures Trim(c) == c <==> c == [] || c[|c| - 1] != 0
  {
    hide Zeros;
    if c != [] && c[|c| - 1] == 0 {
      assert |Trim(c)| <= |c| - 1;
    }
  }

  // The extended announcement: its command is not the one that was written.
  predicate Announces(command: bytes, length: uint32, checksum: bytes) {
    command == CMD_EXTMSG && length == NO_LENGTH && checksum == [0, 0, 0, 0]
  }

  // A written header is read back as it was exactly when the command has no zero byte
  // at its end, where the padding begins, and the header is not the announcement.
  lemma HeaderRoundTrip(net: uint32, command: bytes, length: uint32, checksum: bytes)
    requires |command| <= 12 && |checksum| == 4
    ensures |EncFrameHeader(net, command, length, checksum)| == HEADER_SIZE
    ensures ParseHeader(EncFrameHeader(net, command, length, checksum)) == Header(net, command, length, checksum)
       <==> (command == [] || command[|command| - 1] != 0) && !Announces(command, length, checksum)
  {
    hide LE, FromLE, Pad, Trim;
    var b := EncFrameHeader(net, command, length, checksum);
    assert b[0..4] == LE(4, net) && b[4..16] == Pad(command) && b[16..20] == LE(4, length) && b[20..24] == checksum;
    Pow256Values();
    FromLEOfLE(4, net);
    FromLEOfLE(4, length);
    PadWithZeros(command);
    TrimZeros(command, 12 - |command|);
    TrimSame(command);
  }

  lemma PadWithZeros(command: bytes)
    requires |command| <= 12
    ensures Pad(command) == command + Zeros(12 - |command|)
  {
  }

  // Inside the decoder's limits.
  predicate MessageFits(env: Env, pver: uint32, m: Message) {
    match m
    case TxMessage(t) => TxFits(env.ebs, t)
    case ExtTxMessage(t) => ExtTxFits(env.ebs, t)
    case BlockMessage(b) => BlockFits(env.ebs, b)
    case VersionMessage(v) =>
      && |v.associationID| <= 129
      && (pver >= 70001 || (v.associationID == [] && !v.disableRelayTx))
    case OtherMessage(_, _) => false
  }

  // Addresses of a version message come back in their 16-byte form.
  function NormalMessage(m: Message): Message {
    if m.VersionMessage? then VersionMessage(Normal(m.version)) else m
  }

  lemma PayloadRoundTrip(env: Env, pver: uint32, m: Message)
    requires MessageFits(env, pver, m) && EncPayload(env, pver, m).Wrote?
    requires |EncPayload(env, pver, m).out| <= MaxMessagePayload(env.ebs)
    ensures var b := EncPayload(env, pver, m).out;
            |b| > 0 && TakePayload(env, pver, Command(m), b, 0) == Ok(NormalMessage(m), |b|)
  {
    hide TakeTx, EncTx, TxFits, TakeExtTx, EncExtTx, ExtTxFits, TakeBlock, EncBlock, BlockFits, TakeVersion;
    hide MaxMessagePayload;
    var b := EncPayload(env, pver, m).out;
    assert Has(b, 0, b) by { HasWhole([], b, []); assert [] + b + [] == b; }
    match m {
      case TxMessage(t) => TakeTxIff(env.ebs, b, 0, t, |b|); NotEmpty(env.ebs, b);
      case ExtTxMessage(t) => TakeExtTxIff(env.ebs, b, 0, t, |b|); NotEmpty(env.ebs, b);
      case BlockMessage(k) => TakeBlockIff(env.ebs, b, 0, k, |b|); NotEmpty(env.ebs, b);
      case VersionMessage(v) =>
        EncVersionLength(pver, v);
        VersionRoundTrip(env.ebs, pver, v);
    }
  }

  // Nothing decodes from no bytes.
  lemma NotEmpty(ebs: uint64, b: bytes)
    ensures b == [] ==> TakeTx(ebs, b, 0).Fail? && TakeExtTx(ebs, b, 0).Fail? && TakeBlock(ebs, b, 0).Fail?
                        && TakeVersion(ebs, b, 0, EMPTY_VERSION).Fail?
  {
  }

  // The command is valid text, as every ASCII string is.
  predicate CommandValid(env: Env, m: Message) { env.utf8(Command(m)) }

  lemma FrameScreened(env: Env, pver: uint32, net: uint32, m: Message, payload: bytes)
    requires !m.OtherMessage? && CommandValid(env, m)
    requires EncPayload(env, pver, m) == Wrote(payload) && |payload| <= 0xffff_ffff
    requires WriteFrame(env, pver, net, m).Wrote?
    ensures var h := Header(net, Command(m), |payload|, Checksum(env, payload));
            Screen(env, pver, net, h, false).Pass?
    ensures |payload| <= MaxMessagePayload(env.ebs)
  {
    hide EncPayload, MaxMessagePayload, MaxPayload, Checksum;
    assert Modelled(Command(m));
  }

  // A message that was written as one frame is read back from wherever the frame
  // stands: same message, count 24 plus payload length, and everything after the frame
  // left unread.
  lemma FrameRoundTrip(env: Env, pver: uint32, net: uint32, m: Message, s: bytes, p: nat)
    requires MessageFits(env, pver, m) && CommandValid(env, m)
    requires EncPayload(env, pver, m).Wrote? && |EncPayload(env, pver, m).out| < 0xffff_ffff
    requires WriteFrame(env, pver, net, m).Wrote? && Has(s, p, WriteFrame(env, pver, net, m).out)
    ensures var n := |EncPayload(env, pver, m).out|;
            && |WriteFrame(env, pver, net, m).out| == 24 + n
            && ReadBuffered(env, pver, net, s, p) == Got(NormalMessage(m), 24 + n, p + 24 + n)
  {
    hide Has, EncPayload, TakePayload, EncFrameHeader, ParseHeader, Screen, Checksum, MaxMessagePayload, MaxPayload;
    var payload := EncPayload(env, pver, m).out;
    var command := Command(m);
    var head := EncFrameHeader(net, command, |payload|, Checksum(env, payload));
    HasWithin(s, p, WriteFrame(env, pver, net, m).out);
    HasConcat(s, p, head, payload);
    HeaderRoundTrip(net, command, |payload|, Checksum(env, payload));
    FrameScreened(env, pver, net, m, payload);
    PayloadRoundTrip(env, pver, m);
    TakeNIff(s, p, HEADER_SIZE, head, p + HEADER_SIZE);
    TakeNIff(s, p + HEADER_SIZE, |payload|, payload, p + HEADER_SIZE + |payload|);
  }

  // Reading a written message back on its own succeeds exactly for payloads below
  // 2^32 - 1 bytes: at that size the length announces an extended frame, and above it
  // nothing was written.
  lemma FrameRoundTripExact(env: Env, pver: uint32, net: uint32, m: Message)
    requires MessageFits(env, pver, m) && CommandValid(env, m)
    requires EncPayload(env, pver, m).Wrote? && WriteFrame(env, pver, net, m).Wrote?
    ensures var f := WriteFrame(env, pver, net, m).out;
            ReadBuffered(env, pver, net, f, 0).Got? <==> |EncPayload(env, pver, m).out| < 0xffff_ffff
  {
    hide Has, EncPayload, TakePayload, EncFrameHeader, ParseHeader, Screen, Checksum, MaxMessagePayload, MaxPayload;
    var payload := EncPayload(env, pver, m).out;
    var f := WriteFrame(env, pver, net, m).out;
    if |payload| < 0xffff_ffff {
      HasWhole([], f, []);
      assert [] + f + [] == f;
      FrameRoundTrip(env, pver, net, m, f, 0);
    } else if |payload| == 0xffff_ffff {
      var head := EncFrameHeader(net, Command(m), |payload|, Checksum(env, payload));
      HeaderRoundTrip(net, Command(m), |payload|, Checksum(env, payload));
      FrameScreened(env, pver, net, m, payload);
      assert f[0..HEADER_SIZE] == head;
      NothingDecodes(env, pver, m);
    }
  }

  lemma NothingDecodes(env: Env, pver: uint32, m: Message)
    requires !m.OtherMessage?
    ensures TakePayload(env, pver, Command(m), [], 0).Fail?
  {
    hide TakeTx, TakeExtTx, TakeBlock, TakeVersion;
    NotEmpty(env.ebs, []);
  }

  // A frame whose last byte is missing: the streaming reader accepts it, the buffered
  // one does not.
  lemma TruncationSplitsReaders(env: Env, pver: uint32, net: uint32, t: Tx, s: bytes)
    requires env.utf8(CMD_TX) && TxFits(env.ebs, t)
    requires |EncTx(t)| < MaxMessagePayload(env.ebs) && |EncTx(t)| < env.ebs && |EncTx(t)| < 0xffff_fffe
    requires s == EncFrameHeader(net, CMD_TX, |EncTx(t)| + 1, Checksum(env, EncTx(t))) + EncTx(t)
    ensures ReadStreaming(env, pver, net, s, 0).Got? && ReadBuffered(env, pver, net, s, 0).Refused?
  {
    hide EncTx, TakeTx, TxFits, EncFrameHeader, ParseHeader, Checksum, MaxMessagePayload;
    var b := EncTx(t);
    var head := EncFrameHeader(net, CMD_TX, |b| + 1, Checksum(env, b));
    HeaderRoundTrip(net, CMD_TX, |b| + 1, Checksum(env, b));
    assert s[0..HEADER_SIZE] == head && s[HEADER_SIZE..] == b && s[..|s|] == s;
    HasWhole(head, b, []);
    assert head + b + [] == s;
    TakeTxIff(env.ebs, s, HEADER_SIZE, t, |s|);
  }

  // ---------- Limits and framing together ----------

  predicate Sized(m: Message) { m.TxMessage? || m.ExtTxMessage? || m.BlockMessage? }

  // The message limit converted to a signed integer is negative from here on.
  const SIGN_BOUND: int := 0x400_0000_0000 * 1_000_000

  // The limit of the message type.
  function TypeLimit(env: Env, pver: uint32, m: Message): nat {
    if m.VersionMessage? then MaxPayloadLength(pver) else env.ebs
  }

  // Exactly when the writer accepts a message, for every excessive block size: it also
  // refuses everything, the empty payload included, while the limit is negative as a
  // signed integer.
  lemma WriterAccepts(env: Env, pver: uint32, net: uint32, m: Message)
    requires !m.OtherMessage?
    ensures EncPayload(env, pver, m).Wrote? <==> (m.VersionMessage? ==> |m.version.userAgent| <= 256)
    ensures WriteFrame(env, pver, net, m).Wrote?
       <==> && EncPayload(env, pver, m).Wrote?
            && |EncPayload(env, pver, m).out| <= TypeLimit(env, pver, m)
            && |EncPayload(env, pver, m).out| <= MaxMessagePayload(env.ebs)
            && env.ebs / 1_000_000 % 0x800_0000_0000 < 0x400_0000_0000
  {
    hide EncTx, EncExtTx, EncBlock, EncVersion, EncFrameHeader, Checksum, MaxMessagePayload, MaxPayloadLength;
    assert Modelled(Command(m));
    SignOfLimit(env.ebs);
  }

  lemma SignOfLimit(ebs: uint64)
    ensures MaxMessagePayload(ebs) < TWO63 <==> ebs / 1_000_000 % 0x800_0000_0000 < 0x400_0000_0000
  {
    hide MaxMessagePayload;
    MessageLimitWraps(ebs);
    var q := ebs / 1_000_000;
    assert ebs < WRAP_BOUND <==> q < 0x800_0000_0000;
    assert ebs < 2 * WRAP_BOUND <==> q < 0x1000_0000_0000;
    assert q % 0x800_0000_0000 ==
      if q < 0x800_0000_0000 then q else if q < 0x1000_0000_0000 then q - 0x800_0000_0000 else q - 0x1000_0000_0000;
  }

  // Every input script is within the decoder's byte cap.
  predicate CappedScripts(ebs: uint64, m: Message)
    requires Sized(m)
  {
    match m
    case TxMessage(t) => SignatureScriptsFit(ebs, t)
    case ExtTxMessage(t) => InputScriptsFit(ebs, t)
    case BlockMessage(b) => forall i :: 0 <= i < |b.transactions| ==> SignatureScriptsFit(ebs, b.transactions[i])
  }

  lemma SizedMessageFits(env: Env, pver: uint32, m: Message)
    requires 1_000_000 <= env.ebs < WRAP_BOUND && Sized(m)
    requires |EncPayload(env, pver, m).out| <= env.ebs
    ensures MessageFits(env, pver, m) <==> CappedScripts(env.ebs, m)
  {
    hide EncTx, EncExtTx, EncBlock, TxFits, ExtTxFits, BlockFits, SignatureScriptsFit, InputScriptsFit;
    match m {
      case TxMessage(t) => SizedTxFits(env.ebs, t);
      case ExtTxMessage(t) => SizedExtTxFits(env.ebs, t);
      case BlockMessage(b) => SizedBlockFits(env.ebs, b);
    }
  }

  // A payload over the limits never decodes to its own message.
  lemma OnlyFittingDecode(env: Env, pver: uint32, m: Message)
    requires Sized(m) && !MessageFits(env, pver, m)
    ensures var b := EncPayload(env, pver, m).out;
            forall q :: TakePayload(env, pver, Command(m), b, 0) != Ok(m, q)
  {
    hide EncTx, TakeTx, TxFits, EncExtTx, TakeExtTx, ExtTxFits, EncBlock, TakeBlock, BlockFits;
    var b := EncPayload(env, pver, m).out;
    match m {
      case TxMessage(t) => TakeTxIff(env.ebs, b, 0, t, TakeTx(env.ebs, b, 0).next);
      case ExtTxMessage(t) => TakeExtTxIff(env.ebs, b, 0, t, TakeExtTx(env.ebs, b, 0).next);
      case BlockMessage(k) => TakeBlockIff(env.ebs, b, 0, k, TakeBlock(env.ebs, b, 0).next);
    }
  }

  // A transaction, an extended transaction or a block makes it through writer and
  // reader exactly when its payload is within the block size and below 2^32 - 1 bytes,
  // its input scripts are within the decoder's byte cap, and the writer's limit has not
  // become negative.
  lemma WrittenReadBack(env: Env, pver: uint32, net: uint32, m: Message)
    requires 1_000_000 <= env.ebs < WRAP_BOUND
    requires Sized(m) && CommandValid(env, m)
    ensures var w, n := WriteFrame(env, pver, net, m), |EncPayload(env, pver, m).out|;
            && w.Wrote?
            && ReadBuffered(env, pver, net, w.out, 0) == Got(m, 24 + n, 24 + n)
            <==>
            n <= env.ebs && n < 0xffff_ffff && CappedScripts(env.ebs, m) && env.ebs < SIGN_BOUND
  {
    hide EncPayload, TakePayload, EncFrameHeader, ParseHeader, Screen, Checksum, MaxMessagePayload, MaxPayload;
    hide CappedScripts;
    hide MessageFits, WriteFrame, ReadBuffered;
    WriterAccepts(env, pver, net, m);
    MessageLimitAdmitsBlocks(env.ebs);
    InRange(env.ebs);
    if WriteFrame(env, pver, net, m).Wrote? {
      SizedMessageFits(env, pver, m);
      WrittenFits(env, pver, net, m);
    }
  }

  lemma InRange(ebs: uint64)
    requires ebs < WRAP_BOUND
    ensures ebs / 1_000_000 % 0x800_0000_0000 < 0x400_0000_0000 <==> ebs < SIGN_BOUND
  {
    assert ebs / 1_000_000 < 0x800_0000_0000;
  }

  lemma WrittenFits(env: Env, pver: uint32, net: uint32, m: Message)
    requires Sized(m) && CommandValid(env, m) && WriteFrame(env, pver, net, m).Wrote?
    ensures var f, n := WriteFrame(env, pver, net, m).out, |EncPayload(env, pver, m).out|;
            ReadBuffered(env, pver, net, f, 0) == Got(m, 24 + n, 24 + n)
            <==>
            n < 0xffff_ffff && MessageFits(env, pver, m)
  {
    hide Has, EncPayload, TakePayload, EncFrameHeader, ParseHeader, Screen, Checksum, MaxMessagePayload;
    hide MaxPayload, MessageFits;
    WriterAccepts(env, pver, net, m);
    var f, b := WriteFrame(env, pver, net, m).out, EncPayload(env, pver, m).out;
    if |b| <= 0xffff_ffff {
      var head := EncFrameHeader(net, Command(m), |b|, Checksum(env, b));
      HeaderRoundTrip(net, Command(m), |b|, Checksum(env, b));
      FrameScreened(env, pver, net, m, b);
      assert f[0..HEADER_SIZE] == head && f[HEADER_SIZE..HEADER_SIZE + |b|] == b;
      if MessageFits(env, pver, m) && |b| < 0xffff_ffff {
        HasWhole([], f, []);
        assert [] + f + [] == f;
        FrameRoundTrip(env, pver, net, m, f, 0);
      } else if |b| < 0xffff_ffff {
        OnlyFittingDecode(env, pver, m);
      }
    }
  }

  // A version message makes it through writer and reader exactly when its user agent and
  // association ID are short enough, what the relay byte would carry is not lost, and the
  // writer's limit has not become negative.
  lemma WrittenVersionReadBack(env: Env, pver: uint32, net: uint32, v: Version)
    requires 1_000_000 <= env.ebs < WRAP_BOUND && env.utf8(CMD_VERSION)
    ensures var w, n := WriteFrame(env, pver, net, VersionMessage(v)), 24 + |EncVersion(pver, v)|;
            && w.Wrote?
            && ReadBuffered(env, pver, net, w.out, 0) == Got(VersionMessage(Normal(v)), n, n)
            <==>
            && |v.userAgent| <= 256 && |v.associationID| <= 129
            && (pver >= 70001 || (v.associationID == [] && !v.disableRelayTx))
            && env.ebs < SIGN_BOUND
  {
    hide EncVersion, TakeVersion, EncFrameHeader, ParseHeader, Screen, Checksum, MaxMessagePayload, MaxPayload;
    hide TakePayload, WriteFrame, ReadBuffered, Normal;
    var m := VersionMessage(v);
    WriterAccepts(env, pver, net, m);
    InRange(env.ebs);
    EnoughForVersion(env.ebs, pver);
    if |v.userAgent| <= MAX_USER_AGENT_LEN {
      VersionRoundTrip(env.ebs, pver, v);
      if WriteFrame(env, pver, net, m).Wrote? {
        WrittenVersion(env, pver, net, v);
      }
    }
  }

  lemma EnoughForVersion(ebs: uint64, pver: uint32)
    requires 1_000_000 <= ebs < WRAP_BOUND
    ensures MaxPayloadLength(pver) <= 500 <= MaxMessagePayload(ebs)
  {
    hide MaxMessagePayload;
    MessageLimitAdmitsBlocks(ebs);
  }

  lemma WrittenVersion(env: Env, pver: uint32, net: uint32, v: Version)
    requires env.utf8(CMD_VERSION) && |v.userAgent| <= 256 && MaxPayloadLength(pver) <= 500
    requires WriteFrame(env, pver, net, VersionMessage(v)).Wrote?
    ensures var f, n := WriteFrame(env, pver, net, VersionMessage(v)).out, 24 + |EncVersion(pver, v)|;
            var r := TakeVersion(env.ebs, EncVersion(pver, v), 0, EMPTY_VERSION);
            ReadBuffered(env, pver, net, f, 0) == Got(VersionMessage(Normal(v)), n, n)
            <==> r.Ok? && r.value == Normal(v)
  {
    hide EncVersion, TakeVersion, EncFrameHeader, ParseHeader, Screen, Checksum, MaxMessagePayload, Normal;
    hide MaxPayloadLength;
    var m, b := VersionMessage(v), EncVersion(pver, v);
    WriterAccepts(env, pver, net, m);
    var f := WriteFrame(env, pver, net, m).out;
    HeaderRoundTrip(net, CMD_VERSION, |b|, Checksum(env, b));
    FrameScreened(env, pver, net, m, b);
    assert f[0..HEADER_SIZE] == EncFrameHeader(net, CMD_VERSION, |b|, Checksum(env, b));
    assert f[HEADER_SIZE..HEADER_SIZE + |b|] == b;
  }

  // The extended announcement: whatever follows, the command is gone and the length that
  // both readers go by is zero.
  lemma AnnouncementEmptied(net: uint32)
    ensures var b := EncFrameHeader(net, CMD_EXTMSG, NO_LENGTH, [0, 0, 0, 0]);
            && |b| == HEADER_SIZE && ParseHeader(b).command == []
            && ParseHeader(b).length == NO_LENGTH && EffectiveLength(ParseHeader(b)) == 0
  {
    hide LE, FromLE, Pad, Trim;
    var b := EncFrameHeader(net, CMD_EXTMSG, NO_LENGTH, [0, 0, 0, 0]);
    assert b[4..16] == Pad(CMD_EXTMSG) && b[16..20] == LE(4, NO_LENGTH) && b[20..24] == [0, 0, 0, 0];
    Pow256Values();
    FromLEOfLE(4, NO_LENGTH);
    PadWithZeros(CMD_EXTMSG);
    TrimZeros(CMD_EXTMSG, 6);
    TrimSame(CMD_EXTMSG);
  }
}
