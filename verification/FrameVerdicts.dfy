/**
 What the framing layer writes and which frames it takes, stated over the bytes of the
 stream: offsets of the header, the double hash, and for every frame which of the readers'
 verdicts it gets.
 */
module FrameVerdicts {
  import opened Bytes
  import opened Parsing
  import opened Limits
  import opened Transactions
  import opened ExtendedTransactions
  import opened Blocks
  import opened Versions
  import opened WireLayout
  import opened Frames
  import R = Refusals
  import FT = FrameTheorems

  // ---------- Headers ----------

  // The bytes of a command name.
  function Ascii(name: string): (b: bytes)
    ensures |b| == |name|
  {
    seq(|name|, i requires 0 <= i < |name| => name[i] as int % 128)
  }

  function Name(m: Message): bytes {
    match m
    case TxMessage(_) => Ascii("tx")
    case ExtTxMessage(_) => Ascii("exttx")
    case BlockMessage(_) => Ascii("block")
    case VersionMessage(_) => Ascii("version")
    case OtherMessage(c, _) => c
  }

  lemma Names(m: Message)
    ensures Command(m) == Name(m)
    ensures CMD_EXTMSG == Ascii("extmsg")
  {
  }

  // A command in its twelve bytes, filled up with zeros.
  ghost predicate CommandAt(s: bytes, p: nat, c: bytes) {
    |c| <= 12 && Has(s, p, c) && ZeroAt(s, p + |c|, 12 - |c|)
  }

  lemma PaddedIff(s: bytes, p: nat, c: bytes)
    requires |c| <= 12
    ensures Has(s, p, c + Zeros(12 - |c|)) <==> CommandAt(s, p, c)
  {
    hide Has, ZeroAt;
    HasConcat(s, p, c, Zeros(12 - |c|));
    ZerosIff(s, p + |c|, 12 - |c|);
  }

  // The extended announcement.
  ghost predicate Announcement(s: bytes, p: nat) {
    CommandAt(s, p + 4, Ascii("extmsg")) && NumberAt(s, p + 16, 4, 0xffff_ffff) && ZeroAt(s, p + 20, 4)
  }

  // What the readers see in the twenty-four bytes at p: network, command without its
  // padding, length and checksum, except that the announcement loses its command.
  lemma HeaderOnTheWire(s: bytes, p: nat)
    requires p + 24 <= |s|
    ensures var h := FT.HeaderAt(s, p);
            && NumberAt(s, p, 4, h.magic) && NumberAt(s, p + 16, 4, h.length) && Has(s, p + 20, h.checksum)
            && (Announcement(s, p) ==> h.command == [])
            && (!Announcement(s, p) ==>
                  CommandAt(s, p + 4, h.command) && (h.command == [] || h.command[|h.command| - 1] != 0))
  {
    hide LE, FromLE, Trim, Has, NumberAt, ZeroAt, Zeros;
    var b := s[p..p + 24];
    var c := Trim(b[4..16]);
    SameBytes(s, p, 0, 4);
    SameBytes(s, p, 4, 16);
    SameBytes(s, p, 16, 20);
    SameBytes(s, p, 20, 24);
    ReadNumber(s, p);
    ReadNumber(s, p + 16);
    PaddedIff(s, p + 4, c);
    ZerosIff(s, p + 20, 4);
    FourZeros();
    Pow256Values();
    AnnouncementIff(s, p, c);
  }

  lemma FourZeros()
    ensures Zeros(4) == [0, 0, 0, 0]
  {
  }

  lemma SameBytes(s: bytes, p: nat, i: nat, j: nat)
    requires i <= j <= 24 && p + 24 <= |s|
    ensures s[p..p + 24][i..j] == s[p + i..p + j] && Has(s, p + i, s[p + i..p + j])
  {
    var a, b := s[p..p + 24][i..j], s[p + i..p + j];
    assert |a| == |b| && forall k :: 0 <= k < |a| ==> a[k] == s[p + i + k] == b[k];
  }

  lemma ReadNumber(s: bytes, p: nat)
    requires p + 4 <= |s|
    ensures NumberAt(s, p, 4, FromLE(s[p..p + 4]))
  {
    hide NumberAt, FromLE, LE;
    LEOfFromLE(s[p..p + 4]);
    NumberIff(s, p, 4, FromLE(s[p..p + 4]));
  }

  // A number of four bytes has one value, and a padded command one name.
  lemma SameNumber(s: bytes, p: nat, v: uint32, w: uint32)
    requires NumberAt(s, p, 4, v) && NumberAt(s, p, 4, w)
    ensures v == w
  {
    hide NumberAt, LE, FromLE;
    NumberIff(s, p, 4, v);
    NumberIff(s, p, 4, w);
    Pow256Values();
    FromLEOfLE(4, v);
    FromLEOfLE(4, w);
  }

  lemma AnnouncementIff(s: bytes, p: nat, c: bytes)
    requires p + 24 <= |s| && c == Trim(s[p + 4..p + 16])
    ensures Announcement(s, p)
       <==> && c == CMD_EXTMSG && FromLE(s[p + 16..p + 20]) == NO_LENGTH && s[p + 20..p + 24] == [0, 0, 0, 0]
  {
    hide FromLE, NumberAt, Trim, Zeros, LE;
    Names(TxMessage(Tx(0, [], [], 0)));
    var n := FromLE(s[p + 16..p + 20]);
    Pow256Values();
    ReadNumber(s, p + 16);
    if NumberAt(s, p + 16, 4, NO_LENGTH) {
      SameNumber(s, p + 16, n, NO_LENGTH);
    }
    FourZeros();
    ZerosIff(s, p + 20, 4);
    PaddedIff(s, p + 4, CMD_EXTMSG);
    FT.TrimZeros(CMD_EXTMSG, 6);
    FT.TrimSame(CMD_EXTMSG);
  }

  // ---------- The writer ----------

  // Network, command, length, the first four bytes of the double hash, payload.
  ghost predicate FrameAt(env: Env, s: bytes, p: nat, net: uint32, c: bytes, payload: bytes) {
    && NumberAt(s, p, 4, net) && CommandAt(s, p + 4, c) && NumberAt(s, p + 16, 4, |payload|)
    && Has(s, p + 20, env.sha(env.sha(payload))[..4]) && Has(s, p + 24, payload)
  }

  // What the writer puts on the wire for a message it accepts, of at most 2^32 - 1 bytes.
  lemma FrameOnTheWire(env: Env, pver: uint32, net: uint32, m: Message)
    requires WriteFrame(env, pver, net, m).Wrote?
    ensures EncPayload(env, pver, m).Wrote?
    ensures var b, f := EncPayload(env, pver, m).out, WriteFrame(env, pver, net, m).out;
            && (|b| <= 0xffff_ffff ==> |f| == 24 + |b| && FrameAt(env, f, 0, net, Name(m), b))
            && (|b| > 0xffff_ffff ==> f == [])
  {
    hide LE, Has, NumberAt, ZeroAt, Zeros, EncPayload, MaxMessagePayload, MaxPayload, Name, Command;
    Names(m);
    var b, f, c := EncPayload(env, pver, m).out, WriteFrame(env, pver, net, m).out, Command(m);
    if |b| <= 0xffff_ffff {
      var sum := env.sha(env.sha(b))[..4];
      var rest := (c + Zeros(12 - |c|)) + (LE(4, |b|) + (sum + b));
      assert f == LE(4, net) + rest;
      HasWhole([], f, []);
      assert [] + f + [] == f;
      HasConcat(f, 0, LE(4, net), rest);
      HasConcat(f, 4, c + Zeros(12 - |c|), LE(4, |b|) + (sum + b));
      HasConcat(f, 16, LE(4, |b|), sum + b);
      HasConcat(f, 20, sum, b);
      NumberIff(f, 0, 4, net);
      PaddedIff(f, 4, c);
      NumberIff(f, 16, 4, |b|);
    }
  }

  // ---------- The readers ----------

  // The most bytes a payload may have: in general, and for its type.
  function GeneralLimit(env: Env): nat { R.MessageCap(env.ebs) }

  predicate Known(c: bytes) { c == Ascii("tx") || c == Ascii("exttx") || c == Ascii("block") || c == Ascii("version") }

  function LimitOfType(env: Env, c: bytes, pver: uint32): nat {
    if c == Ascii("version") then (if pver >= 31402 then 496 else 488)
    else if Known(c) then env.ebs
    else env.otherMax(c, pver)
  }

  // The payload ends at the end of the stream if that comes first.
  function PayloadEnd(s: bytes, p: nat, h: Header): nat {
    if p + 24 + h.length <= |s| then p + 24 + h.length else |s|
  }

  lemma LimitsAre(env: Env, c: bytes, pver: uint32)
    ensures MaxMessagePayload(env.ebs) == GeneralLimit(env)
    ensures Modelled(c) == Known(c) && (c == CMD_VERSION <==> c == Ascii("version"))
    ensures MaxPayload(env, c, pver) == LimitOfType(env, c, pver)
  {
    hide Ascii;
    Names(TxMessage(Tx(0, [], [], 0)));
    Names(ExtTxMessage(ExtTx(0, [], [], 0)));
    Names(BlockMessage(Block(BlockHeader(0, Zeros(32), Zeros(32), 0, 0, 0), [])));
    Names(VersionMessage(EMPTY_VERSION));
  }

  // Everything that must hold of a header before the payload is looked at.
  predicate HeaderGood(env: Env, pver: uint32, net: uint32, streaming: bool, h: Header) {
    && h.length <= GeneralLimit(env) && h.magic == net && env.utf8(h.command)
    && !(streaming && h.command == Ascii("version")) && (Known(h.command) || env.handles(h.command))
    && h.length <= LimitOfType(env, h.command, pver)
  }

  // A stream that ends inside the header.
  lemma ShortHeaderVerdict(env: Env, pver: uint32, net: uint32, streaming: bool, s: bytes, p: nat)
    requires p <= |s| < p + 24
    ensures FT.ReadOne(env, pver, net, streaming, s, p)
         == Refused(if p == |s| then Eof else UnexpectedEof, |s| - p, |s|)
  {
    hide ParseHeader, Screen, TakePayload;
  }

  // Which headers are refused, by either reader: with which error, with a count of 24 in
  // every case, and with the payload skipped in every case but the first.
  lemma HeaderVerdicts(env: Env, pver: uint32, net: uint32, streaming: bool, s: bytes, p: nat)
    requires p + 24 <= |s|
    ensures var r, h := FT.ReadOne(env, pver, net, streaming, s, p), FT.HeaderAt(s, p);
            var fits := h.length <= GeneralLimit(env);
            var ours := fits && h.magic == net;
            var text := ours && env.utf8(h.command);
            var open := text && !(streaming && h.command == Ascii("version"));
            var handled := open && (Known(h.command) || env.handles(h.command));
            && (!fits ==> r == Refused(PayloadTooLarge, 24, p + 24))
            && (fits && h.magic != net ==> r == Refused(OtherNetwork, 24, PayloadEnd(s, p, h)))
            && (ours && !env.utf8(h.command) ==> r == Refused(InvalidCommand, 24, PayloadEnd(s, p, h)))
            && (text && streaming && h.command == Ascii("version") ==>
                  r == Refused(VersionNotStreamable, 24, PayloadEnd(s, p, h)))
            && (open && !(Known(h.command) || env.handles(h.command)) ==>
                  r == Refused(UnhandledCommand, 24, PayloadEnd(s, p, h)))
            && (handled && h.length > LimitOfType(env, h.command, pver) ==>
                  r == Refused(TypePayloadTooLarge, 24, PayloadEnd(s, p, h)))
  {
    hide ParseHeader, TakePayload, Checksum, MaxMessagePayload, MaxPayload, GeneralLimit, LimitOfType, Known, Ascii;
    hide Modelled;
    LimitsAre(env, FT.HeaderAt(s, p).command, pver);
  }

  // The payload length the readers go by: the announcement of an extended length, which
  // they never obtain, counts as an empty payload.
  function GoneBy(h: Header): nat { if h.length == 0xffff_ffff then 0 else h.length }

  // Which frames the buffered reader returns, and what it makes of every other one whose
  // header is good: the payload must be there, carry its own double hash, and decode.
  lemma BufferedVerdicts(env: Env, pver: uint32, net: uint32, s: bytes, p: nat)
    requires p + 24 <= |s| && HeaderGood(env, pver, net, false, FT.HeaderAt(s, p))
    ensures var r, h := ReadBuffered(env, pver, net, s, p), FT.HeaderAt(s, p);
            var q := p + 24 + GoneBy(h);
            && (q > |s| ==> r == Refused(if p + 24 == |s| then Eof else UnexpectedEof, |s| - p, |s|))
            && (q <= |s| ==>
                  var b := s[p + 24..q];
                  var m := TakePayload(env, pver, h.command, b, 0);
                  && (!Has(s, p + 20, env.sha(env.sha(b))[..4]) ==> r == Refused(BadChecksum, 24 + GoneBy(h), q))
                  && (Has(s, p + 20, env.sha(env.sha(b))[..4]) ==>
                        r == match m
                             case Ok(v, _) => Got(v, 24 + GoneBy(h), q)
                             case Fail(e, _) => Refused(e, 24 + GoneBy(h), q)))
  {
    hide ParseHeader, TakePayload, MaxMessagePayload, MaxPayload, GeneralLimit, LimitOfType, Known, Ascii, Modelled;
    var h := FT.HeaderAt(s, p);
    LimitsAre(env, h.command, pver);
    ChecksumBytes(s, p);
  }

  lemma ChecksumBytes(s: bytes, p: nat)
    requires p + 24 <= |s|
    ensures FT.HeaderAt(s, p).checksum == s[p + 20..p + 24]
  {
    hide Trim, FromLE;
    SameBytes(s, p, 20, 24);
  }

  // The same for the streaming reader: it decodes first, then sums all of the payload that
  // is there, and reports the declared length even if less was there.
  lemma StreamingVerdicts(env: Env, pver: uint32, net: uint32, s: bytes, p: nat)
    requires p + 24 <= |s| && HeaderGood(env, pver, net, true, FT.HeaderAt(s, p))
    ensures var r, h := ReadStreaming(env, pver, net, s, p), FT.HeaderAt(s, p);
            var q := if p + 24 + GoneBy(h) <= |s| then p + 24 + GoneBy(h) else |s|;
            var m := TakePayload(env, pver, h.command, s[..q], p + 24);
            match m
            case Fail(e, t) => r == Refused(e, t - p, q)
            case Ok(v, _) =>
              if Has(s, p + 20, env.sha(env.sha(s[p + 24..q]))[..4]) then r == Got(v, 24 + GoneBy(h), q)
              else r == Refused(BadChecksum, 24 + GoneBy(h), q)
  {
    hide ParseHeader, TakePayload, MaxMessagePayload, MaxPayload, GeneralLimit, LimitOfType, Known, Ascii, Modelled;
    var h := FT.HeaderAt(s, p);
    LimitsAre(env, h.command, pver);
    ChecksumBytes(s, p);
    var q := if p + 24 + GoneBy(h) <= |s| then p + 24 + GoneBy(h) else |s|;
    assert s[..q][p + 24..] == s[p + 24..q];
  }

  // Whatever either reader returns stood on the wire as a frame of this network, with a
  // command it handles, within the limits, and with its double hash.
  lemma OnlyGoodFrames(env: Env, pver: uint32, net: uint32, streaming: bool, s: bytes, p: nat)
    requires p <= |s| && FT.ReadOne(env, pver, net, streaming, s, p).Got?
    ensures p + 24 <= |s| && HeaderGood(env, pver, net, streaming, FT.HeaderAt(s, p))
    ensures var next := FT.ReadOne(env, pver, net, streaming, s, p).next;
            && NumberAt(s, p, 4, net)
            && p + 24 <= next <= |s| && Has(s, p + 20, env.sha(env.sha(s[p + 24..next]))[..4])
  {
    hide ParseHeader, TakePayload, MaxMessagePayload, MaxPayload, GeneralLimit, LimitOfType, Known, Ascii, Modelled;
    hide NumberAt, Has;
    if p + 24 <= |s| {
      HeaderVerdicts(env, pver, net, streaming, s, p);
      HeaderOnTheWire(s, p);
      if streaming {
        StreamingVerdicts(env, pver, net, s, p);
      } else {
        BufferedVerdicts(env, pver, net, s, p);
      }
    }
  }

  // ---------- What an error tells ----------

  predicate DecodeError(e: Error) {
    R.TxError(e) || e == BadExtendedMarker || e == TooManyTransactions || R.VersionError(e)
  }

  lemma PayloadErrors(env: Env, pver: uint32, c: bytes, s: bytes, p: nat)
    requires p <= |s| && Known(c)
    ensures TakePayload(env, pver, c, s, p).Fail? ==> DecodeError(TakePayload(env, pver, c, s, p).err)
  {
    hide TakeTx, TakeExtTx, TakeBlock, TakeVersion, Ascii, Known, R.TxError, R.VersionError, MaxPayload, LimitOfType;
    LimitsAre(env, c, pver);
    R.TxErrors(env.ebs, s, p);
    R.ExtTxErrors(env.ebs, s, p);
    R.BlockErrors(env.ebs, s, p);
    R.VersionErrors(env.ebs, s, p, EMPTY_VERSION);
  }

  // For every command with a codec of its own, either reader gives each framing error for
  // exactly one reason.
  lemma ErrorsTellWhy(env: Env, pver: uint32, net: uint32, streaming: bool, s: bytes, p: nat)
    requires p + 24 <= |s| && Known(FT.HeaderAt(s, p).command)
    ensures var r, h := FT.ReadOne(env, pver, net, streaming, s, p), FT.HeaderAt(s, p);
            var fits := h.length <= GeneralLimit(env);
            var text := fits && h.magic == net && env.utf8(h.command);
            var barred := streaming && h.command == Ascii("version");
            && (r.Refused? && r.err == PayloadTooLarge <==> !fits)
            && (r.Refused? && r.err == OtherNetwork <==> fits && h.magic != net)
            && (r.Refused? && r.err == InvalidCommand <==> fits && h.magic == net && !env.utf8(h.command))
            && (r.Refused? && r.err == VersionNotStreamable <==> text && barred)
            && (r.Refused? && r.err == TypePayloadTooLarge
                <==> text && !barred && h.length > LimitOfType(env, h.command, pver))
            && !(r.Refused? && r.err == UnhandledCommand)
            && (r.Refused? && r.err == BadChecksum ==> HeaderGood(env, pver, net, streaming, h))
  {
    hide ParseHeader, TakePayload, Checksum, MaxMessagePayload, MaxPayload, GeneralLimit, LimitOfType, Known, Ascii;
    hide Modelled, R.TxError, R.VersionError, DecodeError;
    var h := FT.HeaderAt(s, p);
    HeaderVerdicts(env, pver, net, streaming, s, p);
    LimitsAre(env, h.command, pver);
    if HeaderGood(env, pver, net, streaming, h) {
      GoodHeaderErrors(env, pver, net, streaming, s, p);
    }
  }

  predicate FramingError(e: Error) {
    || e == PayloadTooLarge || e == OtherNetwork || e == InvalidCommand || e == VersionNotStreamable
    || e == TypePayloadTooLarge || e == UnhandledCommand
  }

  lemma GoodHeaderErrors(env: Env, pver: uint32, net: uint32, streaming: bool, s: bytes, p: nat)
    requires p + 24 <= |s| && HeaderGood(env, pver, net, streaming, FT.HeaderAt(s, p))
    requires Known(FT.HeaderAt(s, p).command)
    ensures var r := FT.ReadOne(env, pver, net, streaming, s, p); r.Refused? ==> !FramingError(r.err)
  {
    hide ParseHeader, TakePayload, Checksum, MaxMessagePayload, MaxPayload, GeneralLimit, LimitOfType, Known, Ascii;
    hide Modelled;
    var h := FT.HeaderAt(s, p);
    var q := p + 24;
    LimitsAre(env, h.command, pver);
    if streaming {
      PayloadErrors(env, pver, h.command, s[..Skip(s, q, EffectiveLength(h))], q);
    } else if TakeN(s, q, EffectiveLength(h)).Ok? {
      PayloadErrors(env, pver, h.command, TakeN(s, q, EffectiveLength(h)).value, 0);
    }
  }
}
