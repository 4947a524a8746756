/**
 The framing layer as functions of the byte stream (message.go): what the writer
 writes, what the buffered and the streaming reader return, how many bytes they
 report and where they leave the stream.
 */
module Frames {
  import opened Bytes
  import opened Parsing
  import opened Limits
  import opened Transactions
  import opened ExtendedTransactions
  import opened Blocks
  import opened Versions

  const HEADER_SIZE := 24
  const NO_LENGTH: uint32 := 0xffff_ffff // announces an extended length

  const CMD_TX: bytes := [0x74, 0x78]
  const CMD_EXTTX: bytes := [0x65, 0x78, 0x74, 0x74, 0x78]
  const CMD_BLOCK: bytes := [0x62, 0x6c, 0x6f, 0x63, 0x6b]
  const CMD_VERSION: bytes := [0x76, 0x65, 0x72, 0x73, 0x69, 0x6f, 0x6e]
  const CMD_EXTMSG: bytes := [0x65, 0x78, 0x74, 0x6d, 0x73, 0x67]

  // Message types without a codec of their own here are opaque contents.
  datatype Message =
    | TxMessage(tx: Tx)
    | ExtTxMessage(ext: ExtTx)
    | BlockMessage(block: Block)
    | VersionMessage(version: Version)
    | OtherMessage(command: bytes, content: bytes)

  /** What the layer depends on and does not define: the excessive block size, SHA-256,
      UTF-8 validity, and the other message types with their limits and codecs. */
  datatype Env = Env(
    ebs: uint64,
    sha: bytes -> Hash,
    utf8: bytes -> bool,
    handles: bytes -> bool,
    otherMax: (bytes, uint32) -> nat,
    otherDecode: (bytes, uint32, bytes) -> Parsed<bytes>,
    otherEncode: (bytes, uint32, bytes) -> bytes)

  function Checksum(env: Env, payload: bytes): (c: bytes)
    ensures |c| == 4
  {
    env.sha(env.sha(payload))[..4]
  }

  predicate Modelled(command: bytes) {
    command == CMD_TX || command == CMD_EXTTX || command == CMD_BLOCK || command == CMD_VERSION
  }

  // makeEmptyMessage knows the command.
  predicate Handled(env: Env, command: bytes) { Modelled(command) || env.handles(command) }

  function MaxPayload(env: Env, command: bytes, pver: uint32): nat {
    if command == CMD_VERSION then MaxPayloadLength(pver)
    else if Modelled(command) then MaxBlockPayload(env.ebs)
    else env.otherMax(command, pver)
  }

  // ---------- Header ----------

  datatype Header = Header(magic: uint32, command: bytes, length: uint32, checksum: bytes)

  // bytes.TrimRight of zero bytes.
  function Trim(b: bytes): (r: bytes)
    ensures |r| <= |b| && b == r + Zeros(|b| - |r|)
    ensures r == [] || r[|r| - 1] != 0
  {
    if b != [] && b[|b| - 1] == 0 then
      var r := Trim(b[..|b| - 1]);
      assert Zeros(|b| - |r|) == Zeros(|b| - 1 - |r|) + [0];
      r
    else b
  }

  function Pad(command: bytes): (r: bytes)
    requires |command| <= 12
    ensures |r| == 12
  {
    command + Zeros(12 - |command|)
  }

  // For the extended announcement the real command and length are read from the
  // exhausted header buffer, so the command becomes empty and the length stays zero.
  function ParseHeader(b: bytes): Header
    requires |b| == HEADER_SIZE
  {
    Pow256Values();
    var command := Trim(b[4..16]);
    var length: uint32 := FromLE(b[16..20]);
    var checksum := b[20..24];
    var extended := command == CMD_EXTMSG && length == NO_LENGTH && checksum == [0, 0, 0, 0];
    Header(FromLE(b[0..4]), if extended then [] else command, length, checksum)
  }

  function EncFrameHeader(magic: uint32, command: bytes, length: uint32, checksum: bytes): bytes
    requires |command| <= 12
  {
    LE(4, magic) + Pad(command) + LE(4, length) + checksum
  }

  // The payload length both readers go by once a header is accepted: the extended
  // length, always zero, stands in for the announcement.
  function EffectiveLength(h: Header): nat { if h.length == NO_LENGTH then 0 else h.length }

  // ---------- Payloads ----------

  function AsMessage<T>(r: Parsed<T>, f: T -> Message): Parsed<Message> {
    match r
    case Ok(v, n) => Ok(f(v), n)
    case Fail(e, n) => Fail(e, n)
  }

  // A decoder outside the model may consume any part of what it is given.
  function TakeOther(env: Env, pver: uint32, command: bytes, s: bytes, p: nat): (r: Parsed<Message>)
    requires p <= |s|
    ensures Bounded(r, s, p)
  {
    var rest := s[p..];
    var d := env.otherDecode(command, pver, rest);
    var used := if d.next <= |rest| then d.next else |rest|;
    match d
    case Ok(c, _) => Ok(OtherMessage(command, c), p + used)
    case Fail(e, _) => Fail(e, p + used)
  }

  // Bsvdecode of the message type, from position p of s.
  function TakePayload(env: Env, pver: uint32, command: bytes, s: bytes, p: nat): (r: Parsed<Message>)
    requires p <= |s|
    ensures Bounded(r, s, p)
  {
    if command == CMD_TX then AsMessage(TakeTx(env.ebs, s, p), t => TxMessage(t))
    else if command == CMD_EXTTX then AsMessage(TakeExtTx(env.ebs, s, p), t => ExtTxMessage(t))
    else if command == CMD_BLOCK then AsMessage(TakeBlock(env.ebs, s, p), b => BlockMessage(b))
    else if command == CMD_VERSION then AsMessage(TakeVersion(env.ebs, s, p, EMPTY_VERSION), v => VersionMessage(v))
    else TakeOther(env, pver, command, s, p)
  }

  // ---------- Readers ----------

  // count is the reported number of bytes, next the position the stream is left at.
  datatype Read =
    | Got(msg: Message, count: nat, next: nat)
    | Refused(err: Error, count: nat, next: nat)
  {
    function Shift(a: nat): Read {
      match this
      case Got(m, c, n) => Got(m, c, a + n)
      case Refused(e, c, n) => Refused(e, c, a + n)
    }
  }

  // The checks between header and payload.
  datatype Screening = Pass | Oversize | Reject(err: Error)

  function Screen(env: Env, pver: uint32, net: uint32, h: Header, streaming: bool): Screening {
    if h.length > MaxMessagePayload(env.ebs) then Oversize
    else if h.magic != net then Reject(OtherNetwork)
    else if !env.utf8(h.command) then Reject(InvalidCommand)
    else if streaming && h.command == CMD_VERSION then Reject(VersionNotStreamable)
    else if !Handled(env, h.command) then Reject(UnhandledCommand)
    else if h.length > MaxPayload(env, h.command, pver) then Reject(TypePayloadTooLarge)
    else Pass
  }

  // Skipping n bytes ends early at the end of the stream.
  function Skip(s: bytes, p: nat, n: nat): nat { if p + n <= |s| then p + n else |s| }

  // An oversize header is refused where it ends; other refusals skip the payload.
  function Refuse(s: bytes, p: nat, h: Header, c: Screening): Read
    requires !c.Pass? && p + HEADER_SIZE <= |s|
  {
    if c.Oversize? then Refused(PayloadTooLarge, HEADER_SIZE, p + HEADER_SIZE)
    else Refused(c.err, HEADER_SIZE, Skip(s, p + HEADER_SIZE, h.length))
  }

  function ReadBuffered(env: Env, pver: uint32, net: uint32, s: bytes, p: nat): (r: Read)
    requires p <= |s|
    ensures p <= r.next <= |s|
  {
    match TakeN(s, p, HEADER_SIZE)
    case Fail(e, q) => Refused(e, q - p, q)
    case Ok(b, q) =>
      var h := ParseHeader(b);
      var c := Screen(env, pver, net, h, false);
      if !c.Pass? then Refuse(s, p, h, c) else
      match TakeN(s, q, EffectiveLength(h))
      case Fail(e, t) => Refused(e, t - p, t)
      case Ok(payload, t) =>
        if Checksum(env, payload) != h.checksum then Refused(BadChecksum, t - p, t) else
        match TakePayload(env, pver, h.command, payload, 0)
        case Fail(e, _) => Refused(e, t - p, t)
        case Ok(m, _) => Got(m, t - p, t)
  }

  function ReadStreaming(env: Env, pver: uint32, net: uint32, s: bytes, p: nat): (r: Read)
    requires p <= |s|
    ensures p <= r.next <= |s|
  {
    match TakeN(s, p, HEADER_SIZE)
    case Fail(e, q) => Refused(e, q - p, q)
    case Ok(b, q) =>
      var h := ParseHeader(b);
      var c := Screen(env, pver, net, h, true);
      if !c.Pass? then Refuse(s, p, h, c) else
      var view := s[..Skip(s, q, EffectiveLength(h))];
      match TakePayload(env, pver, h.command, view, q)
      case Fail(e, t) => Refused(e, t - p, |view|)
      case Ok(m, _) =>
        // The reported count is the declared length, whatever was there.
        var count := HEADER_SIZE + EffectiveLength(h);
        if Checksum(env, view[q..]) != h.checksum then Refused(BadChecksum, count, |view|)
        else Got(m, count, |view|)
  }

  // ---------- Writer ----------

  function Command(m: Message): bytes {
    match m
    case TxMessage(_) => CMD_TX
    case ExtTxMessage(_) => CMD_EXTTX
    case BlockMessage(_) => CMD_BLOCK
    case VersionMessage(_) => CMD_VERSION
    case OtherMessage(c, _) => c
  }

  datatype Written = Wrote(out: bytes) | NotWritten(err: Error)

  function EncPayload(env: Env, pver: uint32, m: Message): Written {
    match m
    case TxMessage(t) => Wrote(EncTx(t))
    case ExtTxMessage(t) => Wrote(EncExtTx(t))
    case BlockMessage(b) => Wrote(EncBlock(b))
    case VersionMessage(v) =>
      if |v.userAgent| > MAX_USER_AGENT_LEN then NotWritten(UserAgentTooLong) else Wrote(EncVersion(pver, v))
    case OtherMessage(c, content) => Wrote(env.otherEncode(c, pver, content))
  }

  // A payload over 32 bits passes every check and is then dropped: nothing is
  // written and no error is returned.
  function WriteFrame(env: Env, pver: uint32, net: uint32, m: Message): Written {
    var command := Command(m);
    if |command| > 12 then NotWritten(CommandTooLong) else
    match EncPayload(env, pver, m)
    case NotWritten(e) => NotWritten(e)
    case Wrote(payload) =>
      if |payload| > AsInt64(MaxMessagePayload(env.ebs)) then NotWritten(PayloadTooLarge)
      else if |payload| > MaxPayload(env, command, pver) then NotWritten(TypePayloadTooLarge)
      else if |payload| > 0xffff_ffff then Wrote([])
      else Wrote(EncFrameHeader(net, command, |payload|, Checksum(env, payload)) + payload)
  }
}
