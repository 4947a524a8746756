/**
 The version message (msg_version.go, net_address.go). Everything after the address
 of the receiving peer is optional on the wire: a field is present exactly when
 bytes are left.
 */
module Versions {
  import opened Bytes
  import opened Parsing
  import opened VarInts
  import opened Repetition
  import opened Limits

  const MAX_USER_AGENT_LEN := 256
  const MAX_ASSOCIATION_ID_LEN := 129
  const NET_ADDRESS_TIME_VERSION := 31402
  const BIP0037_VERSION := 70001

  // The version message carries addresses without their timestamps.
  datatype NetAddress = NetAddress(services: uint64, ip: bytes, port: uint16)

  datatype Version = Version(
    protocolVersion: int32, services: uint64, timestamp: int64, addrYou: NetAddress,
    addrMe: NetAddress, nonce: uint64, userAgent: bytes, lastBlock: int32,
    disableRelayTx: bool, associationID: bytes)

  const NO_ADDRESS := NetAddress(0, [], 0)
  const EMPTY_VERSION := Version(0, 0, 0, NO_ADDRESS, NO_ADDRESS, 0, [], 0, false, [])

  // ---------- Network addresses ----------

  // net.IP.To16 copied over sixteen zero bytes: a 4-byte address is mapped, a nil or
  // malformed one leaves the zeros.
  function To16(ip: bytes): (r: bytes)
    ensures |r| == 16
    ensures |ip| == 16 ==> r == ip
  {
    if |ip| == 16 then ip
    else if |ip| == 4 then Zeros(10) + [0xff, 0xff] + ip
    else Zeros(16)
  }

  function BE16(v: uint16): bytes { [v / 256, v % 256] }

  function FromBE16(b: bytes): uint16
    requires |b| == 2
  {
    var high: int, low: int := b[0], b[1];
    256 * high + low
  }

  function EncAddress(a: NetAddress): (r: bytes)
    ensures |r| == 26
  {
    LE(8, a.services) + (To16(a.ip) + BE16(a.port))
  }

  function TakeAddress(s: bytes, p: nat): (r: Parsed<NetAddress>)
    ensures Bounded(r, s, p)
  {
    match TakeU64(s, p)
    case Fail(e, q) => Fail(e, q)
    case Ok(v, q) =>
      match TakeN(s, q, 16)
      case Fail(e, t) => Fail(e, t)
      case Ok(ip, t) =>
        match TakeN(s, t, 2)
        case Fail(e, u) => Fail(e, u)
        case Ok(b, u) => Ok(NetAddress(v, ip, FromBE16(b)), u)
  }

  predicate Has16(a: NetAddress) { |a.ip| == 16 }

  function Normal16(a: NetAddress): NetAddress { a.(ip := To16(a.ip)) }

  lemma TakeAddressSound(s: bytes, p: nat)
    requires p <= |s|
    requires TakeAddress(s, p).Ok?
    ensures var Ok(a, q) := TakeAddress(s, p);
            Has16(a) && Has(s, p, EncAddress(a)) && q == p + 26
  {
    hide Has, LE, TakeU64, TakeN;
    var Ok(a, u) := TakeAddress(s, p);
    var Ok(v, q) := TakeU64(s, p);
    var Ok(ip, t) := TakeN(s, q, 16);
    var Ok(b, _) := TakeN(s, t, 2);
    TakeU64Iff(s, p, v, q);
    TakeNIff(s, q, 16, ip, t);
    TakeNIff(s, t, 2, b, u);
    assert BE16(a.port) == b;
    HasConcat(s, q, ip, b);
    HasConcat(s, p, LE(8, v), ip + b);
  }

  lemma TakeAddressComplete(s: bytes, p: nat, a: NetAddress)
    requires Has16(a)
    requires Has(s, p, EncAddress(a))
    ensures TakeAddress(s, p) == Ok(a, p + 26)
  {
    hide Has, LE, TakeU64, TakeN;
    HasWithin(s, p, EncAddress(a));
    HasConcat(s, p, LE(8, a.services), a.ip + BE16(a.port));
    HasConcat(s, p + 8, a.ip, BE16(a.port));
    TakeU64Iff(s, p, a.services, p + 8);
    TakeNIff(s, p + 8, 16, a.ip, p + 24);
    TakeNIff(s, p + 24, 2, BE16(a.port), p + 26);
  }

  function MaxNetAddressPayload(pver: uint32): nat {
    if pver >= NET_ADDRESS_TIME_VERSION then 30 else 26
  }

  // With a timestamp, in whole seconds, if the caller asks and the protocol version has it.
  predicate Stamped(pver: uint32, ts: bool) { ts && pver >= NET_ADDRESS_TIME_VERSION }

  // The timestamp is cut to 32 bits.
  function EncStamp(pver: uint32, ts: bool, stamp: int64): bytes {
    if Stamped(pver, ts) then LE(4, stamp % TWO32) else []
  }

  function EncNetAddress(pver: uint32, ts: bool, stamp: int64, a: NetAddress): (r: bytes)
    ensures |r| <= MaxNetAddressPayload(pver) && (ts ==> |r| == MaxNetAddressPayload(pver))
  {
    EncStamp(pver, ts, stamp) + EncAddress(a)
  }

  // was is the timestamp the receiver held before.
  function TakeNetAddress(pver: uint32, ts: bool, s: bytes, p: nat, was: int64): (r: Parsed<(int64, NetAddress)>)
    ensures Bounded(r, s, p)
  {
    if Stamped(pver, ts) then
      match TakeU32(s, p)
      case Fail(e, q) => Fail(e, q)
      case Ok(t, q) =>
        match TakeAddress(s, q)
        case Fail(e, u) => Fail(e, u)
        case Ok(a, u) => Ok((t, a), u)
    else
      match TakeAddress(s, p)
      case Fail(e, u) => Fail(e, u)
      case Ok(a, u) => Ok((was, a), u)
  }

  // An address is read from exactly the bytes it is written as, in its 16-byte form.
  lemma TakeNetAddressSound(pver: uint32, ts: bool, s: bytes, p: nat, was: int64)
    requires p <= |s| && TakeNetAddress(pver, ts, s, p, was).Ok?
    ensures var Ok((t, a), q) := TakeNetAddress(pver, ts, s, p, was);
            && Has16(a) && (if Stamped(pver, ts) then 0 <= t < TWO32 else t == was)
            && Has(s, p, EncNetAddress(pver, ts, t, a)) && q == p + |EncNetAddress(pver, ts, t, a)|
  {
    hide Has, LE, TakeU32, TakeAddress, EncAddress;
    var Ok((t, a), u) := TakeNetAddress(pver, ts, s, p, was);
    var q := if Stamped(pver, ts) then p + 4 else p;
    if Stamped(pver, ts) {
      TakeU32Iff(s, p, t, p + 4);
      HasConcat(s, p, LE(4, t), EncAddress(a));
    }
    TakeAddressSound(s, q);
    assert [] + EncAddress(a) == EncAddress(a);
  }

  // A written address comes back with its timestamp exactly when that is on the wire and
  // fits 32 bits, or is what the receiver held already.
  lemma NetAddressRoundTrip(pver: uint32, ts: bool, stamp: int64, a: NetAddress, s: bytes, p: nat, was: int64)
    requires Has(s, p, EncNetAddress(pver, ts, stamp, a))
    ensures var r := TakeNetAddress(pver, ts, s, p, was);
            && r.Ok? && r.value.1 == Normal16(a) && r.next == p + |EncNetAddress(pver, ts, stamp, a)|
            && (r.value.0 == stamp <==> if Stamped(pver, ts) then 0 <= stamp < TWO32 else was == stamp)
  {
    hide Has, LE, TakeU32, TakeAddress, EncAddress, To16;
    HasConcat(s, p, EncStamp(pver, ts, stamp), EncAddress(a));
    HasWithin(s, p, EncNetAddress(pver, ts, stamp, a));
    var q := p + |EncStamp(pver, ts, stamp)|;
    SameAddress(a);
    if Stamped(pver, ts) {
      TakeU32Iff(s, p, stamp % TWO32, q);
    }
    TakeAddressComplete(s, q, Normal16(a));
  }

  lemma SameAddress(a: NetAddress)
    ensures EncAddress(a) == EncAddress(Normal16(a)) && Has16(Normal16(a))
  {
  }

  // ---------- Printer ----------

  function EncRelay(pver: uint32, v: Version): bytes {
    if pver >= BIP0037_VERSION then [if v.disableRelayTx then 0x00 else 0x01] else []
  }

  function EncAssociation(v: Version): bytes {
    if |v.associationID| > 0 then EncVarBytes(v.associationID) else []
  }

  // The fixed part: protocol version, services, timestamp, address of the peer.
  function EncFixed(v: Version): (r: bytes)
    ensures |r| == 46
  {
    LE(4, AsUint32(v.protocolVersion)) + (LE(8, v.services) + (LE(8, AsUint64(v.timestamp)) + EncAddress(v.addrYou)))
  }

  // The parts that follow one another after the fixed part.
  function EncFromRelay(pver: uint32, v: Version): bytes { EncRelay(pver, v) + EncAssociation(v) }

  function EncFromLastBlock(pver: uint32, v: Version): bytes {
    LE(4, AsUint32(v.lastBlock)) + EncFromRelay(pver, v)
  }

  function EncFromUserAgent(pver: uint32, v: Version): bytes {
    EncVarBytes(v.userAgent) + EncFromLastBlock(pver, v)
  }

  function EncFromNonce(pver: uint32, v: Version): bytes { LE(8, v.nonce) + EncFromUserAgent(pver, v) }

  function EncFromAddrMe(pver: uint32, v: Version): bytes { EncAddress(v.addrMe) + EncFromNonce(pver, v) }

  // What BsvEncode writes once it has accepted the user agent.
  function EncVersion(pver: uint32, v: Version): bytes { EncFixed(v) + EncFromAddrMe(pver, v) }

  // ---------- Parser ----------
  // Each step reads one field into the message if bytes are left, and goes on.

  function TakeAssociation(s: bytes, p: nat, v: Version): (r: Parsed<Version>)
    ensures Bounded(r, s, p)
  {
    if p >= |s| then Ok(v, p) else
    match TakeVarBytes(s, p, MAX_ASSOCIATION_ID_LEN, BytesTooLong)
    case Fail(e, q) => Fail(e, q)
    case Ok(b, q) => Ok(v.(associationID := b), q)
  }

  // Any non-zero byte means relay.
  function TakeRelay(s: bytes, p: nat, v: Version): (r: Parsed<Version>)
    ensures Bounded(r, s, p)
  {
    if p >= |s| then TakeAssociation(s, p, v)
    else TakeAssociation(s, p + 1, v.(disableRelayTx := s[p] == 0))
  }

  function TakeLastBlock(s: bytes, p: nat, v: Version): (r: Parsed<Version>)
    ensures Bounded(r, s, p)
  {
    if p >= |s| then TakeRelay(s, p, v) else
    match TakeU32(s, p)
    case Fail(e, q) => Fail(e, q)
    case Ok(b, q) => TakeRelay(s, q, v.(lastBlock := AsInt32(b)))
  }

  // The length is checked twice: against the message limit, then against its own.
  function TakeUserAgentText(ebs: uint64, s: bytes, p: nat): (r: Parsed<bytes>)
    ensures Bounded(r, s, p)
  {
    match TakeVarBytes(s, p, MaxMessagePayload(ebs), StringTooLong)
    case Fail(e, q) => Fail(e, q)
    case Ok(b, q) => if |b| > MAX_USER_AGENT_LEN then Fail(UserAgentTooLong, q) else Ok(b, q)
  }

  function TakeUserAgent(ebs: uint64, s: bytes, p: nat, v: Version): (r: Parsed<Version>)
    ensures Bounded(r, s, p)
  {
    if p >= |s| then TakeLastBlock(s, p, v) else
    match TakeUserAgentText(ebs, s, p)
    case Fail(e, q) => Fail(e, q)
    case Ok(b, q) => TakeLastBlock(s, q, v.(userAgent := b))
  }

  function TakeNonce(ebs: uint64, s: bytes, p: nat, v: Version): (r: Parsed<Version>)
    ensures Bounded(r, s, p)
  {
    if p >= |s| then TakeUserAgent(ebs, s, p, v) else
    match TakeU64(s, p)
    case Fail(e, q) => Fail(e, q)
    case Ok(n, q) => TakeUserAgent(ebs, s, q, v.(nonce := n))
  }

  function TakeAddrMe(ebs: uint64, s: bytes, p: nat, v: Version): (r: Parsed<Version>)
    ensures Bounded(r, s, p)
  {
    if p >= |s| then TakeNonce(ebs, s, p, v) else
    match TakeAddress(s, p)
    case Fail(e, q) => Fail(e, q)
    case Ok(a, q) => TakeNonce(ebs, s, q, v.(addrMe := a))
  }

  function TakeFixed(s: bytes, p: nat, v: Version): (r: Parsed<Version>)
    ensures Bounded(r, s, p)
  {
    match TakeU32(s, p)
    case Fail(e, q) => Fail(e, q)
    case Ok(pv, q) =>
      match TakeU64(s, q)
      case Fail(e, t) => Fail(e, t)
      case Ok(sv, t) =>
        match TakeU64(s, t)
        case Fail(e, u) => Fail(e, u)
        case Ok(ts, u) =>
          match TakeAddress(s, u)
          case Fail(e, w) => Fail(e, w)
          case Ok(you, w) =>
            Ok(v.(protocolVersion := AsInt32(pv), services := sv, timestamp := AsInt64(ts), addrYou := you), w)
  }

  // v is the receiver: fields that are absent keep its values.
  function TakeVersion(ebs: uint64, s: bytes, p: nat, v: Version): (r: Parsed<Version>)
    ensures Bounded(r, s, p)
  {
    match TakeFixed(s, p, v)
    case Fail(e, q) => Fail(e, q)
    case Ok(w, q) => TakeAddrMe(ebs, s, q, w)
  }

  // ---------- Prefixes of an encoding, field by field ----------
  // s ends after the first |s| - p bytes of the encoding e.

  predicate Cut(s: bytes, p: nat, e: bytes) {
    p <= |s| <= p + |e| && s[p..] == e[..|s| - p]
  }

  // Either the cut is inside the first part, or that part is whole and the cut is in the rest.
  lemma CutConcat(s: bytes, p: nat, a: bytes, b: bytes)
    requires Cut(s, p, a + b)
    ensures |s| - p < |a| ==> Cut(s, p, a)
    ensures |s| - p >= |a| ==> Has(s, p, a) && Cut(s, p + |a|, b)
  {
    var m := |s| - p;
    if m < |a| {
      assert (a + b)[..m] == a[..m];
    } else {
      assert s[p..p + |a|] == s[p..][..|a|] == (a + b)[..m][..|a|] == a;
      assert s[p + |a|..] == s[p..][|a|..] == (a + b)[..m][|a|..] == b[..m - |a|];
    }
  }

  // Where a prefix may end, counted from each field, and what the receiver then holds.

  predicate StopsAssociation(v: Version, m: nat) { m == 0 || m == |EncAssociation(v)| }

  function FillAssociation(v: Version, w: Version, m: nat): Version {
    if m == 0 then w else w.(associationID := v.associationID)
  }

  predicate StopsRelay(pver: uint32, v: Version, m: nat) {
    m == 0 || (m >= |EncRelay(pver, v)| && StopsAssociation(v, m - |EncRelay(pver, v)|))
  }

  function FillRelay(pver: uint32, v: Version, w: Version, m: nat): Version {
    var n := |EncRelay(pver, v)|;
    if m == 0 || m < n then w
    else FillAssociation(v, if n == 0 then w else w.(disableRelayTx := v.disableRelayTx), m - n)
  }

  predicate StopsLastBlock(pver: uint32, v: Version, m: nat) {
    m == 0 || (m >= 4 && StopsRelay(pver, v, m - 4))
  }

  function FillLastBlock(pver: uint32, v: Version, w: Version, m: nat): Version {
    if m < 4 then w else FillRelay(pver, v, w.(lastBlock := v.lastBlock), m - 4)
  }

  predicate StopsUserAgent(pver: uint32, v: Version, m: nat) {
    m == 0 || (m >= |EncVarBytes(v.userAgent)| && StopsLastBlock(pver, v, m - |EncVarBytes(v.userAgent)|))
  }

  function FillUserAgent(pver: uint32, v: Version, w: Version, m: nat): Version {
    var n := |EncVarBytes(v.userAgent)|;
    if m < n then w else FillLastBlock(pver, v, w.(userAgent := v.userAgent), m - n)
  }

  predicate StopsNonce(pver: uint32, v: Version, m: nat) {
    m == 0 || (m >= 8 && StopsUserAgent(pver, v, m - 8))
  }

  function FillNonce(pver: uint32, v: Version, w: Version, m: nat): Version {
    if m < 8 then w else FillUserAgent(pver, v, w.(nonce := v.nonce), m - 8)
  }

  predicate StopsAddrMe(pver: uint32, v: Version, m: nat) {
    m == 0 || (m >= 26 && StopsNonce(pver, v, m - 26))
  }

  function FillAddrMe(pver: uint32, v: Version, w: Version, m: nat): Version {
    if m < 26 then w else FillNonce(pver, v, w.(addrMe := Normal16(v.addrMe)), m - 26)
  }

  // What the decoder can take back: a short user agent and association ID, and no
  // association ID without the relay byte in front of it.
  predicate Decodable(ebs: uint64, pver: uint32, v: Version) {
    && |v.userAgent| <= 256 && |v.userAgent| <= MaxMessagePayload(ebs)
    && |v.associationID| <= 129 && (pver >= 70001 || v.associationID == [])
  }

  // Reading one field of a cut encoding: whole, or refused.

  lemma CutU32(s: bytes, p: nat, v: uint32, rest: bytes)
    requires Cut(s, p, LE(4, v) + rest)
    ensures |s| - p < 4 ==> TakeU32(s, p).Fail?
    ensures |s| - p >= 4 ==> TakeU32(s, p) == Ok(v, p + 4) && Cut(s, p + 4, rest)
  {
    hide Has, LE, TakeU32, Cut;
    CutWithin(s, p, LE(4, v) + rest);
    CutConcat(s, p, LE(4, v), rest);
    TakeU32Iff(s, p, v, p + 4);
    assert TakeU32(s, p).Ok? ==> TakeU32(s, p).next == p + 4;
  }

  lemma CutU64(s: bytes, p: nat, v: uint64, rest: bytes)
    requires Cut(s, p, LE(8, v) + rest)
    ensures |s| - p < 8 ==> TakeU64(s, p).Fail?
    ensures |s| - p >= 8 ==> TakeU64(s, p) == Ok(v, p + 8) && Cut(s, p + 8, rest)
  {
    hide Has, LE, TakeU64, Cut;
    CutWithin(s, p, LE(8, v) + rest);
    CutConcat(s, p, LE(8, v), rest);
    TakeU64Iff(s, p, v, p + 8);
    assert TakeU64(s, p).Ok? ==> TakeU64(s, p).next == p + 8;
  }

  lemma CutAddress(s: bytes, p: nat, a: NetAddress, rest: bytes)
    requires Cut(s, p, EncAddress(a) + rest)
    ensures |s| - p < 26 ==> TakeAddress(s, p).Fail?
    ensures |s| - p >= 26 ==> TakeAddress(s, p) == Ok(Normal16(a), p + 26) && Cut(s, p + 26, rest)
  {
    hide Has, TakeAddress, Cut;
    CutWithin(s, p, EncAddress(a) + rest);
    CutConcat(s, p, EncAddress(a), rest);
    assert EncAddress(a) == EncAddress(Normal16(a));
    if TakeAddress(s, p).Ok? {
      TakeAddressSound(s, p);
    }
    if |s| - p >= 26 {
      TakeAddressComplete(s, p, Normal16(a));
    }
  }

  lemma CutWithin(s: bytes, p: nat, e: bytes)
    requires Cut(s, p, e)
    ensures p <= |s| <= p + |e|
  {
  }

  function AssociationParser(): Parser<bytes> {
    (s: bytes, p: nat) => TakeVarBytes(s, p, MAX_ASSOCIATION_ID_LEN, BytesTooLong)
  }

  function UserAgentParser(ebs: uint64): Parser<bytes> { (s: bytes, p: nat) => TakeUserAgentText(ebs, s, p) }

  predicate ShortId(b: bytes) { |b| <= MAX_ASSOCIATION_ID_LEN }

  function ShortAgent(ebs: uint64): bytes -> bool {
    b => |b| <= MAX_USER_AGENT_LEN && |b| <= MaxMessagePayload(ebs)
  }

  lemma AssociationLawful()
    ensures Lawful(AssociationParser(), EncVarBytes, ShortId)
  {
    hide Has, EncVarBytes, TakeVarBytes;
    forall s, p: nat, b, q | p <= |s|
      ensures TakeVarBytes(s, p, MAX_ASSOCIATION_ID_LEN, BytesTooLong) == Ok(b, q)
         <==> ShortId(b) && Has(s, p, EncVarBytes(b)) && q == p + |EncVarBytes(b)|
    {
      TakeVarBytesIff(s, p, MAX_ASSOCIATION_ID_LEN, BytesTooLong, b, q);
    }
    LawfulFromIff(AssociationParser(), EncVarBytes, ShortId);
  }

  lemma UserAgentLawful(ebs: uint64)
    ensures Lawful(UserAgentParser(ebs), EncVarBytes, ShortAgent(ebs))
  {
    hide Has, EncVarBytes, TakeVarBytes, MaxMessagePayload;
    forall s, p: nat, b, q | p <= |s|
      ensures TakeUserAgentText(ebs, s, p) == Ok(b, q)
         <==> ShortAgent(ebs)(b) && Has(s, p, EncVarBytes(b)) && q == p + |EncVarBytes(b)|
    {
      TakeVarBytesIff(s, p, MaxMessagePayload(ebs), StringTooLong, b, q);
    }
    LawfulFromIff(UserAgentParser(ebs), EncVarBytes, ShortAgent(ebs));
  }

  lemma LawfulFromIff<T(!new)>(f: Parser<T>, e: T -> bytes, fits: T -> bool)
    requires forall s, p: nat, x, q :: p <= |s| ==>
               (f(s, p) == Ok(x, q) <==> fits(x) && Has(s, p, e(x)) && q == p + |e(x)|)
    ensures Lawful(f, e, fits)
  {
    forall s, p: nat | p <= |s| && f(s, p).Ok?
      ensures var Ok(x, q) := f(s, p); fits(x) && Has(s, p, e(x)) && q == p + |e(x)|
    {
      var Ok(x, q) := f(s, p);
      assert f(s, p) == Ok(x, q);
    }
    forall s, p: nat, x | Has(s, p, e(x)) && fits(x)
      ensures f(s, p) == Ok(x, p + |e(x)|)
    {
      assert f(s, p) == Ok(x, p + |e(x)|) <==> true;
    }
  }

  lemma CutField<T(!new)>(f: Parser<T>, e: T -> bytes, fits: T -> bool, s: bytes, p: nat, y: T, rest: bytes)
    requires Lawful(f, e, fits) && fits(y) && Cut(s, p, e(y) + rest)
    ensures |s| - p < |e(y)| ==> f(s, p).Fail?
    ensures |s| - p >= |e(y)| ==> f(s, p) == Ok(y, p + |e(y)|) && Cut(s, p + |e(y)|, rest)
  {
    CutConcat(s, p, e(y), rest);
    if |s| - p < |e(y)| {
      TruncatedFails(f, e, fits, s, p, y);
    }
  }

  // ---------- The prefix theorem, from the last field backwards ----------

  lemma AssociationPrefix(s: bytes, p: nat, v: Version, w: Version)
    requires Cut(s, p, EncAssociation(v)) && ShortId(v.associationID)
    requires w.associationID == []
    ensures TakeAssociation(s, p, w).Ok? <==> StopsAssociation(v, |s| - p)
    ensures StopsAssociation(v, |s| - p) ==> TakeAssociation(s, p, w) == Ok(FillAssociation(v, w, |s| - p), |s|)
  {
    hide Cut, TakeVarBytes, EncVarBytes;
    CutWithin(s, p, EncAssociation(v));
    if v.associationID != [] {
      AssociationLawful();
      assert EncVarBytes(v.associationID) + [] == EncVarBytes(v.associationID);
      CutField(AssociationParser(), EncVarBytes, ShortId, s, p, v.associationID, []);
    }
  }

  lemma RelayPrefix(pver: uint32, s: bytes, p: nat, v: Version, w: Version)
    requires Cut(s, p, EncFromRelay(pver, v)) && ShortId(v.associationID)
    requires pver >= BIP0037_VERSION || v.associationID == []
    requires w.associationID == []
    ensures TakeRelay(s, p, w).Ok? <==> StopsRelay(pver, v, |s| - p)
    ensures StopsRelay(pver, v, |s| - p) ==> TakeRelay(s, p, w) == Ok(FillRelay(pver, v, w, |s| - p), |s|)
  {
    hide Cut, TakeAssociation, StopsAssociation, FillAssociation, EncVarBytes;
    CutWithin(s, p, EncFromRelay(pver, v));
    if p == |s| {
      NothingLeft(s, w);
    } else if pver >= BIP0037_VERSION {
      CutByte(s, p, if v.disableRelayTx then 0x00 else 0x01, EncAssociation(v));
      AssociationPrefix(s, p + 1, v, w.(disableRelayTx := s[p] == 0));
    }
  }

  lemma CutByte(s: bytes, p: nat, b: byte, rest: bytes)
    requires Cut(s, p, [b] + rest) && p < |s|
    ensures s[p] == b && Cut(s, p + 1, rest)
  {
    CutConcat(s, p, [b], rest);
    assert s[p..p + 1][0] == s[p];
  }

  lemma LastBlockPrefix(pver: uint32, s: bytes, p: nat, v: Version, w: Version)
    requires Cut(s, p, EncFromLastBlock(pver, v)) && ShortId(v.associationID)
    requires pver >= BIP0037_VERSION || v.associationID == []
    requires w.associationID == []
    ensures TakeLastBlock(s, p, w).Ok? <==> StopsLastBlock(pver, v, |s| - p)
    ensures StopsLastBlock(pver, v, |s| - p) ==>
              TakeLastBlock(s, p, w) == Ok(FillLastBlock(pver, v, w, |s| - p), |s|)
  {
    hide Cut, LE, TakeU32, TakeRelay, EncFromRelay, StopsRelay, FillRelay;
    CutWithin(s, p, EncFromLastBlock(pver, v));
    if p == |s| {
      NothingLeft(s, w);
    } else {
      CutU32(s, p, AsUint32(v.lastBlock), EncFromRelay(pver, v));
      if |s| - p >= 4 {
        RelayPrefix(pver, s, p + 4, v, w.(lastBlock := v.lastBlock));
      }
    }
  }

  // With no bytes left every step leaves the message as it is.
  lemma NothingLeft(s: bytes, w: Version)
    ensures TakeAssociation(s, |s|, w) == TakeRelay(s, |s|, w) == TakeLastBlock(s, |s|, w) == Ok(w, |s|)
    ensures forall ebs :: TakeUserAgent(ebs, s, |s|, w) == TakeNonce(ebs, s, |s|, w) == Ok(w, |s|)
  {
  }

  lemma UserAgentPrefix(ebs: uint64, pver: uint32, s: bytes, p: nat, v: Version, w: Version)
    requires Cut(s, p, EncFromUserAgent(pver, v)) && Decodable(ebs, pver, v)
    requires w.associationID == []
    ensures TakeUserAgent(ebs, s, p, w).Ok? <==> StopsUserAgent(pver, v, |s| - p)
    ensures StopsUserAgent(pver, v, |s| - p) ==>
              TakeUserAgent(ebs, s, p, w) == Ok(FillUserAgent(pver, v, w, |s| - p), |s|)
  {
    hide Cut, EncVarBytes, TakeUserAgentText, TakeLastBlock, EncFromLastBlock, StopsLastBlock, FillLastBlock;
    CutWithin(s, p, EncFromUserAgent(pver, v));
    if p == |s| {
      NothingLeft(s, w);
    } else {
      UserAgentLawful(ebs);
      CutField(UserAgentParser(ebs), EncVarBytes, ShortAgent(ebs), s, p, v.userAgent, EncFromLastBlock(pver, v));
      var n := |EncVarBytes(v.userAgent)|;
      if |s| - p >= n {
        LastBlockPrefix(pver, s, p + n, v, w.(userAgent := v.userAgent));
      }
    }
  }

  lemma NoncePrefix(ebs: uint64, pver: uint32, s: bytes, p: nat, v: Version, w: Version)
    requires Cut(s, p, EncFromNonce(pver, v)) && Decodable(ebs, pver, v)
    requires w.associationID == []
    ensures TakeNonce(ebs, s, p, w).Ok? <==> StopsNonce(pver, v, |s| - p)
    ensures StopsNonce(pver, v, |s| - p) ==>
              TakeNonce(ebs, s, p, w) == Ok(FillNonce(pver, v, w, |s| - p), |s|)
  {
    hide Cut, LE, TakeU64, TakeUserAgent, EncFromUserAgent, StopsUserAgent, FillUserAgent, Decodable;
    CutWithin(s, p, EncFromNonce(pver, v));
    if p == |s| {
      NothingLeft(s, w);
    } else {
      CutU64(s, p, v.nonce, EncFromUserAgent(pver, v));
      if |s| - p >= 8 {
        UserAgentPrefix(ebs, pver, s, p + 8, v, w.(nonce := v.nonce));
      }
    }
  }

  lemma AddrMePrefix(ebs: uint64, pver: uint32, s: bytes, p: nat, v: Version, w: Version)
    requires Cut(s, p, EncFromAddrMe(pver, v)) && Decodable(ebs, pver, v)
    requires w.associationID == []
    ensures TakeAddrMe(ebs, s, p, w).Ok? <==> StopsAddrMe(pver, v, |s| - p)
    ensures StopsAddrMe(pver, v, |s| - p) ==>
              TakeAddrMe(ebs, s, p, w) == Ok(FillAddrMe(pver, v, w, |s| - p), |s|)
  {
    hide Cut, EncAddress, TakeAddress, TakeNonce, EncFromNonce, StopsNonce, FillNonce, Decodable;
    CutWithin(s, p, EncFromAddrMe(pver, v));
    if p == |s| {
      NothingLeft(s, w);
    } else {
      CutAddress(s, p, v.addrMe, EncFromNonce(pver, v));
      if |s| - p >= 26 {
        NoncePrefix(ebs, pver, s, p + 26, v, w.(addrMe := Normal16(v.addrMe)));
      }
    }
  }

  lemma FixedPrefix(s: bytes, p: nat, v: Version, w: Version, rest: bytes)
    requires Cut(s, p, EncFixed(v) + rest)
    ensures |s| - p < 46 ==> TakeFixed(s, p, w).Fail?
    ensures |s| - p >= 46 ==> Cut(s, p + 46, rest) && TakeFixed(s, p, w) == Ok(w.(
              protocolVersion := v.protocolVersion, services := v.services, timestamp := v.timestamp,
              addrYou := Normal16(v.addrYou)), p + 46)
  {
    hide Cut, LE, TakeU32, TakeU64, TakeAddress, EncAddress, To16;
    var d := EncAddress(v.addrYou) + rest;
    var c := LE(8, AsUint64(v.timestamp)) + d;
    var b := LE(8, v.services) + c;
    assert EncFixed(v) + rest == LE(4, AsUint32(v.protocolVersion)) + b;
    CutWithin(s, p, EncFixed(v) + rest);
    CutU32(s, p, AsUint32(v.protocolVersion), b);
    if |s| - p >= 4 {
      CutU64(s, p + 4, v.services, c);
      if |s| - p >= 12 {
        CutU64(s, p + 12, AsUint64(v.timestamp), d);
        if |s| - p >= 20 {
          CutAddress(s, p + 20, v.addrYou, rest);
        }
      }
    }
  }

  // ---------- Main results ----------

  // Where the optional fields end in the encoding of v.
  function AgentEnd(v: Version): nat { 80 + |EncVarBytes(v.userAgent)| }

  predicate FieldBoundary(pver: uint32, v: Version, n: nat) {
    var relayEnd := AgentEnd(v) + 4 + |EncRelay(pver, v)|;
    || n == 46 || n == 72 || n == 80 || n == AgentEnd(v) || n == AgentEnd(v) + 4
    || n == relayEnd || n == relayEnd + |EncAssociation(v)|
  }

  // The original with addresses in 16-byte form, and every field that does not end
  // within the first n bytes at its default.
  function Upto(pver: uint32, v: Version, n: nat): Version {
    var relayEnd := AgentEnd(v) + 4 + |EncRelay(pver, v)|;
    Version(
      v.protocolVersion, v.services, v.timestamp, Normal16(v.addrYou),
      if n >= 72 then Normal16(v.addrMe) else NO_ADDRESS,
      if n >= 80 then v.nonce else 0,
      if n >= AgentEnd(v) then v.userAgent else [],
      if n >= AgentEnd(v) + 4 then v.lastBlock else 0,
      n >= AgentEnd(v) + 5 && pver >= BIP0037_VERSION && v.disableRelayTx,
      if n >= relayEnd + |EncAssociation(v)| then v.associationID else [])
  }

  // A prefix of a version encoding decodes exactly when it ends on a field boundary
  // at or after the peer's address, and then gives the original up to there.
  lemma VersionPrefixes(ebs: uint64, pver: uint32, v: Version, n: nat)
    requires Decodable(ebs, pver, v)
    requires n <= |EncVersion(pver, v)|
    ensures var r := TakeVersion(ebs, EncVersion(pver, v)[..n], 0, EMPTY_VERSION);
            && (r.Ok? <==> FieldBoundary(pver, v, n))
            && (FieldBoundary(pver, v, n) ==> r == Ok(Upto(pver, v, n), n))
  {
    hide TakeFixed, EncFixed, EncFromAddrMe, TakeAddrMe, To16;
    var s := EncVersion(pver, v)[..n];
    assert Cut(s, 0, EncVersion(pver, v));
    FixedPrefix(s, 0, v, EMPTY_VERSION, EncFromAddrMe(pver, v));
    if n >= 46 {
      var w := EMPTY_VERSION.(
        protocolVersion := v.protocolVersion, services := v.services, timestamp := v.timestamp,
        addrYou := Normal16(v.addrYou));
      AddrMePrefix(ebs, pver, s, 46, v, w);
      BoundariesNested(pver, v, n, w);
    }
  }

  lemma BoundariesNested(pver: uint32, v: Version, n: nat, w: Version)
    requires n >= 46
    requires w == EMPTY_VERSION.(
      protocolVersion := v.protocolVersion, services := v.services, timestamp := v.timestamp,
      addrYou := Normal16(v.addrYou))
    ensures FieldBoundary(pver, v, n) <==> StopsAddrMe(pver, v, n - 46)
    ensures FieldBoundary(pver, v, n) ==> FillAddrMe(pver, v, w, n - 46) == Upto(pver, v, n)
  {
    hide EncVarBytes, To16;
  }

  function Normal(v: Version): Version {
    v.(addrYou := Normal16(v.addrYou), addrMe := Normal16(v.addrMe))
  }

  // What the decoder reports never carries a long association ID.
  lemma AssociationBounded(ebs: uint64, s: bytes, p: nat, v: Version)
    requires TakeVersion(ebs, s, p, v).Ok? && |v.associationID| <= MAX_ASSOCIATION_ID_LEN
    ensures |TakeVersion(ebs, s, p, v).value.associationID| <= MAX_ASSOCIATION_ID_LEN
  {
    hide TakeU32, TakeU64, TakeAddress, TakeUserAgentText, TakeVarBytes;
  }

  // What the message holds once the last block has been read.
  function BeforeRelay(v: Version): Version { Normal(v).(disableRelayTx := false, associationID := []) }

  lemma ReadsToUserAgent(ebs: uint64, pver: uint32, v: Version, s: bytes)
    requires Cut(s, 0, EncVersion(pver, v)) && |s| > 80
    ensures Cut(s, 80, EncFromUserAgent(pver, v))
    ensures TakeVersion(ebs, s, 0, EMPTY_VERSION) ==
            TakeUserAgent(ebs, s, 80, BeforeRelay(v).(userAgent := [], lastBlock := 0))
  {
    hide TakeFixed, EncFixed, TakeAddress, EncAddress, LE, TakeU64, TakeUserAgent, EncFromUserAgent, Cut, To16;
    FixedPrefix(s, 0, v, EMPTY_VERSION, EncFromAddrMe(pver, v));
    CutAddress(s, 46, v.addrMe, EncFromNonce(pver, v));
    CutU64(s, 72, v.nonce, EncFromUserAgent(pver, v));
  }

  // A prefix that covers the last block is read up to there, and the relay step decides.
  lemma ReadsToRelay(ebs: uint64, pver: uint32, v: Version, s: bytes)
    requires |v.userAgent| <= MAX_USER_AGENT_LEN && |v.userAgent| <= MaxMessagePayload(ebs)
    requires Cut(s, 0, EncVersion(pver, v)) && |s| >= AgentEnd(v) + 4
    ensures Cut(s, AgentEnd(v) + 4, EncFromRelay(pver, v))
    ensures TakeVersion(ebs, s, 0, EMPTY_VERSION) == TakeRelay(s, AgentEnd(v) + 4, BeforeRelay(v))
  {
    hide TakeVersion, EncVersion, LE, TakeU32, TakeUserAgentText, EncVarBytes, TakeRelay, EncFromRelay, Cut, To16;
    ReadsToUserAgent(ebs, pver, v, s);
    UserAgentLawful(ebs);
    CutField(UserAgentParser(ebs), EncVarBytes, ShortAgent(ebs), s, 80, v.userAgent, EncFromLastBlock(pver, v));
    CutU32(s, AgentEnd(v), AsUint32(v.lastBlock), EncFromRelay(pver, v));
  }

  // The first byte of an association ID written without a relay byte is read as the
  // relay flag, and what is left is too short to give the ID back.
  lemma UnmarkedAssociationLost(ebs: uint64, pver: uint32, v: Version)
    requires |v.userAgent| <= MAX_USER_AGENT_LEN && |v.userAgent| <= MaxMessagePayload(ebs)
    requires pver < BIP0037_VERSION && 0 < |v.associationID| <= MAX_ASSOCIATION_ID_LEN
    ensures var r := TakeVersion(ebs, EncVersion(pver, v), 0, EMPTY_VERSION);
            r.Ok? ==> |r.value.associationID| < |v.associationID|
  {
    hide TakeVersion, EncVersion, EncVarBytes, Cut, To16;
    var s := EncVersion(pver, v);
    WholeCut(s);
    EncVersionLength(pver, v);
    ReadsToRelay(ebs, pver, v, s);
    AssociationShorter(s, AgentEnd(v) + 5, |v.associationID|);
  }

  // ---------- When prefixes behave ----------

  // Prefixes of the encoding decode exactly at field boundaries.
  ghost predicate PrefixesStopAtFields(ebs: uint64, pver: uint32, v: Version) {
    forall n :: 0 <= n <= |EncVersion(pver, v)| ==>
      (TakeVersion(ebs, EncVersion(pver, v)[..n], 0, EMPTY_VERSION).Ok? <==> FieldBoundary(pver, v, n))
  }

  // A length over the maximum is refused.
  lemma LongBytesFail(s: bytes, p: nat, max: uint64, e: Error, b: bytes)
    requires Has(s, p, EncVarBytes(b)) && max < |b| < TWO64
    ensures TakeVarBytes(s, p, max, e).Fail?
  {
    hide Has, TakeVarInt, EncVarInt;
    HasConcat(s, p, EncVarInt(|b|), b);
    TakeVarIntComplete(s, p, |b|);
  }

  lemma LongAgentFails(ebs: uint64, pver: uint32, v: Version, n: nat)
    requires MaxMessagePayload(ebs) < |v.userAgent| < TWO64
    requires AgentEnd(v) <= n <= |EncVersion(pver, v)|
    ensures TakeVersion(ebs, EncVersion(pver, v)[..n], 0, EMPTY_VERSION).Fail?
  {
    hide TakeVersion, EncVersion, EncVarBytes, TakeVarBytes, EncFromLastBlock, To16, MaxMessagePayload;
    var s := EncVersion(pver, v)[..n];
    ReadsToUserAgent(ebs, pver, v, s);
    CutConcat(s, 80, EncVarBytes(v.userAgent), EncFromLastBlock(pver, v));
    LongBytesFail(s, 80, MaxMessagePayload(ebs), StringTooLong, v.userAgent);
  }

  // Without a relay byte the length of the association ID is read as one. It is not zero,
  // so it means relay, whatever the length is.
  lemma UnmarkedPrefixDecodes(ebs: uint64, pver: uint32, v: Version)
    requires |v.userAgent| <= MAX_USER_AGENT_LEN && |v.userAgent| <= MaxMessagePayload(ebs)
    requires pver < BIP0037_VERSION && v.associationID != []
    ensures var n := AgentEnd(v) + 5;
            && n <= |EncVersion(pver, v)| && !FieldBoundary(pver, v, n)
            && TakeVersion(ebs, EncVersion(pver, v)[..n], 0, EMPTY_VERSION) == Ok(BeforeRelay(v), n)
  {
    hide TakeVersion, EncVersion, EncVarInt, Cut, To16, MaxMessagePayload;
    EncVersionLength(pver, v);
    var n := AgentEnd(v) + 5;
    var s := EncVersion(pver, v)[..n];
    PrefixCut(EncVersion(pver, v), n);
    ReadsToRelay(ebs, pver, v, s);
    assert EncVarInt(|v.associationID|)[0] != 0 && EncFromRelay(pver, v)[0] != 0 by {
      LengthNotZero(|v.associationID|);
      assert EncFromRelay(pver, v) == EncVarInt(|v.associationID|) + v.associationID;
    }
    CutFirst(s, n - 1, EncFromRelay(pver, v));
  }

  lemma LengthNotZero(n: nat)
    requires n > 0
    ensures EncVarInt(n)[0] != 0
  {
  }

  lemma CutFirst(s: bytes, p: nat, e: bytes)
    requires Cut(s, p, e) && p < |s|
    ensures e != [] && s[p] == e[0]
  {
    assert s[p..][0] == e[..|s| - p][0];
  }

  lemma LongAssociationFails(ebs: uint64, pver: uint32, v: Version)
    requires |v.userAgent| <= MAX_USER_AGENT_LEN && |v.userAgent| <= MaxMessagePayload(ebs)
    requires pver >= BIP0037_VERSION && MAX_ASSOCIATION_ID_LEN < |v.associationID| < TWO64
    ensures TakeVersion(ebs, EncVersion(pver, v), 0, EMPTY_VERSION).Fail?
  {
    hide TakeVersion, EncVersion, EncVarBytes, TakeVarBytes, To16, MaxMessagePayload;
    var s := EncVersion(pver, v);
    EncVersionLength(pver, v);
    WholeCut(s);
    ReadsToRelay(ebs, pver, v, s);
    CutConcat(s, AgentEnd(v) + 4, EncRelay(pver, v), EncAssociation(v));
    LongBytesFail(s, AgentEnd(v) + 5, MAX_ASSOCIATION_ID_LEN, BytesTooLong, v.associationID);
  }

  // For every version message the encoder accepts, prefixes decode exactly at field
  // boundaries if and only if the decoder can take the message back.
  lemma PrefixesExact(ebs: uint64, pver: uint32, v: Version)
    requires |v.userAgent| <= 256 && |v.associationID| < TWO63
    ensures PrefixesStopAtFields(ebs, pver, v) <==> Decodable(ebs, pver, v)
  {
    hide TakeVersion, EncVersion, EncVarBytes, FieldBoundary, MaxMessagePayload;
    var e := EncVersion(pver, v);
    if Decodable(ebs, pver, v) {
      forall n | 0 <= n <= |e|
        ensures TakeVersion(ebs, e[..n], 0, EMPTY_VERSION).Ok? <==> FieldBoundary(pver, v, n)
      {
        VersionPrefixes(ebs, pver, v, n);
      }
    } else if |v.userAgent| > MaxMessagePayload(ebs) {
      EncVersionLength(pver, v);
      LongAgentFails(ebs, pver, v, AgentEnd(v));
      assert FieldBoundary(pver, v, AgentEnd(v)) by { BoundaryAtEnds(pver, v); }
    } else if pver < BIP0037_VERSION && v.associationID != [] {
      UnmarkedPrefixDecodes(ebs, pver, v);
      assert !FieldBoundary(pver, v, AgentEnd(v) + 5);
    } else {
      LongAssociationFails(ebs, pver, v);
      BoundaryAtEnds(pver, v);
      assert e[..|e|] == e;
    }
  }

  lemma BoundaryAtEnds(pver: uint32, v: Version)
    ensures FieldBoundary(pver, v, AgentEnd(v)) && FieldBoundary(pver, v, |EncVersion(pver, v)|)
  {
    hide EncVersion, EncVarBytes;
    EncVersionLength(pver, v);
  }

  lemma PrefixCut(e: bytes, n: nat)
    requires n <= |e|
    ensures Cut(e[..n], 0, e)
  {
  }

  lemma WholeCut(s: bytes)
    ensures Cut(s, 0, s)
  {
  }

  lemma AssociationShorter(s: bytes, p: nat, k: nat)
    requires p + k == |s| && 0 < k <= MAX_ASSOCIATION_ID_LEN
    ensures forall v: Version :: TakeAssociation(s, p, v).Ok? ==> |TakeAssociation(s, p, v).value.associationID| < k
    ensures forall b: bytes :: |b| == k ==> |EncVarBytes(b)| == k + 1
  {
    hide Has, TakeVarBytes;
    if TakeVarBytes(s, p, MAX_ASSOCIATION_ID_LEN, BytesTooLong).Ok? {
      var Ok(b, q) := TakeVarBytes(s, p, MAX_ASSOCIATION_ID_LEN, BytesTooLong);
      TakeVarBytesIff(s, p, MAX_ASSOCIATION_ID_LEN, BytesTooLong, b, q);
    }
  }

  // A version message the encoder accepts comes back, up to the form of its addresses,
  // exactly when the user agent is within the message limit, the association ID is short
  // enough, and either the protocol version has the relay byte or there is neither an
  // association ID nor a disabled relay to carry.
  lemma VersionRoundTrip(ebs: uint64, pver: uint32, v: Version)
    requires |v.userAgent| <= 256
    ensures var r := TakeVersion(ebs, EncVersion(pver, v), 0, EMPTY_VERSION);
            && (r.Ok? && r.value == Normal(v) <==> ComesBack(ebs, pver, v))
            && (ComesBack(ebs, pver, v) ==> r.next == |EncVersion(pver, v)|)
  {
    hide TakeVersion, EncVersion, EncVarBytes, To16, MaxMessagePayload;
    var e := EncVersion(pver, v);
    assert e[..|e|] == e;
    EncVersionLength(pver, v);
    if Decodable(ebs, pver, v) {
      VersionPrefixes(ebs, pver, v, |e|);
      BoundaryAtEnds(pver, v);
    } else if |v.userAgent| > MaxMessagePayload(ebs) {
      LongAgentFails(ebs, pver, v, |e|);
    } else if |v.associationID| <= MAX_ASSOCIATION_ID_LEN {
      UnmarkedAssociationLost(ebs, pver, v);
    } else if TakeVersion(ebs, e, 0, EMPTY_VERSION).Ok? {
      AssociationBounded(ebs, e, 0, EMPTY_VERSION);
    }
  }

  predicate ComesBack(ebs: uint64, pver: uint32, v: Version) {
    && |v.userAgent| <= MaxMessagePayload(ebs) && |v.associationID| <= 129
    && (pver >= 70001 || (v.associationID == [] && !v.disableRelayTx))
  }

  lemma EncVersionLength(pver: uint32, v: Version)
    ensures |EncVersion(pver, v)| == AgentEnd(v) + 4 + |EncRelay(pver, v)| + |EncAssociation(v)|
  {
    hide EncVarBytes, EncAddress, EncFixed;
  }

  // ---------- Payload limit ----------

  // The limit admits every message the decoder can take back.
  function MaxPayloadLength(pver: uint32): (n: nat)
    ensures forall v: Version ::
              |v.userAgent| <= MAX_USER_AGENT_LEN && |v.associationID| <= MAX_ASSOCIATION_ID_LEN ==>
                |EncVersion(pver, v)| <= n
  {
    assert forall v: Version ::
        |v.userAgent| <= MAX_USER_AGENT_LEN && |v.associationID| <= MAX_ASSOCIATION_ID_LEN ==>
          |EncVersion(pver, v)| <= 474 by {
      forall v: Version | |v.userAgent| <= MAX_USER_AGENT_LEN && |v.associationID| <= MAX_ASSOCIATION_ID_LEN
        ensures |EncVersion(pver, v)| <= 474
      {
        EncVersionLength(pver, v);
      }
    }
    33 + MaxNetAddressPayload(pver) * 2 + 9 + MAX_USER_AGENT_LEN + 9 + MAX_ASSOCIATION_ID_LEN
  }
}
