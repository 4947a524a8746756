/**
 Reading and writing the version message step by step (Bsvdecode and BsvEncode in
 msg_version.go, readNetAddress and writeNetAddress in net_address.go).
 */
module VersionCodec {
  import opened Bytes
  import opened Parsing
  import opened VarInts
  import opened Limits
  import opened Streams
  import opened Writing
  import opened Versions

  class MsgVersion {
    var fields: Version

    constructor ()
      ensures fields == EMPTY_VERSION
    {
      fields := EMPTY_VERSION;
    }
  }

  method ReadAddress(buf: Source) returns (r: Parsed<NetAddress>)
    requires buf.Valid()
    modifies buf, buf.base
    ensures buf.Valid()
    ensures r == TakeAddress(buf.View(), old(buf.base.pos)) && buf.base.pos == r.next
  {
    hide TakeU64, TakeN;
    var services := ReadU64(buf);
    if services.Fail? {
      return Fail(services.err, services.next);
    }
    var ip := buf.ReadFull(16);
    if ip.Fail? {
      return Fail(ip.err, ip.next);
    }
    var port := buf.ReadFull(2);
    if port.Fail? {
      return Fail(port.err, port.next);
    }
    return Ok(NetAddress(services.value, ip.value, FromBE16(port.value)), port.next);
  }

  // readNetAddress; version messages read theirs without the timestamp.
  method ReadNetAddress(buf: Source, pver: uint32, ts: bool, was: int64) returns (r: Parsed<(int64, NetAddress)>)
    requires buf.Valid()
    modifies buf, buf.base
    ensures buf.Valid()
    ensures r == TakeNetAddress(pver, ts, buf.View(), old(buf.base.pos), was) && buf.base.pos == r.next
  {
    hide TakeU32, TakeAddress;
    var stamp := was;
    if ts && pver >= NET_ADDRESS_TIME_VERSION {
      var t := ReadU32(buf);
      if t.Fail? {
        return Fail(t.err, t.next);
      }
      stamp := t.value;
    }
    var a := ReadAddress(buf);
    if a.Fail? {
      return Fail(a.err, a.next);
    }
    return Ok((stamp, a.value), a.next);
  }

  // The fixed part.
  method ReadFixed(msg: MsgVersion, buf: Source) returns (err: Outcome)
    requires buf.Valid()
    modifies msg, buf, buf.base
    ensures buf.Valid()
    ensures var spec := TakeFixed(buf.View(), old(buf.base.pos), old(msg.fields));
            && err == spec.Outcome() && buf.base.pos == spec.next
            && (err.Success? ==> msg.fields == spec.value)
  {
    hide TakeU32, TakeU64, TakeAddress;
    var protocolVersion := ReadU32(buf);
    if protocolVersion.Fail? {
      return Failure(protocolVersion.err);
    }
    msg.fields := msg.fields.(protocolVersion := AsInt32(protocolVersion.value));
    var services := ReadU64(buf);
    if services.Fail? {
      return Failure(services.err);
    }
    msg.fields := msg.fields.(services := services.value);
    var timestamp := ReadU64(buf);
    if timestamp.Fail? {
      return Failure(timestamp.err);
    }
    msg.fields := msg.fields.(timestamp := AsInt64(timestamp.value));
    var addrYou := ReadAddress(buf);
    if addrYou.Fail? {
      return Failure(addrYou.err);
    }
    msg.fields := msg.fields.(addrYou := addrYou.value);
    err := Success;
  }

  // Last block, relay flag and association ID, each only if bytes are left.
  method ReadFromLastBlock(msg: MsgVersion, buf: Source) returns (err: Outcome)
    requires buf.Valid() && !buf.limited
    modifies msg, buf, buf.base
    ensures buf.Valid()
    ensures var spec := TakeLastBlock(buf.View(), old(buf.base.pos), old(msg.fields));
            && err == spec.Outcome() && buf.base.pos == spec.next
            && (err.Success? ==> msg.fields == spec.value)
  {
    hide TakeU32, TakeVarBytes;
    if buf.Len() > 0 {
      var lastBlock := ReadU32(buf);
      if lastBlock.Fail? {
        return Failure(lastBlock.err);
      }
      msg.fields := msg.fields.(lastBlock := AsInt32(lastBlock.value));
    }
    if buf.Len() > 0 {
      var relayTx := buf.ReadFull(1);
      msg.fields := msg.fields.(disableRelayTx := relayTx.value[0] == 0);
    }
    if buf.Len() > 0 {
      var associationID := ReadVarBytes(buf, MAX_ASSOCIATION_ID_LEN, BytesTooLong);
      if associationID.Fail? {
        return Failure(associationID.err);
      }
      msg.fields := msg.fields.(associationID := associationID.value);
    }
    err := Success;
  }

  // The step-by-step decoder computes what the parser computes.
  method DecodeVersion(msg: MsgVersion, buf: Source, ebs: uint64) returns (err: Outcome)
    requires buf.Valid()
    modifies msg, buf, buf.base
    ensures buf.Valid()
    ensures buf.limited || buf.tee ==> err == Failure(NotABuffer) && buf.base.pos == old(buf.base.pos)
    ensures !buf.limited && !buf.tee ==>
              var spec := TakeVersion(ebs, buf.View(), old(buf.base.pos), old(msg.fields));
              && err == spec.Outcome() && buf.base.pos == spec.next
              && (err.Success? ==> msg.fields == spec.value)
  {
    hide TakeFixed, TakeAddress, TakeU64, TakeVarBytes, TakeLastBlock, MaxMessagePayload;
    if buf.limited || buf.tee {
      return Failure(NotABuffer);
    }
    err := ReadFixed(msg, buf);
    if err.Failure? {
      return;
    }
    if buf.Len() > 0 {
      var addrMe := ReadAddress(buf);
      if addrMe.Fail? {
        return Failure(addrMe.err);
      }
      msg.fields := msg.fields.(addrMe := addrMe.value);
    }
    if buf.Len() > 0 {
      var nonce := ReadU64(buf);
      if nonce.Fail? {
        return Failure(nonce.err);
      }
      msg.fields := msg.fields.(nonce := nonce.value);
    }
    if buf.Len() > 0 {
      var userAgent := ReadVarBytes(buf, MaxMessagePayload(ebs), StringTooLong);
      if userAgent.Fail? {
        return Failure(userAgent.err);
      }
      if |userAgent.value| > MAX_USER_AGENT_LEN {
        return Failure(UserAgentTooLong);
      }
      msg.fields := msg.fields.(userAgent := userAgent.value);
    }
    err := ReadFromLastBlock(msg, buf);
  }

  method WriteAddress(w: Writer, a: NetAddress)
    modifies w
    ensures w.out == old(w.out) + EncAddress(a)
  {
    hide LE, To16;
    w.Write(LE(8, a.services));
    w.Write(To16(a.ip));
    w.Write(BE16(a.port));
  }

  method WriteNetAddress(w: Writer, pver: uint32, ts: bool, stamp: int64, a: NetAddress)
    modifies w
    ensures w.out == old(w.out) + EncNetAddress(pver, ts, stamp, a)
  {
    hide LE, EncAddress;
    if ts && pver >= NET_ADDRESS_TIME_VERSION {
      w.Write(LE(4, stamp % TWO32));
    }
    WriteAddress(w, a);
  }

  method WriteFixed(w: Writer, v: Version)
    modifies w
    ensures w.out == old(w.out) + EncFixed(v)
  {
    hide LE, EncAddress;
    w.Write(LE(4, AsUint32(v.protocolVersion)));
    w.Write(LE(8, v.services));
    w.Write(LE(8, AsUint64(v.timestamp)));
    WriteAddress(w, v.addrYou);
  }

  method WriteFromLastBlock(w: Writer, pver: uint32, v: Version)
    requires |v.associationID| < TWO63
    modifies w
    ensures w.out == old(w.out) + EncFromLastBlock(pver, v)
  {
    hide LE, EncVarBytes;
    w.Write(LE(4, AsUint32(v.lastBlock)));
    if pver >= BIP0037_VERSION {
      w.Write([if v.disableRelayTx then 0x00 else 0x01]);
    }
    if |v.associationID| > 0 {
      WriteVarBytes(w, v.associationID);
    }
  }

  // The encoder refuses a long user agent and otherwise writes the encoding.
  method EncodeVersion(w: Writer, pver: uint32, v: Version) returns (err: Outcome)
    requires |v.associationID| < TWO63
    modifies w
    ensures |v.userAgent| > 256 ==> err == Failure(UserAgentTooLong) && w.out == old(w.out)
    ensures |v.userAgent| <= 256 ==> err == Success && w.out == old(w.out) + EncVersion(pver, v)
  {
    hide LE, EncAddress, EncVarBytes, EncFixed, EncFromLastBlock;
    if |v.userAgent| > MAX_USER_AGENT_LEN {
      return Failure(UserAgentTooLong);
    }
    WriteFixed(w, v);
    WriteAddress(w, v.addrMe);
    w.Write(LE(8, v.nonce));
    WriteVarBytes(w, v.userAgent);
    WriteFromLastBlock(w, pver, v);
    err := Success;
  }
}
