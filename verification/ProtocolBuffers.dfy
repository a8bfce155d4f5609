/** The codec as the C routines run it: encoders fill a caller's buffer and return the
    number of bytes written or -1; decoders fill output buffers and return 0 or -1. */
module ProtocolBuffers {
  import opened ChatTypes
  import opened Protocol

  /** `memcpy(&buf[at], s, |s|)` */
  method Copy(buf: array<byte>, at: nat, s: seq<byte>)
    requires at + |s| <= buf.Length
    modifies buf
    ensures buf[..at + |s|] == old(buf[..at]) + s
    ensures buf[at + |s|..] == old(buf[at + |s|..])
  {
    forall i | 0 <= i < |s| {
      buf[at + i] := s[i];
    }
  }

  /** The outcome of an encoder: all or nothing, and nothing past the frame. */
  twostate predicate Wrote(buf: array<byte>, n: int, frame: Option<seq<byte>>)
    reads buf
  {
    match frame
    case None => n == -1 && buf[..] == old(buf[..])
    case Some(f) => n == |f| <= buf.Length && buf[..n] == f && buf[n..] == old(buf[n..])
  }

  method EncodeUserPassReq(buf: array<byte>, op: byte, user: Name, pass: Name) returns (n: int)
    requires buf.Length >= CHAT_MAX_MSG_SIZE
    modifies buf
    ensures Wrote(buf, n, EncodeUserPass(op, user, pass))
  {
    var ulen, plen := |user|, |pass|;
    if ulen > CHAT_MAX_NAME_LEN || plen > CHAT_MAX_NAME_LEN {
      return -1;
    }
    var payload := 1 + ulen + 1 + plen;
    if payload > CHAT_MAX_PAYLOAD {
      return -1;
    }
    ghost var rest := buf[2 + payload..];
    Copy(buf, 0, [op, payload, ulen]);
    assert buf[2 + payload..] == rest;
    Copy(buf, 3, user);
    assert buf[2 + payload..] == rest;
    Copy(buf, 3 + ulen, [plen]);
    assert buf[2 + payload..] == rest;
    Copy(buf, 4 + ulen, pass);
    return 2 + payload;
  }

  method EncodeGroupnameReq(buf: array<byte>, op: byte, group: Name) returns (n: int)
    requires buf.Length >= CHAT_MAX_MSG_SIZE
    modifies buf
    ensures Wrote(buf, n, EncodeGroupname(op, group))
  {
    var glen := |group|;
    if glen > CHAT_MAX_NAME_LEN {
      return -1;
    }
    var payload := 1 + glen;
    if payload > CHAT_MAX_PAYLOAD {
      return -1;
    }
    ghost var rest := buf[2 + payload..];
    Copy(buf, 0, [op, payload, glen]);
    assert buf[2 + payload..] == rest;
    Copy(buf, 3, group);
    return 2 + payload;
  }

  method EncodeStatusRep(buf: array<byte>, op: byte, status: Status) returns (n: int)
    requires buf.Length >= CHAT_MAX_MSG_SIZE
    modifies buf
    ensures Wrote(buf, n, Some(EncodeStatus(op, status)))
  {
    buf[0] := op;
    buf[1] := 1;
    buf[2] := status;
    return 3;
  }

  method EncodeGroupRepOk(buf: array<byte>, op: byte, ip: seq<byte>, port: uint16) returns (n: int)
    requires buf.Length >= CHAT_MAX_MSG_SIZE
    modifies buf
    ensures Wrote(buf, n, EncodeGroupRep(op, Mcast(ip, port)))
  {
    var iplen := |ip|;
    if iplen >= CHAT_MAX_IP_STR_LEN {
      return -1;
    }
    var payload := 1 + (1 + iplen) + (1 + 2);
    if payload > CHAT_MAX_PAYLOAD {
      return -1;
    }
    ghost var rest := buf[2 + payload..];
    Copy(buf, 0, [op, payload, ST_OK, iplen]);
    assert buf[2 + payload..] == rest;
    Copy(buf, 4, ip);
    assert buf[2 + payload..] == rest;
    Copy(buf, 4 + iplen, [2, port / 256, port % 256]);
    return 2 + payload;
  }

  /** `memcpy(out, &buf[from], n); out[n] = 0`: `out` then holds the field as a C string. */
  method CopyField(out: array<byte>, buf: array<byte>, from: nat, n: nat)
    requires from + n <= buf.Length && n < out.Length && out != buf
    modifies out
    ensures CStr(out[..]) == CStr(buf[from..from + n])
  {
    forall i | 0 <= i < n {
      out[i] := buf[from + i];
    }
    out[n] := 0;
    assert out[..] == buf[from..from + n] + [0] + out[n + 1..];
    CStrStops(buf[from..from + n], out[n + 1..]);
  }

  method DecodeUserPassReq(buf: array<byte>, len: nat, outUser: array<byte>, outPass: array<byte>) returns (r: int)
    requires len <= buf.Length && outUser != buf && outPass != buf && outUser != outPass
    requires outUser.Length > CHAT_MAX_NAME_LEN && outPass.Length > CHAT_MAX_NAME_LEN
    modifies outUser, outPass
    ensures r == if DecodeUserPass(buf[..len]).Some? then 0 else -1
    ensures r == 0 ==> DecodeUserPass(buf[..len]) == Some((CStr(outUser[..]), CStr(outPass[..])))
  {
    ghost var f := buf[..len];
    if len < 2 {
      return -1;
    }
    var payload := buf[1] as nat;
    if 2 + payload > len {
      return -1;
    }
    var pos := 2;
    if pos >= len {
      return -1;
    }
    var ulen := buf[pos] as nat;
    pos := pos + 1;
    if ulen > CHAT_MAX_NAME_LEN || pos + ulen > len {
      return -1;
    }
    CopyField(outUser, buf, pos, ulen);
    assert buf[pos..pos + ulen] == f[3..3 + ulen];
    pos := pos + ulen;
    if pos >= len {
      return -1;
    }
    var plen := buf[pos] as nat;
    pos := pos + 1;
    if plen > CHAT_MAX_NAME_LEN || pos + plen > len {
      return -1;
    }
    CopyField(outPass, buf, pos, plen);
    assert buf[pos..pos + plen] == f[4 + ulen..4 + ulen + plen];
    return 0;
  }

  method DecodeGroupnameReq(buf: array<byte>, len: nat, outGroup: array<byte>) returns (r: int)
    requires len <= buf.Length && outGroup != buf && outGroup.Length > CHAT_MAX_NAME_LEN
    modifies outGroup
    ensures r == if DecodeGroupname(buf[..len]).Some? then 0 else -1
    ensures r == 0 ==> DecodeGroupname(buf[..len]) == Some(CStr(outGroup[..]))
  {
    ghost var f := buf[..len];
    if len < 2 {
      return -1;
    }
    var payload := buf[1] as nat;
    if 2 + payload > len {
      return -1;
    }
    if payload < 1 {
      return -1;
    }
    var glen := buf[2] as nat;
    if glen > CHAT_MAX_NAME_LEN || 3 + glen > len {
      return -1;
    }
    CopyField(outGroup, buf, 3, glen);
    assert buf[3..3 + glen] == f[3..3 + glen];
    return 0;
  }

  method DecodeStatusRep(buf: array<byte>, len: nat) returns (r: int, status: Status)
    requires len <= buf.Length
    ensures r == if DecodeStatus(buf[..len]).Some? then 0 else -1
    ensures r == 0 ==> DecodeStatus(buf[..len]) == Some(status)
  {
    if len < 3 {
      return -1, ST_OK;
    }
    if buf[1] != 1 {
      return -1, ST_OK;
    }
    return 0, buf[2];
  }

  method DecodeGroupRepOk(buf: array<byte>, len: nat, outIp: array<byte>)
    returns (r: int, status: Status, port: uint16)
    requires len <= buf.Length && outIp != buf && outIp.Length >= CHAT_MAX_IP_STR_LEN
    modifies outIp
    ensures r == if DecodeGroupRep(buf[..len]).Some? then 0 else -1
    ensures r == 0 ==> DecodeGroupRep(buf[..len]) == Some((status, Mcast(CStr(outIp[..]), port)))
  {
    ghost var f := buf[..len];
    status, port := ST_OK, 0;
    if len < 3 {
      return -1, status, port;
    }
    var payload := buf[1] as nat;
    if 2 + payload > len || payload < 1 {
      return -1, status, port;
    }
    status := buf[2];
    if status != ST_OK || payload == 1 {
      outIp[0] := 0;
      return 0, status, 0;
    }
    var pos := 3;
    if pos >= len {
      return -1, status, port;
    }
    var iplen := buf[pos] as nat;
    pos := pos + 1;
    if iplen >= CHAT_MAX_IP_STR_LEN || pos + iplen > len {
      return -1, status, port;
    }
    CopyField(outIp, buf, pos, iplen);
    assert buf[pos..pos + iplen] == f[4..4 + iplen];
    pos := pos + iplen;
    if pos >= len {
      return -1, status, port;
    }
    var portlen := buf[pos] as nat;
    pos := pos + 1;
    if portlen != 2 || pos + 2 > len {
      return -1, status, port;
    }
    port := buf[pos] as int * 256 + buf[pos + 1] as int;
    return 0, status, port;
  }
}
