/** The TLV codec as functions on byte sequences. The C routines, which work on
    caller-supplied buffers, are the methods of ProtocolBuffers. */
module Protocol {
  import opened ChatTypes
  import opened Framing

  /** A copied field read back as a C string: the bytes before the first NUL. */
  function CStr(s: seq<byte>): Name {
    if s == [] || s[0] == 0 then [] else [s[0]] + CStr(s[1..])
  }

  lemma {:induction false} CStrOfNulFree(s: seq<byte>)
    requires NulFree(s)
    ensures CStr(s) == s
  {
    if s != [] {
      CStrOfNulFree(s[1..]);
    }
  }

  lemma {:induction false} CStrBounds(s: seq<byte>)
    ensures NulFree(CStr(s)) && |CStr(s)| <= |s| && CStr(s) == s[..|CStr(s)|]
    ensures |CStr(s)| < |s| ==> s[|CStr(s)|] == 0
  {
    if s != [] && s[0] != 0 {
      CStrBounds(s[1..]);
    }
  }

  /** Whatever follows the terminating NUL is not part of the string. */
  lemma {:induction false} CStrStops(s: seq<byte>, junk: seq<byte>)
    ensures CStr(s + [0] + junk) == CStr(s)
  {
    var t := s + [0] + junk;
    if s == [] || s[0] == 0 {
      assert t[0] == 0;
    } else {
      assert t[1..] == s[1..] + [0] + junk;
      CStrStops(s[1..], junk);
    }
  }

  // ----- slices

  lemma Middle<T>(s: seq<T>, a: seq<T>, b: seq<T>, c: seq<T>)
    requires s == a + b + c
    ensures s[|a|..|a| + |b|] == b
  {
  }

  lemma Shifted<T>(s: seq<T>, d: nat, a: nat, b: nat)
    requires d <= |s| && a <= b <= |s| - d
    ensures s[d..][a..b] == s[d + a..d + b]
  {
  }

  // ----- requests carrying a user name and a password

  function EncodeUserPass(op: byte, user: Name, pass: Name): Option<seq<byte>> {
    if |user| > CHAT_MAX_NAME_LEN || |pass| > CHAT_MAX_NAME_LEN then None
    else Some([op, 2 + |user| + |pass|, |user|] + user + [|pass|] + pass)
  }

  function DecodeUserPass(buf: seq<byte>): Option<(Name, Name)> {
    if !HasFrame(buf) || |buf| <= 2 then None
    else
      var ulen := buf[2] as nat;
      if ulen > CHAT_MAX_NAME_LEN || 3 + ulen > |buf| || 3 + ulen >= |buf| then None
      else
        var plen := buf[3 + ulen] as nat;
        if plen > CHAT_MAX_NAME_LEN || 4 + ulen + plen > |buf| then None
        else Some((CStr(buf[3..3 + ulen]), CStr(buf[4 + ulen..4 + ulen + plen])))
  }

  /** The frame as the format lays it out: two length-prefixed fields, then bytes nobody reads. */
  ghost predicate UserPassLayout(f: seq<byte>, user: seq<byte>, pass: seq<byte>, trailing: seq<byte>) {
    && |user| <= CHAT_MAX_NAME_LEN && |pass| <= CHAT_MAX_NAME_LEN
    && |f| >= 2
    && f[2..] == [|user|] + user + [|pass|] + pass + trailing
  }

  lemma UserPassRoundTrip(op: byte, user: Name, pass: Name)
    requires |user| <= CHAT_MAX_NAME_LEN && |pass| <= CHAT_MAX_NAME_LEN && NulFree(user) && NulFree(pass)
    ensures EncodeUserPass(op, user, pass).Some? && IsFrame(EncodeUserPass(op, user, pass).value)
    ensures DecodeUserPass(EncodeUserPass(op, user, pass).value) == Some((user, pass))
  {
    var f := EncodeUserPass(op, user, pass).value;
    assert f[3..3 + |user|] == user;
    assert f[4 + |user|..4 + |user| + |pass|] == pass;
    CStrOfNulFree(user);
    CStrOfNulFree(pass);
  }

  /** A frame of its announced length is accepted exactly when it has the layout, and
      then the two fields, cut at their first NUL, are the result. */
  lemma UserPassAccepts(f: seq<byte>, user: seq<byte>, pass: seq<byte>, trailing: seq<byte>)
    requires IsFrame(f) && UserPassLayout(f, user, pass, trailing)
    ensures DecodeUserPass(f) == Some((CStr(user), CStr(pass)))
  {
    var p := f[2..];
    assert p == [|user|] + user + ([|pass|] + pass + trailing);
    assert p == ([|user|] + user + [|pass|]) + pass + trailing;
    Middle(p, [|user|], user, [|pass|] + pass + trailing);
    Middle(p, [|user|] + user + [|pass|], pass, trailing);
    assert f[2] == p[0] && f[3 + |user|] == p[1 + |user|];
    Shifted(f, 2, 1, 1 + |user|);
    Shifted(f, 2, 2 + |user|, 2 + |user| + |pass|);
  }

  /** The payload of a frame, taken apart at the two fields. */
  lemma TwoFields(f: seq<byte>, n: nat, k: nat)
    requires |f| >= 4 + n + k
    ensures f[2..] == [f[2]] + f[3..3 + n] + [f[3 + n]] + f[4 + n..4 + n + k] + f[4 + n + k..]
  {
  }

  lemma UserPassAccepted(f: seq<byte>) returns (user: seq<byte>, pass: seq<byte>, trailing: seq<byte>)
    requires IsFrame(f) && DecodeUserPass(f).Some?
    ensures UserPassLayout(f, user, pass, trailing)
    ensures DecodeUserPass(f) == Some((CStr(user), CStr(pass)))
  {
    user := f[3..3 + f[2] as nat];
    pass := f[4 + |user|..4 + |user| + f[3 + |user|] as nat];
    trailing := f[4 + |user| + |pass|..];
    TwoFields(f, |user|, |pass|);
  }

  /** Two frames of one opcode are equal when their payloads are. */
  lemma SamePayload(f: seq<byte>, e: seq<byte>, trailing: seq<byte>)
    requires IsFrame(f) && IsFrame(e) && f[0] == e[0] && f[2..] == e[2..] + trailing
    ensures e == f <==> trailing == []
  {
    if trailing == [] {
      assert f[2..] == e[2..];
      assert f == [f[0], f[1]] + f[2..] && e == [e[0], e[1]] + e[2..];
    }
  }

  /** Re-encoding what was accepted gives the payload back up to the trailing bytes. */
  lemma UserPassPartialInverse(f: seq<byte>, user: seq<byte>, pass: seq<byte>, trailing: seq<byte>)
    requires IsFrame(f) && UserPassLayout(f, user, pass, trailing) && NulFree(user) && NulFree(pass)
    ensures DecodeUserPass(f) == Some((user, pass))
    ensures EncodeUserPass(f[0], user, pass).Some?
    ensures var e := EncodeUserPass(f[0], user, pass).value;
            f[2..] == e[2..] + trailing && f[0] == e[0] && (e == f <==> trailing == [])
  {
    UserPassAccepts(f, user, pass, trailing);
    CStrOfNulFree(user);
    CStrOfNulFree(pass);
    var e := EncodeUserPass(f[0], user, pass).value;
    assert e[2..] == [|user|] + user + [|pass|] + pass;
    SamePayload(f, e, trailing);
  }

  /** No prefix of a frame is mistaken for the frame. */
  lemma PrefixRejected(f: seq<byte>, k: nat)
    requires IsFrame(f) && k < |f|
    ensures !HasFrame(f[..k])
    ensures DecodeUserPass(f[..k]) == None && DecodeGroupname(f[..k]) == None
    ensures DecodeGroupRep(f[..k]) == None
    ensures DecodeStatus(f[..k]) == None
    ensures k < 2 ==> PeekHeader(f[..k]) == None
  {
  }

  // ----- requests carrying a group name

  function EncodeGroupname(op: byte, group: Name): Option<seq<byte>> {
    if |group| > CHAT_MAX_NAME_LEN then None
    else Some([op, 1 + |group|, |group|] + group)
  }

  function DecodeGroupname(buf: seq<byte>): Option<Name> {
    if !HasFrame(buf) || buf[1] < 1 then None
    else
      var glen := buf[2] as nat;
      if glen > CHAT_MAX_NAME_LEN || 3 + glen > |buf| then None
      else Some(CStr(buf[3..3 + glen]))
  }

  ghost predicate GroupnameLayout(f: seq<byte>, group: seq<byte>, trailing: seq<byte>) {
    && |group| <= CHAT_MAX_NAME_LEN
    && |f| >= 2
    && f[2..] == [|group|] + group + trailing
  }

  lemma GroupnameRoundTrip(op: byte, group: Name)
    requires |group| <= CHAT_MAX_NAME_LEN && NulFree(group)
    ensures EncodeGroupname(op, group).Some? && IsFrame(EncodeGroupname(op, group).value)
    ensures DecodeGroupname(EncodeGroupname(op, group).value) == Some(group)
  {
    var f := EncodeGroupname(op, group).value;
    assert f[3..3 + |group|] == group;
    CStrOfNulFree(group);
  }

  lemma GroupnamePartialInverse(f: seq<byte>, group: seq<byte>, trailing: seq<byte>)
    requires IsFrame(f) && GroupnameLayout(f, group, trailing)
    ensures DecodeGroupname(f) == Some(CStr(group))
    ensures NulFree(group) ==> DecodeGroupname(f) == Some(group) && EncodeGroupname(f[0], group).Some?
    ensures NulFree(group) ==> var e := EncodeGroupname(f[0], group).value;
              f[2..] == e[2..] + trailing && f[0] == e[0] && (e == f <==> trailing == [])
  {
    var p := f[2..];
    assert f[2] == p[0];
    Middle(p, [|group|], group, trailing);
    Shifted(f, 2, 1, 1 + |group|);
    if NulFree(group) {
      CStrOfNulFree(group);
      var e := EncodeGroupname(f[0], group).value;
      assert e[2..] == [|group|] + group;
      SamePayload(f, e, trailing);
    }
  }

  lemma GroupnameAccepted(f: seq<byte>) returns (group: seq<byte>, trailing: seq<byte>)
    requires IsFrame(f) && DecodeGroupname(f).Some?
    ensures GroupnameLayout(f, group, trailing)
  {
    group := f[3..3 + f[2] as nat];
    trailing := f[3 + |group|..];
    assert f[2..] == [|group|] + group + trailing;
  }

  // ----- headers, logout and replies

  function PeekHeader(buf: seq<byte>): Option<(byte, byte)> {
    if |buf| < 2 then None else Some((buf[0], buf[1]))
  }

  const LOGOUT_FRAME: seq<byte> := [OP_LOGOUT_REQ, 0]

  function EncodeStatus(op: byte, status: Status): seq<byte> {
    [op, 1, status]
  }

  function DecodeStatus(buf: seq<byte>): Option<Status> {
    if |buf| < 3 || buf[1] != 1 then None else Some(buf[2])
  }

  function EncodeGroupRep(op: byte, addr: Mcast): Option<seq<byte>> {
    if |addr.ip| >= CHAT_MAX_IP_STR_LEN then None
    else Some([op, 5 + |addr.ip|, ST_OK, |addr.ip|] + addr.ip + [2, addr.port / 256, addr.port % 256])
  }

  /** What the client learns from a reply to create or join: the status and, if the
      status is OK, the address. The failure form is a plain status reply. */
  function DecodeGroupRep(buf: seq<byte>): Option<(Status, Mcast)> {
    if !HasFrame(buf) || |buf| < 3 || buf[1] < 1 then None
    else if buf[2] != ST_OK || buf[1] == 1 then Some((buf[2], Mcast([], 0)))
    else if |buf| <= 3 then None
    else
      var iplen := buf[3] as nat;
      if iplen >= CHAT_MAX_IP_STR_LEN || 4 + iplen >= |buf| then None
      else if buf[4 + iplen] != 2 || 7 + iplen > |buf| then None
      else Some((buf[2], Mcast(CStr(buf[4..4 + iplen]), buf[5 + iplen] as nat * 256 + buf[6 + iplen] as nat)))
  }

  lemma StatusRoundTrip(op: byte, status: Status)
    ensures IsFrame(EncodeStatus(op, status)) && EncodeStatus(op, status)[0] == op
    ensures DecodeStatus(EncodeStatus(op, status)) == Some(status)
    ensures DecodeGroupRep(EncodeStatus(op, status)) == Some((status, Mcast([], 0)))
  {
  }

  lemma GroupRepRoundTrip(op: byte, addr: Mcast)
    requires |addr.ip| < CHAT_MAX_IP_STR_LEN && NulFree(addr.ip)
    ensures EncodeGroupRep(op, addr).Some?
    ensures IsFrame(EncodeGroupRep(op, addr).value) && EncodeGroupRep(op, addr).value[0] == op
    ensures DecodeGroupRep(EncodeGroupRep(op, addr).value) == Some((ST_OK, addr))
    ensures var f, n := EncodeGroupRep(op, addr).value, |addr.ip|; // status right after the length, port big-endian
            |f| == 7 + n && f[2] == ST_OK && f[3] == n && f[4..4 + n] == addr.ip
            && f[4 + n] == 2 && f[5 + n] as int * 256 + f[6 + n] as int == addr.port
  {
    var f := EncodeGroupRep(op, addr).value;
    assert f[4..4 + |addr.ip|] == addr.ip;
    CStrOfNulFree(addr.ip);
  }

  // ----- buffers longer than their frame

  /** The decoders check their inner lengths against the buffer, not the payload. Each
      predicate is the guard under which a field then ends beyond the frame. */
  predicate UserPassOverrun(buf: seq<byte>)
    requires HasFrame(buf)
  {
    && |buf| > 2 && buf[2] <= CHAT_MAX_NAME_LEN && 3 + buf[2] as int < |buf|
    && buf[3 + buf[2] as int] <= CHAT_MAX_NAME_LEN
    && FrameLen(buf) < 4 + buf[2] as int + buf[3 + buf[2] as int] as int <= |buf|
  }

  predicate GroupnameOverrun(buf: seq<byte>)
    requires HasFrame(buf)
  {
    buf[1] >= 1 && buf[2] <= CHAT_MAX_NAME_LEN && FrameLen(buf) < 3 + buf[2] as int <= |buf|
  }

  predicate GroupRepOverrun(buf: seq<byte>)
    requires HasFrame(buf)
  {
    && buf[1] >= 2 && buf[2] == ST_OK && buf[3] < CHAT_MAX_IP_STR_LEN && 4 + buf[3] as int < |buf|
    && buf[4 + buf[3] as int] == 2
    && FrameLen(buf) < 7 + buf[3] as int <= |buf|
  }

  /** On any buffer that starts with a frame, a decoder sees the same as on the frame
      alone unless its guard holds; if it does, bytes behind the frame are accepted as a
      field of a frame that would be rejected. A status reply is never overrun. */
  lemma UserPassOverreads(buf: seq<byte>)
    requires HasFrame(buf)
    ensures DecodeUserPass(buf) == DecodeUserPass(buf[..FrameLen(buf)]) <==> !UserPassOverrun(buf)
    ensures UserPassOverrun(buf) ==> DecodeUserPass(buf).Some? && DecodeUserPass(buf[..FrameLen(buf)]) == None
  {
    var f := buf[..FrameLen(buf)];
    if DecodeUserPass(f).Some? {
      var ulen := buf[2] as nat;
      assert f[3..3 + ulen] == buf[3..3 + ulen];
      assert f[4 + ulen..4 + ulen + buf[3 + ulen] as nat] == buf[4 + ulen..4 + ulen + buf[3 + ulen] as nat];
    }
  }

  lemma GroupnameOverreads(buf: seq<byte>)
    requires HasFrame(buf)
    ensures DecodeGroupname(buf) == DecodeGroupname(buf[..FrameLen(buf)]) <==> !GroupnameOverrun(buf)
    ensures GroupnameOverrun(buf) ==> DecodeGroupname(buf).Some? && DecodeGroupname(buf[..FrameLen(buf)]) == None
  {
    var f := buf[..FrameLen(buf)];
    if DecodeGroupname(f).Some? {
      assert f[3..3 + f[2] as nat] == buf[3..3 + buf[2] as nat];
    }
  }

  lemma ReplyOverreads(buf: seq<byte>)
    requires HasFrame(buf)
    ensures DecodeGroupRep(buf) == DecodeGroupRep(buf[..FrameLen(buf)]) <==> !GroupRepOverrun(buf)
    ensures GroupRepOverrun(buf) ==> DecodeGroupRep(buf).Some? && DecodeGroupRep(buf[..FrameLen(buf)]) == None
    ensures DecodeStatus(buf) == DecodeStatus(buf[..FrameLen(buf)])
  {
    var f := buf[..FrameLen(buf)];
    if DecodeGroupRep(f).Some? && buf[1] > 1 && buf[2] == ST_OK {
      assert f[4..4 + f[3] as nat] == buf[4..4 + buf[3] as nat];
    }
  }

  /** Each guard can hold. A join whose one-byte payload announces a one-byte name, followed
      by the letter A, is accepted with the name "A"; a registration whose payload ends with
      the length of the password finds the password behind it; a reply whose payload ends
      with the length of the address finds the port behind it. */
  lemma DecoderOverreads()
    ensures var join: seq<byte> := [OP_JOIN_GROUP_REQ, 1, 1, 65];
            HasFrame(join) && GroupnameOverrun(join) && DecodeGroupname(join) == Some([65])
    ensures var register: seq<byte> := [OP_REG_REQ, 2, 0, 1, 65];
            HasFrame(register) && UserPassOverrun(register) && DecodeUserPass(register) == Some(([], [65]))
    ensures var reply: seq<byte> := [OP_JOIN_GROUP_REP, 2, ST_OK, 0, 2, 23, 112];
            HasFrame(reply) && GroupRepOverrun(reply) && DecodeGroupRep(reply) == Some((ST_OK, Mcast([], 6000)))
  {
    assert [OP_JOIN_GROUP_REQ, 1, 1, 65][3..4] == [65];
    var register: seq<byte> := [OP_REG_REQ, 2, 0, 1, 65];
    assert register[3..3] == [] && register[4..5] == [65];
    assert CStr([65]) == [65] by { CStrOfNulFree([65]); }
    var reply: seq<byte> := [OP_JOIN_GROUP_REP, 2, ST_OK, 0, 2, 23, 112];
    assert reply[4..4] == [];
  }

  // ----- a request and its frame

  function EncodeRequest(req: Request): Option<seq<byte>> {
    match req
    case Register(user, pass) => EncodeUserPass(OP_REG_REQ, user, pass)
    case Login(user, pass) => EncodeUserPass(OP_LOGIN_REQ, user, pass)
    case Logout => Some(LOGOUT_FRAME)
    case Create(group) => EncodeGroupname(OP_CREATE_GROUP_REQ, group)
    case Join(group) => EncodeGroupname(OP_JOIN_GROUP_REQ, group)
    case Leave(group) => EncodeGroupname(OP_LEAVE_GROUP_REQ, group)
  }

  /** The request a frame carries, by opcode; None if the opcode is no request or
      the payload does not decode. The payload of a logout is not looked at. */
  function DecodeRequest(f: seq<byte>): Option<Request> {
    if |f| < 2 then None
    else if f[0] == OP_REG_REQ || f[0] == OP_LOGIN_REQ then
      match DecodeUserPass(f)
      case None => None
      case Some((user, pass)) =>
        Some(if f[0] == OP_REG_REQ then Register(user, pass) else Login(user, pass))
    else if f[0] == OP_LOGOUT_REQ then Some(Logout)
    else if f[0] == OP_CREATE_GROUP_REQ || f[0] == OP_JOIN_GROUP_REQ || f[0] == OP_LEAVE_GROUP_REQ then
      match DecodeGroupname(f)
      case None => None
      case Some(g) =>
        Some(if f[0] == OP_CREATE_GROUP_REQ then Create(g) else if f[0] == OP_JOIN_GROUP_REQ then Join(g) else Leave(g))
    else None
  }

  lemma RequestRoundTrip(req: Request)
    requires Fits(req) && NulFreeRequest(req)
    ensures EncodeRequest(req).Some? && IsFrame(EncodeRequest(req).value)
    ensures DecodeRequest(EncodeRequest(req).value) == Some(req)
    ensures EncodeRequest(req).value[0] == OpcodeOf(req)
  {
    match req
    case Register(user, pass) => UserPassRoundTrip(OP_REG_REQ, user, pass);
    case Login(user, pass) => UserPassRoundTrip(OP_LOGIN_REQ, user, pass);
    case Logout =>
    case Create(g) => GroupnameRoundTrip(OP_CREATE_GROUP_REQ, g);
    case Join(g) => GroupnameRoundTrip(OP_JOIN_GROUP_REQ, g);
    case Leave(g) => GroupnameRoundTrip(OP_LEAVE_GROUP_REQ, g);
  }

  /** Whatever bytes arrive, a decoded request has C-string fields within bounds. */
  lemma DecodedFits(f: seq<byte>)
    requires DecodeRequest(f).Some?
    ensures Fits(DecodeRequest(f).value) && NulFreeRequest(DecodeRequest(f).value)
    ensures f[0] == OpcodeOf(DecodeRequest(f).value)
  {
    if DecodeUserPass(f).Some? {
      var ulen := f[2] as nat;
      CStrBounds(f[3..3 + ulen]);
      CStrBounds(f[4 + ulen..4 + ulen + f[3 + ulen] as nat]);
    }
    if DecodeGroupname(f).Some? {
      CStrBounds(f[3..3 + f[2] as nat]);
    }
  }

  /** The reply to a request with opcode `op`; None if the encoder refuses. */
  function EncodeReply(op: byte, reply: Reply): Option<seq<byte>> {
    match reply
    case Plain(status) => Some(EncodeStatus(op, status))
    case Granted(addr) => EncodeGroupRep(op, addr)
  }
}
