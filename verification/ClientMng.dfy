/** The client's side of the wire: blocking send and receive over a byte stream. */
module ClientNet {
  import opened ChatTypes
  import opened Framing

  /** A connected socket. `incoming` is everything the peer sends before it closes;
      a reliable socket reports no errors of its own. */
  class Socket {
    const reliable: bool
    var incoming: seq<byte>
    var sent: seq<byte>

    constructor (reliable: bool, incoming: seq<byte>)
      ensures this.reliable == reliable && this.incoming == incoming && sent == []
    {
      this.reliable := reliable;
      this.incoming := incoming;
      sent := [];
    }

    /** `send`: any non-empty part of the bytes may be taken, or an error reported. */
    method Send(bytes: seq<byte>) returns (n: int)
      requires bytes != []
      modifies this`sent
      ensures -1 <= n <= |bytes|
      ensures sent == old(sent) + bytes[..if n < 0 then 0 else n]
      ensures reliable ==> n > 0
    {
      n :| -1 <= n <= |bytes| && (reliable ==> n > 0);
      sent := sent + bytes[..if n < 0 then 0 else n];
    }

    /** `recv`: any non-empty part of what is there, 0 at the end, or an error. */
    method Recv(buf: array<byte>, at: nat, max: nat) returns (n: int)
      requires 0 < max && at + max <= buf.Length
      modifies this`incoming, buf
      ensures -1 <= n <= max && n <= |old(incoming)|
      ensures n <= 0 ==> incoming == old(incoming) && buf[..] == old(buf[..])
      ensures n > 0 ==> incoming == old(incoming)[n..]
      ensures n > 0 ==> buf[..at] == old(buf[..at]) && buf[at..at + n] == old(incoming)[..n]
      ensures old(incoming) == [] ==> n <= 0
      ensures reliable && old(incoming) != [] ==> n > 0
    {
      n :| -1 <= n <= max && n <= |incoming| && (reliable && incoming != [] ==> n > 0);
      if n > 0 {
        forall i | 0 <= i < n {
          buf[at + i] := incoming[i];
        }
        incoming := incoming[n..];
      }
    }
  }

  /** client_net_send_all: all the bytes leave, or a prefix and an error. */
  method SendAll(sock: Socket, bytes: seq<byte>) returns (r: int)
    modifies sock`sent
    ensures r == 0 || r == -1
    ensures r == 0 ==> sock.sent == old(sock.sent) + bytes
    ensures exists k :: 0 <= k <= |bytes| && sock.sent == old(sock.sent) + bytes[..k]
    ensures sock.reliable ==> r == 0
  {
    var done := 0;
    while done < |bytes|
      invariant 0 <= done <= |bytes| && sock.sent == old(sock.sent) + bytes[..done]
      decreases |bytes| - done
    {
      var n := sock.Send(bytes[done..]);
      if n < 0 {
        return -1;
      }
      if n == 0 {
        return -1;
      }
      assert bytes[..done] + bytes[done..][..n] == bytes[..done + n];
      done := done + n;
    }
    return 0;
  }

  /** recv_exact: the next `need` bytes of the stream, however they arrive. */
  method RecvExact(sock: Socket, buf: array<byte>, at: nat, need: nat) returns (r: int)
    requires at + need <= buf.Length
    modifies sock`incoming, buf
    ensures r == 0 || r == -1
    ensures r == 0 ==> need <= |old(sock.incoming)| && sock.incoming == old(sock.incoming)[need..]
    ensures r == 0 ==> buf[..at] == old(buf[..at]) && buf[at..at + need] == old(sock.incoming)[..need]
    ensures sock.reliable && need <= |old(sock.incoming)| ==> r == 0
  {
    var got := 0;
    ghost var stream := sock.incoming;
    while got < need
      invariant 0 <= got <= need && got <= |stream| && sock.incoming == stream[got..]
      invariant buf[..at] == old(buf[..at]) && buf[at..at + got] == stream[..got]
      decreases need - got
    {
      ghost var before := buf[..at + got];
      var n := sock.Recv(buf, at + got, need - got);
      if n < 0 {
        return -1;
      }
      if n == 0 {
        return -1;
      }
      assert buf[..at + got] == before;
      assert buf[at..at + got + n] == buf[at..at + got] + buf[at + got..at + got + n];
      assert buf[at..at + got] == before[at..] && buf[..at] == before[..at];
      assert stream[..got] + stream[got..][..n] == stream[..got + n];
      got := got + n;
    }
    return 0;
  }

  /** client_net_recv_msg: exactly one frame is taken off the stream. */
  method RecvMsg(sock: Socket, buf: array<byte>) returns (r: int, len: nat)
    requires buf.Length >= CHAT_MAX_MSG_SIZE
    modifies sock`incoming, buf
    ensures r == 0 || r == -1
    ensures r == 0 ==> HasFrame(old(sock.incoming)) && len == FrameLen(old(sock.incoming))
    ensures r == 0 ==> buf[..len] == old(sock.incoming)[..len] && sock.incoming == old(sock.incoming)[len..]
    ensures sock.reliable && HasFrame(old(sock.incoming)) ==> r == 0
  {
    ghost var stream := sock.incoming;
    len := 0;
    r := RecvExact(sock, buf, 0, 2);
    if r != 0 {
      return -1, 0;
    }
    assert buf[0..2] == stream[..2];
    assert buf[1] == buf[0..2][1] == stream[1];
    var payload := buf[1] as nat;
    if payload > 0 {
      r := RecvExact(sock, buf, 2, payload);
      if r != 0 {
        return -1, 0;
      }
      assert stream[2..][..payload] == stream[2..2 + payload];
      assert buf[..2 + payload] == buf[..2] + buf[2..2 + payload];
      assert stream[..2 + payload] == stream[..2] + stream[2..2 + payload];
    }
    return 0, 2 + payload;
  }
}

/** The list of groups a client has windows for. */
module ClientGroups {
  import opened ChatTypes
  import opened GenDlist
  import opened NameLists
  import opened ClientModel

  /** The entries of the list, by name; the process ids stored beside them are not modelled. */
  class ClientGroupsMng {
    const groups: List<Name>

    ghost predicate Valid()
      reads groups, groups.ring
    {
      groups.Valid()
    }

    constructor ()
      ensures Valid() && fresh(groups.Footprint()) && groups.items == []
    {
      groups := new List<Name>();
    }

    /** client_groups_mng_on_join; `windows` says whether the windows and the entry could
        be made, `node` whether the list node could be allocated. */
    method JoinEntry(group: Name, windows: bool, node: bool) returns (r: int)
      requires Valid()
      modifies groups, groups.ring
      ensures Valid() && fresh(groups.Footprint() - old(groups.Footprint()))
      ensures groups.items == OnJoin(old(groups.items), group, windows && node)
      ensures r == if group in old(groups.items) || !(windows && node) then -1 else 0
    {
      ghost var k;
      var itr;
      itr, k := FindName(groups, group);
      var end := groups.ItrEnd();
      if itr != end {
        return -1;
      }
      if !windows {
        return -1;
      }
      var pushed := groups.PushTail(Trunc(group), node);
      return if pushed == null then -1 else 0;
    }

    method LeaveEntry(group: Name)
      requires Valid()
      modifies groups, groups.ring
      ensures Valid() && groups.Footprint() <= old(groups.Footprint())
      ensures groups.items == OnLeave(old(groups.items), group)
    {
      var _ := RemoveName(groups, group);
    }

    method Clear()
      requires Valid()
      modifies groups, groups.ring
      ensures Valid() && groups.Footprint() <= old(groups.Footprint())
      ensures groups.items == []
    {
      var e := groups.PopHead();
      while e.Some?
        invariant Valid() && forall i :: 0 <= i < |groups.ring| ==> groups.ring[i] in old(groups.ring)
        invariant e == None ==> groups.items == []
        decreases |groups.items|, if e.Some? then 1 else 0
      {
        e := groups.PopHead();
      }
    }
  }
}

/** The client's state machine: one blocking exchange per call. */
module ClientManager {
  import opened ChatTypes
  import opened Framing
  import opened Protocol
  import opened ProtocolBuffers
  import opened ClientNet
  import opened ClientGroups
  import opened ClientModel

  class ClientMng {
    const sock: Socket
    const groups: ClientGroupsMng
    var loggedIn: bool
    var username: Name

    ghost predicate Valid()
      reads groups.groups, groups.groups.ring
    {
      groups.Valid()
    }

    ghost function View(): Client
      reads this, groups.groups
    {
      Client(loggedIn, username, groups.groups.items)
    }

    constructor (sock: Socket)
      ensures Valid() && this.sock == sock && fresh(groups) && fresh(groups.groups.Footprint()) && View() == FRESH_CLIENT
    {
      this.sock := sock;
      groups := new ClientGroupsMng();
      loggedIn, username := false, [];
    }

    /** What the exchange for a request yields. When the transport is reliable and the
        stream starts with a reply, the request left and the reply's status came back; over
        any other transport either that happened or the status is PROTOCOL. */
    ghost predicate Exchanged(req: Request, sent: seq<byte>, incoming: seq<byte>, status: Status)
      reads sock
    {
      if EncodeRequest(req) == None then status == ST_ERR_PROTOCOL && sock.sent == sent && sock.incoming == incoming
      else if sock.reliable && HasFrame(incoming) then
        Completed(req, sent, incoming, status)
      else
        status == ST_ERR_PROTOCOL || (HasFrame(incoming) && Completed(req, sent, incoming, status))
    }

    ghost predicate Completed(req: Request, sent: seq<byte>, incoming: seq<byte>, status: Status)
      requires EncodeRequest(req).Some? && HasFrame(incoming)
      reads sock
    {
      && status == StatusFrom(req, incoming[..FrameLen(incoming)])
      && sock.sent == sent + EncodeRequest(req).value
      && sock.incoming == incoming[FrameLen(incoming)..]
    }

    /** The address handed to the caller is the one in the reply. */
    ghost predicate HandedOver(req: Request, incoming: seq<byte>, addr: Mcast)
      reads sock
    {
      EncodeRequest(req).Some? && sock.reliable && HasFrame(incoming) && AddressFrom(req, incoming[..FrameLen(incoming)]).Some? ==>
        AddressFrom(req, incoming[..FrameLen(incoming)]) == Some(addr)
    }

    /** Sends a frame that was encoded into `buf` and waits for one reply frame. */
    method Exchange(buf: array<byte>, n: nat) returns (ok: bool, len: nat)
      requires n <= buf.Length && buf.Length >= CHAT_MAX_MSG_SIZE
      modifies sock, buf
      ensures ok ==> HasFrame(old(sock.incoming)) && len == FrameLen(old(sock.incoming)) <= buf.Length
      ensures ok ==> buf[..len] == old(sock.incoming)[..len] && sock.incoming == old(sock.incoming)[len..]
      ensures ok ==> sock.sent == old(sock.sent) + old(buf[..n])
      ensures sock.reliable && HasFrame(old(sock.incoming)) ==> ok
    {
      len := 0;
      var r := SendAll(sock, buf[..n]);
      if r != 0 {
        return false, 0;
      }
      r, len := RecvMsg(sock, buf);
      ok := r == 0;
    }

    method DoUserPass(op: byte, user: Name, pass: Name, ghost req: Request) returns (status: Status)
      requires EncodeRequest(req) == EncodeUserPass(op, user, pass) && (req.Register? || req.Login?)
      modifies sock
      ensures Exchanged(req, old(sock.sent), old(sock.incoming), status)
    {
      var buf := new byte[CHAT_MAX_MSG_SIZE];
      var n := EncodeUserPassReq(buf, op, user, pass);
      if n < 0 {
        return ST_ERR_PROTOCOL;
      }
      var ok, len := Exchange(buf, n);
      if !ok {
        return ST_ERR_PROTOCOL;
      }
      var r;
      r, status := DecodeStatusRep(buf, len);
      if r != 0 {
        return ST_ERR_PROTOCOL;
      }
    }

    method DoGroupJoin(op: byte, group: Name, ghost req: Request) returns (status: Status, addr: Mcast)
      requires EncodeRequest(req) == EncodeGroupname(op, group) && (req.Create? || req.Join?)
      modifies sock
      ensures Exchanged(req, old(sock.sent), old(sock.incoming), status)
      ensures HandedOver(req, old(sock.incoming), addr)
    {
      addr := Mcast([], 0);
      var buf := new byte[CHAT_MAX_MSG_SIZE];
      var ip := new byte[CHAT_MAX_IP_STR_LEN](_ => 0);
      var n := EncodeGroupnameReq(buf, op, group);
      if n < 0 {
        return ST_ERR_PROTOCOL, addr;
      }
      var ok, len := Exchange(buf, n);
      if !ok {
        return ST_ERR_PROTOCOL, addr;
      }
      var r, port;
      r, status, port := DecodeGroupRepOk(buf, len, ip);
      if r != 0 {
        return ST_ERR_PROTOCOL, addr;
      }
      addr := Mcast(CStr(ip[..]), port);
    }

    method Register(user: Name, pass: Name) returns (status: Status)
      requires Valid()
      modifies sock
      ensures Valid()
      ensures Exchanged(ChatTypes.Register(user, pass), old(sock.sent), old(sock.incoming), status)
      ensures View() == Update(old(View()), ChatTypes.Register(user, pass), status, true)
    {
      status := DoUserPass(OP_REG_REQ, user, pass, ChatTypes.Register(user, pass));
    }

    method Login(user: Name, pass: Name) returns (status: Status)
      requires Valid()
      modifies this, sock
      ensures Valid()
      ensures Exchanged(ChatTypes.Login(user, pass), old(sock.sent), old(sock.incoming), status)
      ensures View() == Update(old(View()), ChatTypes.Login(user, pass), status, true)
    {
      status := DoUserPass(OP_LOGIN_REQ, user, pass, ChatTypes.Login(user, pass));
      if status == ST_OK {
        loggedIn := true;
        username := Trunc(user);
      }
    }

    method Logout() returns (status: Status)
      requires Valid()
      modifies this, groups.groups, groups.groups.ring, sock
      ensures Valid() && fresh(groups.groups.Footprint() - old(groups.groups.Footprint()))
      ensures Exchanged(ChatTypes.Logout, old(sock.sent), old(sock.incoming), status)
      ensures View() == Update(old(View()), ChatTypes.Logout, status, true)
    {
      var buf := new byte[CHAT_MAX_MSG_SIZE];
      buf[0] := OP_LOGOUT_REQ;
      buf[1] := 0;
      assert buf[..2] == LOGOUT_FRAME;
      var ok, len := Exchange(buf, 2);
      if !ok {
        return ST_ERR_PROTOCOL;
      }
      var r;
      r, status := DecodeStatusRep(buf, len);
      if r != 0 {
        return ST_ERR_PROTOCOL;
      }
      if status == ST_OK {
        groups.Clear();
        loggedIn := false;
        username := [];
      }
    }

    method CreateGroup(group: Name, windows: bool, node: bool) returns (status: Status, addr: Mcast)
      requires Valid()
      modifies groups.groups, groups.groups.ring, sock
      ensures Valid() && fresh(groups.groups.Footprint() - old(groups.groups.Footprint()))
      ensures Exchanged(ChatTypes.Create(group), old(sock.sent), old(sock.incoming), status)
      ensures HandedOver(ChatTypes.Create(group), old(sock.incoming), addr)
      ensures View() == Update(old(View()), ChatTypes.Create(group), status, windows && node)
    {
      status, addr := DoGroupJoin(OP_CREATE_GROUP_REQ, group, ChatTypes.Create(group));
      if status == ST_OK {
        var _ := groups.JoinEntry(group, windows, node);
      }
    }

    method JoinGroup(group: Name, windows: bool, node: bool) returns (status: Status, addr: Mcast)
      requires Valid()
      modifies groups.groups, groups.groups.ring, sock
      ensures Valid() && fresh(groups.groups.Footprint() - old(groups.groups.Footprint()))
      ensures Exchanged(ChatTypes.Join(group), old(sock.sent), old(sock.incoming), status)
      ensures HandedOver(ChatTypes.Join(group), old(sock.incoming), addr)
      ensures View() == Update(old(View()), ChatTypes.Join(group), status, windows && node)
    {
      status, addr := DoGroupJoin(OP_JOIN_GROUP_REQ, group, ChatTypes.Join(group));
      if status == ST_OK {
        var _ := groups.JoinEntry(group, windows, node);
      }
    }

    method LeaveGroup(group: Name) returns (status: Status)
      requires Valid()
      modifies groups.groups, groups.groups.ring, sock
      ensures Valid() && fresh(groups.groups.Footprint() - old(groups.groups.Footprint()))
      ensures Exchanged(ChatTypes.Leave(group), old(sock.sent), old(sock.incoming), status)
      ensures View() == Update(old(View()), ChatTypes.Leave(group), status, true)
    {
      var buf := new byte[CHAT_MAX_MSG_SIZE];
      var n := EncodeGroupnameReq(buf, OP_LEAVE_GROUP_REQ, group);
      if n < 0 {
        return ST_ERR_PROTOCOL;
      }
      var ok, len := Exchange(buf, n);
      if !ok {
        return ST_ERR_PROTOCOL;
      }
      var r;
      r, status := DecodeStatusRep(buf, len);
      if r != 0 {
        return ST_ERR_PROTOCOL;
      }
      if status == ST_OK {
        groups.LeaveEntry(group);
      }
    }
  }
}
