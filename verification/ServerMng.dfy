/** The dispatcher: one handler per request, working on both managers. */
module ServerManager {
  import opened ChatTypes
  import opened Protocol
  import opened ProtocolBuffers
  import opened UserState
  import opened ServerState
  import opened Runs
  import opened FreeMcQueue
  import opened GroupManager
  import opened UserManager

  class ServerMng {
    const users: UserMng
    const groups: GroupMng
    const mem: nat -> Mem // allocation outcomes, request by request
    var tick: nat
    var out: seq<Sent>    // everything handed to ServerNet_SendMessage so far

    ghost function Repr(): set<object>
      reads this, users, groups
    {
      {this} + users.Repr + groups.Repr
    }

    ghost predicate Valid()
      reads this, users, groups, users.Repr, groups.Repr
    {
      users.Valid() && groups.Valid() && users.Repr !! groups.Repr && this !in users.Repr && this !in groups.Repr
    }

    ghost function View(): Server
      reads this, users, groups
    {
      Server(users.model, groups.model, tick)
    }

    constructor (made: nat -> bool, mem: nat -> Mem)
      ensures Valid() && fresh(Repr()) && View() == Init(made) && out == [] && this.mem == mem
    {
      var pool := new FreeMcQueue(made);
      groups := new GroupMng(pool);
      users := new UserMng();
      this.mem := mem;
      tick, out := 0, [];
    }

    // ----- replies

    /** ServerNet_SendMessage: the bytes are handed over, unless the descriptor is invalid. */
    method SendMessage(fd: int, buf: array<byte>, len: nat)
      requires 0 < len <= buf.Length
      modifies this`out
      ensures out == old(out) + if fd < 0 then [] else [Sent(fd, buf[..len])]
    {
      if 0 > fd {
        return;
      }
      out := out + [Sent(fd, buf[..len])];
    }

    method SendReply(fd: int, op: byte, reply: Reply)
      modifies this`out
      ensures out == old(out) + Posted(fd, op, reply)
    {
      var repBuf := new byte[CHAT_MAX_MSG_SIZE];
      var repLen;
      match reply {
        case Plain(status) =>
          repLen := EncodeStatusRep(repBuf, op, status);
        case Granted(addr) =>
          repLen := EncodeGroupRepOk(repBuf, op, addr.ip, addr.port);
      }
      if repLen > 0 {
        SendMessage(fd, repBuf, repLen);
      }
    }

    // ----- transactions over both managers

    /** The second half of create and join: record the membership, or undo the first half. */
    method Enroll(fd: int, group: Name) returns (status: Status)
      requires Valid()
      modifies users.Repr, groups.Repr
      ensures Valid() && fresh(Repr() - old(Repr()))
      ensures (users.model, status) == JoinUser(old(users.model), fd, group, mem(tick))
      ensures groups.model == if status == ST_OK then old(groups.model)
                              else GroupState.LeaveGroup(old(groups.model), group, mem(tick)).0
    {
      status := users.JoinGroup(fd, group, mem(tick));
      if status != ST_OK {
        var _ := groups.LeaveGroup(group, mem(tick));
      }
    }

    method CreateFor(fd: int, group: Name) returns (reply: Reply)
      requires Valid()
      modifies users.Repr, groups.Repr
      ensures Valid() && fresh(Repr() - old(Repr()))
      ensures (View(), reply) == ServeCreate(old(View()), fd, group, mem(tick))
    {
      var loggedIn := users.IsLoggedIn(fd);
      if !loggedIn {
        return Plain(ST_ERR_NOT_LOGGED_IN);
      }
      var status, newGroup := groups.CreateGroup(group, mem(tick));
      if status != ST_OK {
        return Plain(status);
      }
      var joined := Enroll(fd, group);
      if joined != ST_OK {
        return Plain(ST_ERR_SERVER_FULL);
      }
      return Granted(newGroup.addr);
    }

    method JoinFor(fd: int, group: Name) returns (reply: Reply)
      requires Valid()
      modifies users.Repr, groups.Repr
      ensures Valid() && fresh(Repr() - old(Repr()))
      ensures (View(), reply) == ServeJoin(old(View()), fd, group, mem(tick))
    {
      var loggedIn := users.IsLoggedIn(fd);
      if !loggedIn {
        return Plain(ST_ERR_NOT_LOGGED_IN);
      }
      reply := JoinLoggedIn(fd, group);
    }

    method JoinLoggedIn(fd: int, group: Name) returns (reply: Reply)
      requires Valid() && UserState.IsLoggedIn(users.model, fd)
      modifies users.Repr, groups.Repr
      ensures Valid() && fresh(Repr() - old(Repr()))
      ensures (View(), reply) == ServeJoin(old(View()), fd, group, mem(tick))
    {
      var status, target := groups.JoinGroup(group);
      if status != ST_OK {
        return Plain(status);
      }
      var userStatus := Enroll(fd, group);
      if userStatus == ST_OK {
        return Granted(target.addr);
      }
      return Plain(userStatus);
    }

    method LeaveFor(fd: int, group: Name) returns (status: Status)
      requires Valid()
      modifies users.Repr, groups.Repr
      ensures Valid() && fresh(Repr() - old(Repr()))
      ensures (View(), Plain(status)) == ServeLeave(old(View()), fd, group, mem(tick))
    {
      status := users.LeaveGroup(fd, group);
      if status == ST_OK {
        status := groups.LeaveGroup(group, mem(tick));
      }
    }

    method LogoutFor(fd: int) returns (status: Status)
      requires Valid()
      modifies users.Repr, groups.Repr
      ensures Valid() && fresh(Repr() - old(Repr()))
      ensures (View(), status) == LogoutUser(old(View()), fd, mem(tick))
    {
      status := users.Logout(fd, groups, mem(tick));
    }

    /** The body of a handler once its request is decoded: serve it and send the reply. */
    method Answer(fd: int, req: Request)
      requires Valid()
      modifies this`out, users.Repr, groups.Repr
      ensures Valid() && fresh(Repr() - old(Repr())) && tick == old(tick)
      ensures View() == Serve(old(View()), fd, req, mem(tick)).0
      ensures out == old(out) + Posted(fd, OpcodeOf(req) + 1, Serve(old(View()), fd, req, mem(tick)).1)
    {
      var reply;
      match req {
        case Register(user, pass) =>
          var status := users.Register(user, pass, mem(tick));
          reply := Plain(status);
        case Login(user, pass) =>
          var status := users.Login(user, pass, fd);
          reply := Plain(status);
        case Logout =>
          var status := LogoutFor(fd);
          reply := Plain(status);
        case Create(group) =>
          reply := CreateFor(fd, group);
        case Join(group) =>
          reply := JoinFor(fd, group);
        case Leave(group) =>
          var status := LeaveFor(fd, group);
          reply := Plain(status);
      }
      SendReply(fd, OpcodeOf(req) + 1, reply);
    }

    // ----- handlers

    /** What a handler owes for the frame it was given, given the state `s` and the log
        `log` it found: the step of the server, except that the clock is still to tick. */
    ghost predicate Handled(s: Server, log: seq<Sent>, fd: int, frame: seq<byte>)
      requires Linked(s.users)
      reads this, users, groups
    {
      && View().(tick := s.tick + 1) == Deliver(s, fd, frame, mem).0
      && out == log + Post(fd, frame, Deliver(s, fd, frame, mem).1)
      && tick == s.tick
    }

    /** Decoding into a handler's local buffers. */
    method ReadUserPass(msg: array<byte>, len: nat) returns (fields: Option<(Name, Name)>)
      requires len <= msg.Length
      ensures fields == DecodeUserPass(msg[..len])
    {
      var user := new byte[CHAT_MAX_NAME_LEN + 1](_ => 0);
      var pass := new byte[CHAT_MAX_NAME_LEN + 1](_ => 0);
      var r := DecodeUserPassReq(msg, len, user, pass);
      return if r == 0 then Some((CStr(user[..]), CStr(pass[..]))) else None;
    }

    method ReadGroupname(msg: array<byte>, len: nat) returns (group: Option<Name>)
      requires len <= msg.Length
      ensures group == DecodeGroupname(msg[..len])
    {
      var groupName := new byte[CHAT_MAX_NAME_LEN + 1](_ => 0);
      var r := DecodeGroupnameReq(msg, len, groupName);
      return if r == 0 then Some(CStr(groupName[..])) else None;
    }

    method HandleRegisterReq(fd: int, msg: array<byte>, len: nat)
      requires Valid() && 2 <= len <= msg.Length && msg !in Repr() && msg[0] == OP_REG_REQ
      modifies this`out, users.Repr, groups.Repr
      ensures Valid() && fresh(Repr() - old(Repr()))
      ensures Handled(old(View()), old(out), fd, msg[..len])
    {
      var fields := ReadUserPass(msg, len);
      if fields.Some? {
        Answer(fd, Register(fields.value.0, fields.value.1));
      }
    }

    method HandleLoginReq(fd: int, msg: array<byte>, len: nat)
      requires Valid() && 2 <= len <= msg.Length && msg !in Repr() && msg[0] == OP_LOGIN_REQ
      modifies this`out, users.Repr, groups.Repr
      ensures Valid() && fresh(Repr() - old(Repr()))
      ensures Handled(old(View()), old(out), fd, msg[..len])
    {
      var fields := ReadUserPass(msg, len);
      if fields.Some? {
        Answer(fd, Login(fields.value.0, fields.value.1));
      }
    }

    method HandleLogoutReq(fd: int, msg: array<byte>, len: nat)
      requires Valid() && 2 <= len <= msg.Length && msg !in Repr() && msg[0] == OP_LOGOUT_REQ
      modifies this`out, users.Repr, groups.Repr
      ensures Valid() && fresh(Repr() - old(Repr()))
      ensures Handled(old(View()), old(out), fd, msg[..len])
    {
      Answer(fd, Logout);
    }

    method HandleCreateGroupReq(fd: int, msg: array<byte>, len: nat)
      requires Valid() && 2 <= len <= msg.Length && msg !in Repr() && msg[0] == OP_CREATE_GROUP_REQ
      modifies this`out, users.Repr, groups.Repr
      ensures Valid() && fresh(Repr() - old(Repr()))
      ensures Handled(old(View()), old(out), fd, msg[..len])
    {
      var group := ReadGroupname(msg, len);
      if group.Some? {
        Answer(fd, Create(group.value));
      }
    }

    method HandleJoinGroupReq(fd: int, msg: array<byte>, len: nat)
      requires Valid() && 2 <= len <= msg.Length && msg !in Repr() && msg[0] == OP_JOIN_GROUP_REQ
      modifies this`out, users.Repr, groups.Repr
      ensures Valid() && fresh(Repr() - old(Repr()))
      ensures Handled(old(View()), old(out), fd, msg[..len])
    {
      var group := ReadGroupname(msg, len);
      if group.Some? {
        Answer(fd, Join(group.value));
      }
    }

    method HandleLeaveGroupReq(fd: int, msg: array<byte>, len: nat)
      requires Valid() && 2 <= len <= msg.Length && msg !in Repr() && msg[0] == OP_LEAVE_GROUP_REQ
      modifies this`out, users.Repr, groups.Repr
      ensures Valid() && fresh(Repr() - old(Repr()))
      ensures Handled(old(View()), old(out), fd, msg[..len])
    {
      var group := ReadGroupname(msg, len);
      if group.Some? {
        Answer(fd, Leave(group.value));
      }
    }

    /** The dispatcher computes the step of the pure server on the frame received. */
    method HandleMessage(fd: int, msg: array<byte>, len: nat) returns (r: int)
      requires Valid() && len <= msg.Length && msg !in Repr()
      modifies Repr()
      ensures Valid() && fresh(Repr() - old(Repr()))
      ensures View() == Deliver(old(View()), fd, msg[..len], mem).0
      ensures out == old(out) + Post(fd, msg[..len], Deliver(old(View()), fd, msg[..len], mem).1)
      ensures r == if len < 2 then -1 else 0
    {
      if len < 2 {
        tick := tick + 1;
        return -1;
      }
      Dispatch(fd, msg, len);
      tick := tick + 1;
      return 0;
    }

    /** The switch over the opcode. */
    method Dispatch(fd: int, msg: array<byte>, len: nat)
      requires Valid() && 2 <= len <= msg.Length && msg !in Repr()
      modifies this`out, users.Repr, groups.Repr
      ensures Valid() && fresh(Repr() - old(Repr()))
      ensures Handled(old(View()), old(out), fd, msg[..len])
    {
      var op := msg[0];
      if op == OP_REG_REQ {
        HandleRegisterReq(fd, msg, len);
      } else if op == OP_LOGIN_REQ {
        HandleLoginReq(fd, msg, len);
      } else if op == OP_LOGOUT_REQ {
        HandleLogoutReq(fd, msg, len);
      } else if op == OP_CREATE_GROUP_REQ {
        HandleCreateGroupReq(fd, msg, len);
      } else if op == OP_JOIN_GROUP_REQ {
        HandleJoinGroupReq(fd, msg, len);
      } else if op == OP_LEAVE_GROUP_REQ {
        HandleLeaveGroupReq(fd, msg, len);
      }
    }

    method OnDisconnect(fd: int)
      requires Valid()
      modifies Repr()
      ensures Valid() && fresh(Repr() - old(Repr()))
      ensures View() == Disconnect(old(View()), fd, mem) && out == old(out)
    {
      var _ := LogoutFor(fd);
      tick := tick + 1;
    }
  }
}
