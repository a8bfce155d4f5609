/** Client and server together: after every completed call the client's mirror agrees
    with the server's session on its socket. */
module Lockstep {
  import opened ChatTypes
  import opened Protocol
  import opened McastAddresses
  import opened UserState
  import opened ServerState
  import opened ServerInvariant
  import opened Reference
  import opened Runs
  import opened RunProperties
  import opened NetState
  import opened NetProperties
  import opened ClientModel

  /** One synchronous call over a reliable transport: encode, let the server handle the
      frame, decode its reply, update. The last two results are what the caller is told:
      the status and, for a successful create or join, the address. A call the encoder
      refuses never leaves the client. */
  function Call(c: Client, s: Server, fd: int, req: Request, windows: bool, mem: nat -> Mem)
    : (r: (Client, Server, Status, Option<Mcast>))
    requires Linked(s.users)
    ensures Linked(r.1.users)
  {
    match EncodeRequest(req)
    case None => (c, s, ST_ERR_PROTOCOL, None)
    case Some(frame) =>
      var (s', answer) := Deliver(s, fd, frame, mem);
      var sent := Post(fd, frame, answer);
      if sent == [] then (c, s', ST_ERR_PROTOCOL, None)
      else
        var status := StatusFrom(req, sent[0].bytes);
        (Update(c, req, status, windows), s', status, AddressFrom(req, sent[0].bytes))
  }

  /** The mirror invariant for the client connected on `fd`. */
  ghost predicate InStep(c: Client, us: Users, fd: int) {
    && Linked(us)
    && (c.loggedIn <==> fd in us.bySocket)
    && (c.loggedIn ==>
         && c.username == us.bySocket[fd]
         && NoDup(c.groups)
         && forall g :: g in c.groups ==> g in us.byName[us.bySocket[fd]].joined)
    && (!c.loggedIn ==> c.username == [] && c.groups == [])
  }

  /** With every window opened, the two lists are the same, order included. */
  ghost predicate Mirrored(c: Client, us: Users, fd: int) {
    InStep(c, us, fd) && (c.loggedIn ==> c.groups == us.byName[us.bySocket[fd]].joined)
  }

  /** The transport delivers the handler's status and address unchanged. */
  lemma CallTransportsStatus(c: Client, s: Server, all: set<Mcast>, fd: int, req: Request, windows: bool, mem: nat -> Mem)
    requires Inv(s, all) && AllFit(all) && fd >= 0 && Fits(req) && NulFreeRequest(req)
    ensures var (s', reply) := Serve(s, fd, req, mem(s.tick));
            Call(c, s, fd, req, windows, mem)
            == (Update(c, req, StatusOf(reply), windows), s'.(tick := s.tick + 1), StatusOf(reply),
                if reply.Granted? then Some(reply.addr) else None)
  {
    RequestRoundTrip(req);
    var frame := EncodeRequest(req).value;
    WellFormedIffDecodes(frame);
    OneReplyPerRequest(s, all, fd, frame, mem);
    var reply := Serve(s, fd, req, mem(s.tick)).1;
    StatusOnly(s, fd, req, mem(s.tick));
    if reply.Plain? {
      StatusRoundTrip(OpcodeOf(req) + 1, reply.status);
    }
  }

  /** Only create and join are answered with an address, and they succeed in no other way. */
  lemma StatusOnly(s: Server, fd: int, req: Request, mem: Mem)
    requires Linked(s.users)
    ensures Serve(s, fd, req, mem).1.Granted? ==> req.Create? || req.Join?
    ensures req.Create? || req.Join? ==> Serve(s, fd, req, mem).1 != Plain(ST_OK)
  {
  }

  /** What a call does to the tracked groups: a group entered with its windows open is added
      at the end, a group left is dropped, a logout forgets all; any call that fails, and
      any entry whose windows do not open, leaves them as they were. */
  lemma CallTracks(c: Client, s: Server, all: set<Mcast>, fd: int, req: Request, windows: bool, mem: nat -> Mem)
    requires Inv(s, all) && AllFit(all) && fd >= 0 && Fits(req) && NulFreeRequest(req)
    ensures var (c', _, status, _) := Call(c, s, fd, req, windows, mem);
            && (status != 0 ==> c' == c)
            && ((req.Create? || req.Join?) && status == 0 ==>
                  c'.groups == if windows && req.group !in c.groups then c.groups + [req.group] else c.groups)
            && (req.Leave? && status == 0 ==> c'.groups == RemoveFirst(c.groups, req.group))
            && (req.Logout? && status == 0 ==> c'.groups == [])
            && ((req.Register? || req.Login?) ==> c'.groups == c.groups)
  {
    CallTransportsStatus(c, s, all, fd, req, windows, mem);
  }

  /** A client that entered a group was told the address at which the group lives. */
  lemma CallTellsAddress(c: Client, s: Server, all: set<Mcast>, fd: int, req: Request, windows: bool, mem: nat -> Mem)
    requires Inv(s, all) && AllFit(all) && fd >= 0 && Fits(req) && NulFreeRequest(req) && (req.Create? || req.Join?)
    ensures var (_, s', status, told) := Call(c, s, fd, req, windows, mem);
            if status == ST_OK then req.group in s'.groups.byName && told == Some(s'.groups.byName[req.group].addr)
            else told == None
  {
    CallTransportsStatus(c, s, all, fd, req, windows, mem);
    StatusOnly(s, fd, req, mem(s.tick));
    var reply := Serve(s, fd, req, mem(s.tick)).1;
    if reply.Granted? {
      ServeRefines(s, all, fd, req, mem(s.tick));
      AskGrantsTheAddress(Abs(s), fd, req, Decide(s, req, mem(s.tick)), req.group);
      assert Abs(Serve(s, fd, req, mem(s.tick)).0).rooms[req.group].addr == reply.addr;
    }
  }

  /** The server half of a successful call, and the client's update for it, keep step. */
  lemma ServeKeepsStep(c: Client, s: Server, all: set<Mcast>, fd: int, req: Request, windows: bool, mem: Mem)
    requires Inv(s, all) && InStep(c, s.users, fd) && Fits(req)
    ensures var (s', reply) := Serve(s, fd, req, mem);
            InStep(Update(c, req, StatusOf(reply), windows), s'.users, fd)
    ensures var (s', reply) := Serve(s, fd, req, mem);
            Mirrored(c, s.users, fd) && windows ==> Mirrored(Update(c, req, StatusOf(reply), windows), s'.users, fd)
  {
    match req
    case Register(_, _) =>
    case Login(_, _) =>
    case Logout =>
    case Create(g) => CreateKeepsStep(c, s, fd, g, windows, mem);
    case Join(g) => JoinKeepsStep(c, s, fd, g, windows, mem);
    case Leave(g) => LeaveKeepsStep(c, s, all, fd, g, mem);
  }

  lemma UserJoinKeepsStep(c: Client, us: Users, fd: int, g: Name, windows: bool, mem: Mem)
    requires InStep(c, us, fd) && |g| <= CHAT_MAX_NAME_LEN && JoinUser(us, fd, g, mem).1 == ST_OK
    ensures InStep(c.(groups := OnJoin(c.groups, g, windows)), JoinUser(us, fd, g, mem).0, fd)
    ensures Mirrored(c, us, fd) && windows ==>
              Mirrored(c.(groups := OnJoin(c.groups, g, windows)), JoinUser(us, fd, g, mem).0, fd)
  {
  }

  lemma CreateKeepsStep(c: Client, s: Server, fd: int, g: Name, windows: bool, mem: Mem)
    requires Linked(s.users) && InStep(c, s.users, fd) && |g| <= CHAT_MAX_NAME_LEN
    ensures var (s', reply) := ServeCreate(s, fd, g, mem);
            InStep(Update(c, Create(g), StatusOf(reply), windows), s'.users, fd)
            && (Mirrored(c, s.users, fd) && windows ==> Mirrored(Update(c, Create(g), StatusOf(reply), windows), s'.users, fd))
  {
    if JoinUser(s.users, fd, g, mem).1 == ST_OK {
      UserJoinKeepsStep(c, s.users, fd, g, windows, mem);
    }
  }

  lemma JoinKeepsStep(c: Client, s: Server, fd: int, g: Name, windows: bool, mem: Mem)
    requires Linked(s.users) && InStep(c, s.users, fd) && |g| <= CHAT_MAX_NAME_LEN
    ensures var (s', reply) := ServeJoin(s, fd, g, mem);
            InStep(Update(c, Join(g), StatusOf(reply), windows), s'.users, fd)
            && (Mirrored(c, s.users, fd) && windows ==> Mirrored(Update(c, Join(g), StatusOf(reply), windows), s'.users, fd))
  {
    if JoinUser(s.users, fd, g, mem).1 == ST_OK {
      UserJoinKeepsStep(c, s.users, fd, g, windows, mem);
    }
  }

  /** The group manager never refuses a leave the user manager accepted. */
  lemma LeaveStatus(s: Server, all: set<Mcast>, fd: int, g: Name, mem: Mem)
    requires Inv(s, all)
    ensures ServeLeave(s, fd, g, mem).1 == Plain(LeaveUser(s.users, fd, g).1)
    ensures ServeLeave(s, fd, g, mem).0.users == LeaveUser(s.users, fd, g).0
  {
    if FdInRange(fd) && fd in s.users.bySocket && g in s.users.byName[s.users.bySocket[fd]].joined {
      assert g in s.groups.byName;
    }
  }

  lemma UserLeaveKeepsStep(c: Client, us: Users, fd: int, g: Name)
    requires InStep(c, us, fd) && fd in us.bySocket && NoDup(us.byName[us.bySocket[fd]].joined)
    requires g in us.byName[us.bySocket[fd]].joined && FdInRange(fd)
    ensures InStep(c.(groups := OnLeave(c.groups, g)), LeaveUser(us, fd, g).0, fd)
    ensures Mirrored(c, us, fd) ==> Mirrored(c.(groups := OnLeave(c.groups, g)), LeaveUser(us, fd, g).0, fd)
  {
    RemoveFirstRemoves(c.groups, g);
    RemoveFirstRemoves(us.byName[us.bySocket[fd]].joined, g);
  }

  lemma LeaveKeepsStep(c: Client, s: Server, all: set<Mcast>, fd: int, g: Name, mem: Mem)
    requires Inv(s, all) && InStep(c, s.users, fd)
    ensures var (s', reply) := ServeLeave(s, fd, g, mem);
            InStep(Update(c, Leave(g), StatusOf(reply), true), s'.users, fd)
            && (Mirrored(c, s.users, fd) ==> Mirrored(Update(c, Leave(g), StatusOf(reply), true), s'.users, fd))
  {
    LeaveStatus(s, all, fd, g, mem);
    if LeaveUser(s.users, fd, g).1 == ST_OK {
      UserLeaveKeepsStep(c, s.users, fd, g);
    }
  }

  // ----- any number of calls, with anything happening on other sockets in between

  datatype Turn = Mine(req: Request, windows: bool) | Other(ev: Event)

  function PlayTurn(c: Client, s: Server, fd: int, turn: Turn, mem: nat -> Mem): (r: (Client, Server))
    requires Linked(s.users)
    ensures Linked(r.1.users)
  {
    match turn
    case Mine(req, windows) =>
      var (c', s', _, _) := Call(c, s, fd, req, windows, mem);
      (c', s')
    case Other(ev) => (c, Step(s, ev, mem).0)
  }

  function Play(c: Client, s: Server, fd: int, turns: seq<Turn>, mem: nat -> Mem): (r: (Client, Server))
    requires Linked(s.users)
    ensures Linked(r.1.users)
    decreases |turns|
  {
    if turns == [] then (c, s)
    else
      var (c', s') := PlayTurn(c, s, fd, turns[0], mem);
      Play(c', s', fd, turns[1..], mem)
  }

  /** What the server is given in the course of the turns. */
  function TurnEvents(turns: seq<Turn>, fd: int): seq<Event> {
    if turns == [] then []
    else
      var rest := TurnEvents(turns[1..], fd);
      match turns[0]
      case Mine(req, _) => if EncodeRequest(req) == None then rest else [Message(fd, EncodeRequest(req).value)] + rest
      case Other(ev) => [ev] + rest
  }

  /** Behind the turns the server performs a run: the client's frames and all the other
      events, in order, nothing left out. */
  lemma {:induction false} PlayIsRun(c: Client, s: Server, fd: int, turns: seq<Turn>, mem: nat -> Mem)
    requires Linked(s.users)
    ensures Play(c, s, fd, turns, mem).1 == Run(s, TurnEvents(turns, fd), mem).0
    decreases |turns|
  {
    if turns != [] {
      var (c', s') := PlayTurn(c, s, fd, turns[0], mem);
      PlayIsRun(c', s', fd, turns[1..], mem);
    }
  }

  ghost predicate FairTurns(turns: seq<Turn>, fd: int) {
    forall k :: 0 <= k < |turns| ==>
      match turns[k]
      case Mine(req, _) => NulFreeRequest(req)
      case Other(ev) => ev.fd != fd
  }

  lemma CallKeepsStep(c: Client, s: Server, all: set<Mcast>, fd: int, req: Request, windows: bool, mem: nat -> Mem)
    requires Inv(s, all) && AllFit(all) && fd >= 0 && NulFreeRequest(req) && InStep(c, s.users, fd)
    ensures var (c', s', _, _) := Call(c, s, fd, req, windows, mem);
            && Inv(s', all) && InStep(c', s'.users, fd)
            && (Mirrored(c, s.users, fd) && windows ==> Mirrored(c', s'.users, fd))
  {
    if EncodeRequest(req).Some? {
      assert Fits(req);
      CallTransportsStatus(c, s, all, fd, req, windows, mem);
      ServeInv(s, all, fd, req, mem(s.tick));
      ServeKeepsStep(c, s, all, fd, req, windows, mem(s.tick));
    }
  }

  lemma OtherKeepsStep(c: Client, s: Server, all: set<Mcast>, fd: int, ev: Event, mem: nat -> Mem)
    requires Inv(s, all) && ev.fd != fd && InStep(c, s.users, fd)
    ensures InStep(c, Step(s, ev, mem).0.users, fd)
    ensures Mirrored(c, s.users, fd) ==> Mirrored(c, Step(s, ev, mem).0.users, fd)
  {
    OtherSocketsUntouched(s, ev, mem, fd);
  }

  /** Lockstep: whatever calls the client makes and whatever other clients do, the
      client's login state and user name are the server's session on its socket, and
      the groups it tracks are duplicate-free and joined on the server; if every window
      opens, the tracked list is the server's list. */
  lemma {:induction false} StayInStep(c: Client, s: Server, all: set<Mcast>, fd: int, turns: seq<Turn>, mem: nat -> Mem)
    requires Inv(s, all) && AllFit(all) && fd >= 0 && InStep(c, s.users, fd) && FairTurns(turns, fd)
    ensures var (c', s') := Play(c, s, fd, turns, mem);
            InStep(c', s'.users, fd) && Inv(s', all)
    ensures Mirrored(c, s.users, fd) && (forall k :: 0 <= k < |turns| && turns[k].Mine? ==> turns[k].windows) ==>
              Mirrored(Play(c, s, fd, turns, mem).0, Play(c, s, fd, turns, mem).1.users, fd)
    decreases |turns|
  {
    if turns != [] {
      assert FairTurns(turns[1..], fd);
      match turns[0]
      case Mine(req, windows) =>
        CallKeepsStep(c, s, all, fd, req, windows, mem);
        var (c', s', _, _) := Call(c, s, fd, req, windows, mem);
        StayInStep(c', s', all, fd, turns[1..], mem);
      case Other(ev) =>
        StepInv(s, all, ev, mem);
        OtherKeepsStep(c, s, all, fd, ev, mem);
        StayInStep(c, Step(s, ev, mem).0, all, fd, turns[1..], mem);
    }
  }

  /** A client that has just connected is in step: its descriptor has no session. */
  lemma FreshClientInStep(s: Server, all: set<Mcast>, fd: int)
    requires Inv(s, all) && fd !in s.users.bySocket
    ensures Mirrored(FRESH_CLIENT, s.users, fd)
  {
  }

  /** From start-up on: whatever happened before a client was accepted, it stays in step
      with the server for as long as it is connected. */
  lemma ConnectedStaysInStep(listenFd: int, made: nat -> bool, before: seq<NetEvent>, newFd: int, turns: seq<Turn>, mem: nat -> Mem)
    requires FdInRange(listenFd) && HonestRun(InitialNet(listenFd, made), before, mem)
    requires newFd != -1 && OsHonest(NetRun(InitialNet(listenFd, made), before, mem), Accept(newFd))
    requires FairTurns(turns, newFd)
    ensures var net := NetStep(NetRun(InitialNet(listenFd, made), before, mem), Accept(newFd), mem);
            var (c, s) := Play(FRESH_CLIENT, net.server, newFd, turns, mem);
            && InStep(c, s.users, newFd)
            && ((forall k :: 0 <= k < |turns| && turns[k].Mine? ==> turns[k].windows) ==> Mirrored(c, s.users, newFd))
  {
    var net := NetRun(InitialNet(listenFd, made), before, mem);
    ReachableNetInv(listenFd, made, before, mem);
    AcceptedHasNoSession(net, AllAddresses(), newFd);
    NetStepInv(net, AllAddresses(), Accept(newFd), mem);
    AllAddressesFit();
    var s := NetStep(net, Accept(newFd), mem).server;
    FreshClientInStep(s, AllAddresses(), newFd);
    StayInStep(FRESH_CLIENT, s, AllAddresses(), newFd, turns, mem);
  }
}
