/** A client object and a server object talking to each other: the classes perform the
    calls and the plays of the lockstep theorems. */
module Session {
  import opened ChatTypes
  import opened Framing
  import opened Protocol
  import opened McastAddresses
  import opened UserState
  import opened ServerInvariant
  import opened Runs
  import opened RunProperties
  import opened ServerState
  import opened ServerManager
  import opened ClientModel
  import opened ClientNet
  import opened ClientManager
  import opened Lockstep

  /** The client call for a request. */
  method Issue(client: ClientMng, req: Request, windows: bool) returns (status: Status, addr: Mcast)
    requires client.Valid()
    modifies client, client.sock, client.groups.groups, client.groups.groups.ring
    ensures client.Valid() && fresh(client.groups.groups.Footprint() - old(client.groups.groups.Footprint()))
    ensures client.Exchanged(req, old(client.sock.sent), old(client.sock.incoming), status)
    ensures client.HandedOver(req, old(client.sock.incoming), addr)
    ensures client.View() == Update(old(client.View()), req, status, windows)
  {
    addr := Mcast([], 0);
    match req {
      case Register(user, pass) => status := client.Register(user, pass);
      case Login(user, pass) => status := client.Login(user, pass);
      case Logout => status := client.Logout();
      case Create(group) => status, addr := client.CreateGroup(group, windows, true);
      case Join(group) => status, addr := client.JoinGroup(group, windows, true);
      case Leave(group) => status := client.LeaveGroup(group);
    }
  }

  /** A server in a state the theorems speak about. (The trigger keeps what that means
      folded up until it is mentioned.) */
  ghost predicate Healthy(server: ServerMng)
    reads server, server.users, server.groups, server.users.Repr, server.groups.Repr
  {
    Linked(server.View().users) && forall all {:trigger HealthyFor(server, all)} :: all == AllAddresses() ==> HealthyFor(server, all)
  }

  ghost predicate HealthyFor(server: ServerMng, all: set<Mcast>)
    reads server, server.users, server.groups, server.users.Repr, server.groups.Repr
  {
    server.Valid() && Inv(server.View(), all)
  }

  /** A client connected to such a server; folded up in the same way. */
  ghost predicate Connected(client: ClientMng, server: ServerMng)
    reads client, client.sock, client.groups.groups, client.groups.groups.ring
    reads server, server.users, server.groups, server.users.Repr, server.groups.Repr
  {
    && Linked(server.View().users)
    && forall all {:trigger ConnectedFor(client, server, all)} :: all == AllAddresses() ==> ConnectedFor(client, server, all)
  }

  /** Client and server share no object, the line between them is reliable and idle, and
      every address the server may grant fits a reply. */
  ghost predicate ConnectedFor(client: ClientMng, server: ServerMng, all: set<Mcast>)
    reads client, client.sock, client.groups.groups, client.groups.groups.ring
    reads server, server.users, server.groups, server.users.Repr, server.groups.Repr
  {
    && Healthy(server) && AllFit(all)
    && client.Valid() && client.sock.reliable && client.sock.incoming == []
    && client !in server.Repr() && client.sock !in server.Repr() && client.groups.groups.Footprint() !! server.Repr()
  }

  lemma ConnectedInv(client: ClientMng, server: ServerMng)
    requires Connected(client, server)
    ensures Inv(server.View(), AllAddresses()) && AllFit(AllAddresses())
  {
    assert ConnectedFor(client, server, AllAddresses()) && HealthyFor(server, AllAddresses());
  }

  /** The objects a conversation may change. */
  ghost function Objects(client: ClientMng, server: ServerMng): set<object>
    reads client.groups.groups, server, server.users, server.groups
  {
    {client, client.sock} + client.groups.groups.Footprint() + server.Repr()
  }

  /** The server handles a frame that arrived on `fd`; `replies` is what it sent back. */
  method Handle(server: ServerMng, fd: int, frame: seq<byte>) returns (replies: seq<Sent>)
    requires Healthy(server)
    modifies server.Repr()
    ensures Healthy(server) && fresh(server.Repr() - old(server.Repr()))
    ensures server.View() == Deliver(old(server.View()), fd, frame, server.mem).0
    ensures replies == Post(fd, frame, Deliver(old(server.View()), fd, frame, server.mem).1)
  {
    assert HealthyFor(server, AllAddresses());
    StepInv(server.View(), AllAddresses(), Message(fd, frame), server.mem);
    var msg := new byte[|frame|](i requires 0 <= i < |frame| => frame[i]);
    assert msg[..|frame|] == frame;
    var before := |server.out|;
    var _ := server.HandleMessage(fd, msg, |frame|);
    replies := server.out[before..];
  }

  /** The same with a client connected, who notices nothing yet. */
  method HandleBeside(client: ClientMng, server: ServerMng, fd: int, frame: seq<byte>) returns (replies: seq<Sent>)
    requires Connected(client, server)
    modifies server.Repr()
    ensures Connected(client, server) && fresh(server.Repr() - old(server.Repr()))
    ensures client.View() == old(client.View()) && client.sock.sent == old(client.sock.sent)
    ensures client.groups.groups.ring == old(client.groups.groups.ring)
    ensures server.View() == Deliver(old(server.View()), fd, frame, server.mem).0
    ensures replies == Post(fd, frame, Deliver(old(server.View()), fd, frame, server.mem).1)
  {
    assert ConnectedFor(client, server, AllAddresses());
    replies := Handle(server, fd, frame);
  }

  /** What a client call comes to over an idle line on which `reply` arrives: it sends its
      frame and takes status, address and mirror from the reply; if the encoder refuses,
      nothing leaves the client. */
  ghost predicate Issued(req: Request, windows: bool, reply: seq<byte>, c: Client, sent: seq<byte>,
                         c': Client, sent': seq<byte>, status: Status, addr: Mcast)
  {
    match EncodeRequest(req)
    case None => status == ST_ERR_PROTOCOL && sent' == sent && c' == c
    case Some(frame) =>
      && sent' == sent + frame && status == StatusFrom(req, reply) && c' == Update(c, req, status, windows)
      && (AddressFrom(req, reply).Some? ==> addr == AddressFrom(req, reply).value)
  }

  method IssueAnswered(client: ClientMng, req: Request, windows: bool, reply: seq<byte>) returns (status: Status, addr: Mcast)
    requires client.Valid() && client.sock.reliable && client.sock.incoming == []
    requires if EncodeRequest(req).Some? then IsFrame(reply) else reply == []
    modifies client, client.sock, client.groups.groups, client.groups.groups.ring
    ensures client.Valid() && fresh(client.groups.groups.Footprint() - old(client.groups.groups.Footprint()))
    ensures client.sock.incoming == []
    ensures Issued(req, windows, reply, old(client.View()), old(client.sock.sent), client.View(), client.sock.sent, status, addr)
  {
    client.sock.incoming := reply;
    assert IsFrame(reply) ==> reply[..FrameLen(reply)] == reply;
    status, addr := Issue(client, req, windows);
  }

  /** The same beside the server, which notices nothing more. */
  method IssueBeside(client: ClientMng, server: ServerMng, req: Request, windows: bool, reply: seq<byte>)
    returns (status: Status, addr: Mcast)
    requires Connected(client, server) && if EncodeRequest(req).Some? then IsFrame(reply) else reply == []
    modifies client, client.sock, client.groups.groups, client.groups.groups.ring
    ensures Connected(client, server) && server.Repr() == old(server.Repr()) && server.View() == old(server.View())
    ensures fresh(client.groups.groups.Footprint() - old(client.groups.groups.Footprint()))
    ensures Issued(req, windows, reply, old(client.View()), old(client.sock.sent), client.View(), client.sock.sent, status, addr)
  {
    assert ConnectedFor(client, server, AllAddresses());
    status, addr := IssueAnswered(client, req, windows, reply);
  }

  /** A frame with its one reply, as the lockstep theorems see it. */
  lemma ReplyOfCall(c: Client, s: Server, fd: int, req: Request, windows: bool, mem: nat -> Mem)
    requires Inv(s, AllAddresses()) && fd >= 0 && NulFreeRequest(req) && EncodeRequest(req).Some?
    ensures var (s', answer) := Deliver(s, fd, EncodeRequest(req).value, mem);
            var sent := Post(fd, EncodeRequest(req).value, answer);
            && |sent| == 1 && IsFrame(sent[0].bytes)
            && var status := StatusFrom(req, sent[0].bytes);
               Call(c, s, fd, req, windows, mem) == (Update(c, req, status, windows), s', status, AddressFrom(req, sent[0].bytes))
    ensures Inv(Call(c, s, fd, req, windows, mem).1, AllAddresses())
  {
    var frame := EncodeRequest(req).value;
    RequestRoundTrip(req);
    WellFormedIffDecodes(frame);
    AllAddressesFit();
    OneReplyPerRequest(s, AllAddresses(), fd, frame, mem);
    StepInv(s, AllAddresses(), Message(fd, frame), mem);
  }

  /** One call of the client, answered by the server. The client blocks until its reply is
      there, so the server may act first on the bytes the call is about to send; that the
      client then sends exactly those bytes is part of the contract. */
  method Converse(client: ClientMng, server: ServerMng, fd: int, req: Request, windows: bool) returns (status: Status, addr: Mcast)
    requires Connected(client, server) && fd >= 0 && NulFreeRequest(req)
    modifies Objects(client, server)
    ensures Connected(client, server) && fresh(Objects(client, server) - old(Objects(client, server)))
    ensures client.sock.sent == old(client.sock.sent) + if EncodeRequest(req).Some? then EncodeRequest(req).value else []
    ensures Agree(Call(old(client.View()), old(server.View()), fd, req, windows, server.mem), client.View(), server.View(), status, addr)
  {
    if EncodeRequest(req) == None {
      status, addr := IssueBeside(client, server, req, windows, []);
    } else {
      status, addr := ConverseEncoded(client, server, fd, req, windows);
    }
  }

  /** The outcome of a call, as the model and as the objects have it. */
  ghost predicate Agree(call: (Client, Server, Status, Option<Mcast>), c: Client, s: Server, status: Status, addr: Mcast) {
    c == call.0 && s == call.1 && status == call.2 && (call.3.Some? ==> addr == call.3.value)
  }

  method ConverseEncoded(client: ClientMng, server: ServerMng, fd: int, req: Request, windows: bool)
    returns (status: Status, addr: Mcast)
    requires Connected(client, server) && fd >= 0 && NulFreeRequest(req) && EncodeRequest(req).Some?
    modifies Objects(client, server)
    ensures Connected(client, server) && fresh(Objects(client, server) - old(Objects(client, server)))
    ensures client.sock.sent == old(client.sock.sent) + EncodeRequest(req).value
    ensures Agree(Call(old(client.View()), old(server.View()), fd, req, windows, server.mem), client.View(), server.View(), status, addr)
  {
    ConnectedInv(client, server);
    ReplyOfCall(client.View(), server.View(), fd, req, windows, server.mem);
    var replies := HandleBeside(client, server, fd, EncodeRequest(req).value);
    status, addr := IssueBeside(client, server, req, windows, replies[0].bytes);
  }

  method HandleDrop(server: ServerMng, fd: int)
    requires Healthy(server)
    modifies server.Repr()
    ensures Healthy(server) && fresh(server.Repr() - old(server.Repr()))
    ensures server.View() == Disconnect(old(server.View()), fd, server.mem)
  {
    assert HealthyFor(server, AllAddresses());
    StepInv(server.View(), AllAddresses(), Drop(fd), server.mem);
    server.OnDisconnect(fd);
  }

  /** Another connection ends. */
  method DropBeside(client: ClientMng, server: ServerMng, fd: int)
    requires Connected(client, server)
    modifies server.Repr()
    ensures Connected(client, server) && fresh(server.Repr() - old(server.Repr()))
    ensures client.View() == old(client.View()) && client.groups.groups.ring == old(client.groups.groups.ring)
    ensures server.View() == Disconnect(old(server.View()), fd, server.mem)
  {
    assert ConnectedFor(client, server, AllAddresses());
    HandleDrop(server, fd);
  }

  /** The server handles what happens on another socket. */
  method Elsewhere(client: ClientMng, server: ServerMng, ev: Event)
    requires Connected(client, server)
    modifies server.Repr()
    ensures Connected(client, server) && fresh(server.Repr() - old(server.Repr()))
    ensures client.View() == old(client.View()) && client.groups.groups.ring == old(client.groups.groups.ring)
    ensures server.View() == Step(old(server.View()), ev, server.mem).0
  {
    match ev {
      case Message(fd, frame) =>
        var _ := HandleBeside(client, server, fd, frame);
      case Drop(fd) =>
        DropBeside(client, server, fd);
    }
  }

  method TakeTurn(client: ClientMng, server: ServerMng, fd: int, turn: Turn)
    requires Connected(client, server) && fd >= 0 && FairTurns([turn], fd)
    modifies Objects(client, server)
    ensures Connected(client, server) && fresh(Objects(client, server) - old(Objects(client, server)))
    ensures (client.View(), server.View()) == PlayTurn(old(client.View()), old(server.View()), fd, turn, server.mem)
  {
    assert [turn][0] == turn;
    match turn {
      case Mine(req, windows) =>
        var _, _ := Converse(client, server, fd, req, windows);
      case Other(ev) =>
        Elsewhere(client, server, ev);
    }
  }

  /** The turns from here on lead to the goal. */
  ghost predicate TurnsPending(c: Client, s: Server, fd: int, turns: seq<Turn>, mem: nat -> Mem, goal: (Client, Server)) {
    Linked(s.users) && Play(c, s, fd, turns, mem) == goal
  }

  lemma TurnsPendingStep(c: Client, s: Server, fd: int, turns: seq<Turn>, k: nat, mem: nat -> Mem, goal: (Client, Server))
    requires k < |turns| && TurnsPending(c, s, fd, turns[k..], mem, goal)
    ensures var (c', s') := PlayTurn(c, s, fd, turns[k], mem);
            TurnsPending(c', s', fd, turns[k + 1..], mem, goal)
  {
    assert turns[k..][0] == turns[k] && turns[k..][1..] == turns[k + 1..];
  }

  /** Any number of calls of the client, with anything happening on other sockets: the two
      objects go through the play of the lockstep theorems. */
  method PlayAll(client: ClientMng, server: ServerMng, fd: int, turns: seq<Turn>)
    requires Connected(client, server) && fd >= 0 && FairTurns(turns, fd)
    modifies Objects(client, server)
    ensures Connected(client, server) && fresh(Objects(client, server) - old(Objects(client, server)))
    ensures (client.View(), server.View()) == Play(old(client.View()), old(server.View()), fd, turns, server.mem)
  {
    ghost var goal := Play(client.View(), server.View(), fd, turns, server.mem);
    assert turns[0..] == turns;
    var k := 0;
    while k < |turns|
      invariant 0 <= k <= |turns| && Connected(client, server) && fresh(Objects(client, server) - old(Objects(client, server)))
      invariant TurnsPending(client.View(), server.View(), fd, turns[k..], server.mem, goal)
    {
      TurnsPendingStep(client.View(), server.View(), fd, turns, k, server.mem, goal);
      TakeTurn(client, server, fd, turns[k]);
      k := k + 1;
    }
  }

  /** From the moment it connects, a client object stays in step with the server object. */
  method KeepInStep(client: ClientMng, server: ServerMng, fd: int, turns: seq<Turn>)
    requires Connected(client, server) && fd >= 0 && FairTurns(turns, fd)
    requires client.View() == FRESH_CLIENT && fd !in server.View().users.bySocket
    modifies Objects(client, server)
    ensures Connected(client, server) && InStep(client.View(), server.View().users, fd)
    ensures (client.View(), server.View()) == Play(FRESH_CLIENT, old(server.View()), fd, turns, server.mem)
    ensures (forall k :: 0 <= k < |turns| && turns[k].Mine? ==> turns[k].windows) ==> Mirrored(client.View(), server.View().users, fd)
  {
    ConnectedInv(client, server);
    FreshClientInStep(server.View(), AllAddresses(), fd);
    StayInStep(client.View(), server.View(), AllAddresses(), fd, turns, server.mem);
    PlayAll(client, server, fd, turns);
  }

  method Start(made: nat -> bool, mem: nat -> Mem) returns (server: ServerMng)
    ensures Healthy(server) && fresh(server.Repr()) && server.View() == Init(made) && server.mem == mem
  {
    server := new ServerMng(made, mem);
    InitInv(made);
  }

  /** A server and a client, newly made. */
  method Connect(made: nat -> bool, mem: nat -> Mem) returns (client: ClientMng, server: ServerMng)
    ensures Connected(client, server) && fresh(Objects(client, server)) && client.View() == FRESH_CLIENT
    ensures server.View() == Init(made) && server.mem == mem
  {
    server := Start(made, mem);
    var sock := new Socket(true, []);
    client := new ClientMng(sock);
    AllAddressesFit();
  }

  /** The two programs together, from start-up on. */
  method PlayFromStart(made: nat -> bool, mem: nat -> Mem, fd: int, turns: seq<Turn>) returns (client: ClientMng, server: ServerMng)
    requires fd >= 0 && FairTurns(turns, fd)
    ensures InStep(client.View(), server.View().users, fd)
    ensures (client.View(), server.View()) == Play(FRESH_CLIENT, Init(made), fd, turns, mem)
  {
    client, server := Connect(made, mem);
    KeepInStep(client, server, fd, turns);
  }
}
