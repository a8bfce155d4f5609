/** The protocol in plain numbers: which bytes are answered with which bytes. Opcodes, status
    codes and bounds are written out here, so that nothing rests on the names they have
    elsewhere. */
module Wire {
  import opened ChatTypes
  import opened Framing
  import opened Protocol
  import opened McastAddresses
  import opened UserState
  import opened ServerState
  import opened ServerInvariant
  import opened Runs
  import opened RunProperties
  import opened NetState
  import opened NetProperties

  /** Everything the server sends in answer to one frame. */
  function Answered(s: Server, fd: int, f: seq<byte>, mem: nat -> Mem): seq<Sent>
    requires Linked(s.users)
  {
    Post(fd, f, Deliver(s, fd, f, mem).1)
  }

  // ----- requests of the six kinds

  lemma RegisterOnWire(s: Server, fd: int, u: Name, p: Name, f: seq<byte>, mem: nat -> Mem)
    requires Linked(s.users) && fd >= 0 && |u| <= 32 && |p| <= 32 && NulFree(u) && NulFree(p)
    requires f == [1, 2 + |u| + |p|, |u|] + u + [|p|] + p
    ensures var m := mem(s.tick);
            Answered(s, fd, f, mem) == [Sent(fd, [2, 1,
              if u in s.users.byName then 1
              else if m.entity && m.list && m.slot then 0
              else 10])]
  {
    UserPassRoundTrip(1, u, p);
    assert f == EncodeUserPass(1, u, p).value;
  }

  lemma LoginOnWire(s: Server, fd: int, u: Name, p: Name, f: seq<byte>, mem: nat -> Mem)
    requires Linked(s.users) && fd >= 0 && |u| <= 32 && |p| <= 32 && NulFree(u) && NulFree(p)
    requires f == [3, 2 + |u| + |p|, |u|] + u + [|p|] + p
    ensures Answered(s, fd, f, mem) == [Sent(fd, [4, 1,
              if fd >= 1024 then 255
              else if fd in s.users.bySocket then 4
              else if u !in s.users.byName then 2
              else if s.users.byName[u].password != p then 3
              else if s.users.byName[u].online then 4
              else 0])]
  {
    UserPassRoundTrip(3, u, p);
    assert f == EncodeUserPass(3, u, p).value;
  }

  lemma LogoutOnWire(s: Server, fd: int, f: seq<byte>, mem: nat -> Mem)
    requires Linked(s.users) && fd >= 0 && |f| >= 2 && f[0] == 5
    ensures Answered(s, fd, f, mem) == [Sent(fd, [6, 1,
              if fd >= 1024 then 255
              else if fd !in s.users.bySocket then 5
              else 0])]
  {
  }

  /** The reply that grants an address. */
  function GrantBytes(op: byte, addr: Mcast): seq<byte>
    requires |addr.ip| < 16
  {
    [op, 5 + |addr.ip|, 0, |addr.ip|] + addr.ip + [2, addr.port / 256, addr.port % 256]
  }

  lemma CreateOnWire(s: Server, all: set<Mcast>, fd: int, g: Name, f: seq<byte>, mem: nat -> Mem)
    requires Inv(s, all) && AllFit(all) && fd >= 0 && |g| <= 32 && NulFree(g)
    requires f == [7, 1 + |g|, |g|] + g
    ensures s.groups.pool != [] ==> |s.groups.pool[0].ip| < 16
    ensures var m := mem(s.tick);
            Answered(s, fd, f, mem) == [Sent(fd,
              if fd >= 1024 || fd !in s.users.bySocket then [8, 1, 5]
              else if g in s.groups.byName then [8, 1, 6]
              else if s.groups.pool == [] then [8, 1, 10]
              else if !m.entity || !m.slot then [8, 1, 255]
              else if !m.name || !m.node then [8, 1, 10]
              else GrantBytes(8, s.groups.pool[0]))]
  {
    GroupnameRoundTrip(7, g);
    assert f == EncodeGroupname(7, g).value;
    assert s.groups.pool != [] ==> s.groups.pool[0] in all;
    if g !in s.groups.byName && fd in s.users.bySocket {
      NoMembersWhenDead(s, all, g);
      assert s.users.bySocket[fd] !in Members(s.users, g);
    }
  }

  lemma JoinOnWire(s: Server, all: set<Mcast>, fd: int, g: Name, f: seq<byte>, mem: nat -> Mem)
    requires Inv(s, all) && AllFit(all) && fd >= 0 && |g| <= 32 && NulFree(g)
    requires f == [9, 1 + |g|, |g|] + g
    ensures g in s.groups.byName ==> |s.groups.byName[g].addr.ip| < 16
    ensures var m := mem(s.tick);
            Answered(s, fd, f, mem) == [Sent(fd,
              if fd >= 1024 || fd !in s.users.bySocket then [10, 1, 5]
              else if g !in s.groups.byName then [10, 1, 7]
              else if g in s.users.byName[s.users.bySocket[fd]].joined then [10, 1, 8]
              else if !m.name || !m.node then [10, 1, 10]
              else GrantBytes(10, s.groups.byName[g].addr))]
  {
    GroupnameRoundTrip(9, g);
    assert f == EncodeGroupname(9, g).value;
    assert g in s.groups.byName ==> Held(s.groups.byName)[g] == s.groups.byName[g].addr;
  }

  lemma LeaveOnWire(s: Server, all: set<Mcast>, fd: int, g: Name, f: seq<byte>, mem: nat -> Mem)
    requires Inv(s, all) && fd >= 0 && |g| <= 32 && NulFree(g)
    requires f == [11, 1 + |g|, |g|] + g
    ensures Answered(s, fd, f, mem) == [Sent(fd, [12, 1,
              if fd >= 1024 then 255
              else if fd !in s.users.bySocket then 5
              else if g !in s.users.byName[s.users.bySocket[fd]].joined then 9
              else 0])]
  {
    GroupnameRoundTrip(11, g);
    assert f == EncodeGroupname(11, g).value;
    if fd in s.users.bySocket && g in s.users.byName[s.users.bySocket[fd]].joined {
      assert g in s.groups.byName;
    }
  }

  /** A name or password of 33 bytes or more, an opcode that is no request, and a frame too
      short to hold its fields change nothing and are not answered. */
  lemma NotOnWire(s: Server, fd: int, f: seq<byte>, mem: nat -> Mem)
    requires Linked(s.users) && IsFrame(f)
    requires || f[0] !in {1, 3, 5, 7, 9, 11}
             || (f[0] != 5 && |f| == 2)
             || (f[0] != 5 && |f| > 2 && f[2] >= 33)
             || (f[0] != 5 && |f| > 2 && 3 + f[2] as int > |f|)
             || (f[0] in {1, 3} && |f| > 3 + f[2] as int && f[3 + f[2] as int] >= 33)
    ensures Answered(s, fd, f, mem) == [] && Deliver(s, fd, f, mem).0 == s.(tick := s.tick + 1)
  {
  }

  // ----- the client's side

  /** The bytes a client sends for a request, if it sends any. */
  lemma RequestBytes(req: Request)
    ensures EncodeRequest(req) ==
      match req
      case Register(u, p) => if |u| > 32 || |p| > 32 then None else Some([1, 2 + |u| + |p|, |u|] + u + [|p|] + p)
      case Login(u, p) => if |u| > 32 || |p| > 32 then None else Some([3, 2 + |u| + |p|, |u|] + u + [|p|] + p)
      case Logout => Some([5, 0])
      case Create(g) => if |g| > 32 then None else Some([7, 1 + |g|, |g|] + g)
      case Join(g) => if |g| > 32 then None else Some([9, 1 + |g|, |g|] + g)
      case Leave(g) => if |g| > 32 then None else Some([11, 1 + |g|, |g|] + g)
  {
  }

  /** What a client reads in the replies above. */
  lemma RepliesRead(op: byte, code: byte, ip: seq<byte>, hi: byte, lo: byte)
    requires |ip| < 16 && NulFree(ip)
    ensures DecodeStatus([op, 1, code]) == Some(code)
    ensures DecodeGroupRep([op, 1, code]) == Some((code, Mcast([], 0)))
    ensures DecodeGroupRep([op, 5 + |ip|, 0, |ip|] + ip + [2, hi, lo]) == Some((0, Mcast(ip, 256 * hi as nat + lo as nat)))
  {
    var addr := Mcast(ip, 256 * hi as nat + lo as nat);
    GroupRepRoundTrip(op, addr);
    assert [op, 5 + |ip|, 0, |ip|] + ip + [2, hi, lo] == EncodeGroupRep(op, addr).value;
  }

  /** Addresses of 16 bytes or more are neither sent nor accepted. */
  lemma AddressBound(op: byte, addr: Mcast, buf: seq<byte>)
    ensures EncodeGroupRep(op, addr) == if |addr.ip| < 16 then Some(GrantBytes(op, addr)) else None
    ensures |buf| > 3 && buf[1] > 1 && buf[2] == 0 && buf[3] >= 16 ==> DecodeGroupRep(buf) == None
  {
  }

  // ----- passwords over runs

  lemma StepKeepsAccount(s: Server, ev: Event, mem: nat -> Mem, u: Name)
    requires SessionsAgree(s.users) && u in s.users.byName
    ensures u in Step(s, ev, mem).0.users.byName
    ensures Step(s, ev, mem).0.users.byName[u].password == s.users.byName[u].password
  {
  }

  /** An account is never lost and its password never changes. */
  lemma {:induction false} RunKeepsAccount(s: Server, all: set<Mcast>, evs: seq<Event>, mem: nat -> Mem, u: Name)
    requires Inv(s, all) && u in s.users.byName
    ensures u in Run(s, evs, mem).0.users.byName
    ensures Run(s, evs, mem).0.users.byName[u].password == s.users.byName[u].password
    decreases |evs|
  {
    if evs != [] {
      StepKeepsAccount(s, evs[0], mem, u);
      StepInv(s, all, evs[0], mem);
      RunKeepsAccount(Step(s, evs[0], mem).0, all, evs[1..], mem, u);
    }
  }

  /** Whoever registered with a password can log in with that password and no other, however
      much has happened since: on a free socket the login is answered 3 exactly if the
      password is another one, and 0 exactly if it is the same and the user is offline. */
  lemma RegisterThenLogin(s: Server, all: set<Mcast>, fd: int, u: Name, p: Name, f: seq<byte>, evs: seq<Event>, mem: nat -> Mem,
                          fd': int, p': Name, f': seq<byte>)
    requires Inv(s, all) && fd >= 0 && |u| <= 32 && |p| <= 32 && NulFree(u) && NulFree(p)
    requires f == [1, 2 + |u| + |p|, |u|] + u + [|p|] + p && Answered(s, fd, f, mem) == [Sent(fd, [2, 1, 0])]
    requires 0 <= fd' < 1024 && |p'| <= 32 && NulFree(p') && f' == [3, 2 + |u| + |p'|, |u|] + u + [|p'|] + p'
    requires fd' !in Run(Step(s, Message(fd, f), mem).0, evs, mem).0.users.bySocket
    ensures var s' := Run(Step(s, Message(fd, f), mem).0, evs, mem).0;
            && u in s'.users.byName
            && Answered(s', fd', f', mem) == [Sent(fd', [4, 1,
                 if p' != p then 3 else if s'.users.byName[u].online then 4 else 0])]
  {
    var s1 := Step(s, Message(fd, f), mem).0;
    RegisterOnWire(s, fd, u, p, f, mem);
    Registered(s, fd, u, p, f, mem);
    StepInv(s, all, Message(fd, f), mem);
    RunKeepsAccount(s1, all, evs, mem, u);
    LoginOnWire(Run(s1, evs, mem).0, fd', u, p', f', mem);
  }

  lemma Registered(s: Server, fd: int, u: Name, p: Name, f: seq<byte>, mem: nat -> Mem)
    requires Linked(s.users) && fd >= 0 && |u| <= 32 && |p| <= 32 && NulFree(u) && NulFree(p)
    requires f == [1, 2 + |u| + |p|, |u|] + u + [|p|] + p && Answered(s, fd, f, mem) == [Sent(fd, [2, 1, 0])]
    ensures u !in s.users.byName
    ensures Step(s, Message(fd, f), mem).0.users.byName == s.users.byName[u := User(p, false, -1, [])]
  {
    RegisterOnWire(s, fd, u, p, f, mem);
    UserPassRoundTrip(1, u, p);
    assert f == EncodeUserPass(1, u, p).value;
  }

  // ----- a first session

  lemma Three<T>(a: T, b: T, c: T, none: seq<T>)
    requires none == []
    ensures [a, b, c][1..] == [b, c] && [b, c][1..] == [c] && [c][1..] == none
    ensures [a, b, c][0] == a && [b, c][0] == b && [c][0] == c
  {
  }

  /** Three requests in a row, taken apart. */
  lemma ThreeEncoded(a: Request, b: Request, c: Request)
    requires EncodeRequest(a).Some? && EncodeRequest(b).Some? && EncodeRequest(c).Some?
    ensures Encoded([a, b, c]) == [EncodeRequest(a).value, EncodeRequest(b).value, EncodeRequest(c).value]
    ensures Flatten(Encoded([a, b, c])) == EncodeRequest(a).value + EncodeRequest(b).value + EncodeRequest(c).value
  {
    var none: seq<Request> := [];
    Three(a, b, c, none);
    assert Encoded([c]) == [EncodeRequest(c).value] + Encoded(none);
    assert Encoded([b, c]) == [EncodeRequest(b).value] + Encoded([c]);
    var x, y, z := EncodeRequest(a).value, EncodeRequest(b).value, EncodeRequest(c).value;
    Three(x, y, z, []);
    assert Flatten([z]) == z + Flatten([]);
    assert Flatten([y, z]) == y + Flatten([z]);
  }

  lemma ThreeServed(s: Server, fd: int, a: Request, b: Request, c: Request, mem: nat -> Mem)
    requires Linked(s.users)
    ensures var s1 := Serve(s, fd, a, mem(s.tick)).0.(tick := s.tick + 1);
            var s2 := Serve(s1, fd, b, mem(s1.tick)).0.(tick := s1.tick + 1);
            ServeAll(s, fd, [a, b, c], mem).1
            == [Serve(s, fd, a, mem(s.tick)).1, Serve(s1, fd, b, mem(s1.tick)).1, Serve(s2, fd, c, mem(s2.tick)).1]
  {
    var none: seq<Request> := [];
    var s1 := Serve(s, fd, a, mem(s.tick)).0.(tick := s.tick + 1);
    var s2 := Serve(s1, fd, b, mem(s1.tick)).0.(tick := s1.tick + 1);
    var s3 := Serve(s2, fd, c, mem(s2.tick)).0.(tick := s2.tick + 1);
    Three(a, b, c, none);
    ServedFirst(s2, fd, [c], mem);
    ServedFirst(s1, fd, [b, c], mem);
    ServedFirst(s, fd, [a, b, c], mem);
    assert ServeAll(s3, fd, none, mem).1 == [];
  }

  lemma ServedFirst(s: Server, fd: int, reqs: seq<Request>, mem: nat -> Mem)
    requires Linked(s.users) && reqs != []
    ensures var (s1, reply) := Serve(s, fd, reqs[0], mem(s.tick));
            ServeAll(s, fd, reqs, mem).1 == [reply] + ServeAll(s1.(tick := s.tick + 1), fd, reqs[1..], mem).1
  {
  }

  lemma ThreePosted(fd: int, a: Request, b: Request, c: Request, x: Reply, y: Reply, z: Reply)
    ensures Posts(fd, [a, b, c], [x, y, z])
         == Posted(fd, OpcodeOf(a) + 1, x) + Posted(fd, OpcodeOf(b) + 1, y) + Posted(fd, OpcodeOf(c) + 1, z)
  {
    var none: seq<Request> := [];
    var silence: seq<Reply> := [];
    Three(a, b, c, none);
    Three(x, y, z, silence);
    assert Posts(fd, [c], [z]) == Posted(fd, OpcodeOf(c) + 1, z) + Posts(fd, none, silence);
    assert Posts(fd, [b, c], [y, z]) == Posted(fd, OpcodeOf(b) + 1, y) + Posts(fd, [c], [z]);
  }

  /** "A" registers with password "B", logs in and creates group "G". */
  const FIRST_REQUESTS := [Register([65], [66]), Login([65], [66]), Create([71])]

  lemma FirstBytes()
    ensures Encodable(FIRST_REQUESTS)
    ensures Flatten(Encoded(FIRST_REQUESTS)) == [1, 4, 1, 65, 1, 66, 3, 4, 1, 65, 1, 66, 7, 2, 1, 71]
  {
    var a: seq<byte>, b: seq<byte>, c: seq<byte> := [1, 4, 1, 65, 1, 66], [3, 4, 1, 65, 1, 66], [7, 2, 1, 71];
    assert a == [1, 4, 1] + [65] + [1] + [66] && b == [3, 4, 1] + [65] + [1] + [66] && c == [7, 2, 1] + [71];
    assert EncodeRequest(Register([65], [66])) == Some(a);
    assert EncodeRequest(Login([65], [66])) == Some(b);
    assert EncodeRequest(Create([71])) == Some(c);
    ThreeEncoded(Register([65], [66]), Login([65], [66]), Create([71]));
  }

  /** The three requests served by a fresh server. */
  lemma FirstServed(made: nat -> bool, fd: int, mem: nat -> Mem)
    requires FdInRange(fd) && (forall i: nat :: made(i)) && forall t: nat :: AllocOk(mem(t))
    ensures ServeAll(Init(made), fd, FIRST_REQUESTS, mem).1 == [Plain(0), Plain(0), Granted(Address(1))]
  {
    FilledComplete(1, made);
    var s := Init(made);
    var s1 := Serve(s, fd, FIRST_REQUESTS[0], mem(0)).0.(tick := 1);
    var s2 := Serve(s1, fd, FIRST_REQUESTS[1], mem(1)).0.(tick := 2);
    assert s1.users.byName == map[[65] := User([66], false, -1, [])];
    assert s2.users.bySocket == map[fd := [65]];
    assert Serve(s2, fd, FIRST_REQUESTS[2], mem(2)).1 == Granted(Address(1));
    ThreeServed(s, fd, FIRST_REQUESTS[0], FIRST_REQUESTS[1], FIRST_REQUESTS[2], mem);
  }

  /** A client that connects to a fresh server and sends the three requests, in whatever
      pieces the network makes of them, is answered: registered, logged in, and the group
      lives at 239.1.1.1 port 6000. */
  lemma FirstSession(listenFd: int, made: nat -> bool, fd: int, evs: seq<NetEvent>, mem: nat -> Mem)
    requires FdInRange(listenFd) && FdInRange(fd) && fd != listenFd
    requires (forall i: nat :: made(i)) && forall t: nat :: AllocOk(mem(t))
    requires HonestRun(NetStep(InitialNet(listenFd, made), Accept(fd), mem), evs, mem)
    requires forall k :: 0 <= k < |evs| ==> evs[k].Receive? && evs[k].slot == 0
    requires BytesOn(evs, 0) == [1, 4, 1, 65, 1, 66, 3, 4, 1, 65, 1, 66, 7, 2, 1, 71]
    ensures NetRun(NetStep(InitialNet(listenFd, made), Accept(fd), mem), evs, mem).out ==
            [Sent(fd, [2, 1, 0]),
             Sent(fd, [4, 1, 0]),
             Sent(fd, [8, 14, 0, 9, 50, 51, 57, 46, 49, 46, 49, 46, 49, 2, 23, 112])]
  {
    var net := NetStep(InitialNet(listenFd, made), Accept(fd), mem);
    FirstAccept(listenFd, made, fd, mem);
    FirstBytes();
    FirstServed(made, fd, mem);
    DirectCalls(net, AllAddresses(), evs, mem, 0, FIRST_REQUESTS);
    FirstPosts(fd);
  }

  lemma FirstAccept(listenFd: int, made: nat -> bool, fd: int, mem: nat -> Mem)
    requires FdInRange(listenFd) && FdInRange(fd) && fd != listenFd
    ensures var net := NetStep(InitialNet(listenFd, made), Accept(fd), mem);
            && NetInv(net, AllAddresses()) && Occupied(net, 0) && net.slots[0] == Open(fd, [])
            && net.server == Init(made) && net.out == []
  {
    InitialNetInv(listenFd, made);
    NetStepInv(InitialNet(listenFd, made), AllAddresses(), Accept(fd), mem);
  }

  lemma FirstGrant(grant: seq<byte>)
    requires grant == [8, 14, 0, 9, 50, 51, 57, 46, 49, 46, 49, 46, 49, 2, 23, 112]
    ensures EncodeGroupRep(8, Address(1)) == Some(grant)
  {
    var ip: seq<byte> := [50, 51, 57, 46, 49, 46, 49, 46, 49];
    AddressText(1);
    assert Address(1) == Mcast(ip, 6000);
    var n: byte, len: byte := 9, 14;
    assert EncodeGroupRep(8, Mcast(ip, 6000)).value == [8, len, 0, n] + ip + [2, 23, 112];
    assert [8, len, 0, n] + ip + [2, 23, 112] == grant;
  }

  lemma FirstPosts(fd: int)
    requires fd >= 0
    ensures Posts(fd, FIRST_REQUESTS, [Plain(0), Plain(0), Granted(Address(1))]) ==
            [Sent(fd, [2, 1, 0]),
             Sent(fd, [4, 1, 0]),
             Sent(fd, [8, 14, 0, 9, 50, 51, 57, 46, 49, 46, 49, 46, 49, 2, 23, 112])]
  {
    AddressText(1);
    assert Posted(fd, 2, Plain(0)) == [Sent(fd, [2, 1, 0])] && Posted(fd, 4, Plain(0)) == [Sent(fd, [4, 1, 0])];
    var grant: seq<byte> := [8, 14, 0, 9, 50, 51, 57, 46, 49, 46, 49, 46, 49, 2, 23, 112];
    FirstGrant(grant);
    assert Posted(fd, 8, Granted(Address(1))) == [Sent(fd, grant)];
    ThreePosted(fd, FIRST_REQUESTS[0], FIRST_REQUESTS[1], FIRST_REQUESTS[2], Plain(0), Plain(0), Granted(Address(1)));
  }

  /** Such a run exists: the operating system may deliver all the bytes at once. */
  lemma FirstSessionHappens(listenFd: int, made: nat -> bool, fd: int, mem: nat -> Mem)
    requires FdInRange(listenFd) && FdInRange(fd) && fd != listenFd
    ensures OsHonest(InitialNet(listenFd, made), Accept(fd))
    ensures HonestRun(NetStep(InitialNet(listenFd, made), Accept(fd), mem),
                      [Receive(0, [1, 4, 1, 65, 1, 66, 3, 4, 1, 65, 1, 66, 7, 2, 1, 71])], mem)
  {
  }
}
