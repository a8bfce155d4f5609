/** The server as its users would describe it, and the proof that the counters,
    lists and indices of the real one implement exactly that. */
module Reference {
  import opened ChatTypes
  import opened UserState
  import opened GroupState
  import opened ServerState
  import opened ServerInvariant

  datatype Room = Room(members: set<Name>, addr: Mcast)

  /** Who is registered with which password, who is logged in where, and which
      groups exist with which members. A group exists exactly while it has members. */
  datatype Chat = Chat(accounts: map<Name, Name>, sessions: map<int, Name>, rooms: map<Name, Room>)

  /** Whether the resources a request needs are there; `addr` is the address a new group gets. */
  datatype Decision = Allow(addr: Mcast) | Deny(status: Status)

  function WithoutMember(rooms: map<Name, Room>, u: Name, g: Name): map<Name, Room>
    requires g in rooms
  {
    if rooms[g].members == {u} then rooms - {g}
    else rooms[g := Room(rooms[g].members - {u}, rooms[g].addr)]
  }

  function WithoutUser(rooms: map<Name, Room>, u: Name): map<Name, Room> {
    map g | g in rooms && rooms[g].members != {u} :: Room(rooms[g].members - {u}, rooms[g].addr)
  }

  function AskLogin(c: Chat, fd: int, user: Name, pass: Name): (Chat, Reply) {
    if !FdInRange(fd) then (c, Plain(ST_ERR_PROTOCOL))
    else if fd in c.sessions then (c, Plain(ST_ERR_ALREADY_LOGGED_IN))
    else if user !in c.accounts then (c, Plain(ST_ERR_USER_NOT_FOUND))
    else if c.accounts[user] != pass then (c, Plain(ST_ERR_BAD_PASSWORD))
    else if user in c.sessions.Values then (c, Plain(ST_ERR_ALREADY_LOGGED_IN))
    else (c.(sessions := c.sessions[fd := user]), Plain(ST_OK))
  }

  function AskLogout(c: Chat, fd: int): (Chat, Reply) {
    if !FdInRange(fd) then (c, Plain(ST_ERR_PROTOCOL))
    else if fd !in c.sessions then (c, Plain(ST_ERR_NOT_LOGGED_IN))
    else (c.(sessions := c.sessions - {fd}, rooms := WithoutUser(c.rooms, c.sessions[fd])), Plain(ST_OK))
  }

  function AskCreate(c: Chat, fd: int, g: Name, d: Decision): (Chat, Reply) {
    if fd !in c.sessions then (c, Plain(ST_ERR_NOT_LOGGED_IN))
    else if g in c.rooms then (c, Plain(ST_ERR_GROUP_EXISTS))
    else if d.Deny? then (c, Plain(d.status))
    else (c.(rooms := c.rooms[g := Room({c.sessions[fd]}, d.addr)]), Granted(d.addr))
  }

  function AskJoin(c: Chat, fd: int, g: Name, d: Decision): (Chat, Reply) {
    if fd !in c.sessions then (c, Plain(ST_ERR_NOT_LOGGED_IN))
    else if g !in c.rooms then (c, Plain(ST_ERR_GROUP_NOT_FOUND))
    else if c.sessions[fd] in c.rooms[g].members then (c, Plain(ST_ERR_ALREADY_IN_GROUP))
    else if d.Deny? then (c, Plain(d.status))
    else
      var room := c.rooms[g];
      (c.(rooms := c.rooms[g := room.(members := room.members + {c.sessions[fd]})]), Granted(room.addr))
  }

  function AskLeave(c: Chat, fd: int, g: Name): (Chat, Reply) {
    if !FdInRange(fd) then (c, Plain(ST_ERR_PROTOCOL))
    else if fd !in c.sessions then (c, Plain(ST_ERR_NOT_LOGGED_IN))
    else if g !in c.rooms || c.sessions[fd] !in c.rooms[g].members then (c, Plain(ST_ERR_NOT_IN_GROUP))
    else (c.(rooms := WithoutMember(c.rooms, c.sessions[fd], g)), Plain(ST_OK))
  }

  function Ask(c: Chat, fd: int, req: Request, d: Decision): (Chat, Reply) {
    match req
    case Register(user, pass) =>
      if user in c.accounts then (c, Plain(ST_ERR_USER_EXISTS))
      else if d.Deny? then (c, Plain(d.status))
      else (c.(accounts := c.accounts[user := pass]), Plain(ST_OK))
    case Login(user, pass) => AskLogin(c, fd, user, pass)
    case Logout => AskLogout(c, fd)
    case Create(g) => AskCreate(c, fd, g, d)
    case Join(g) => AskJoin(c, fd, g, d)
    case Leave(g) => AskLeave(c, fd, g)
  }

  // ----- the abstraction

  ghost function Rooms(us: Users, groups: map<Name, Group>): map<Name, Room> {
    map g | g in groups :: Room(Members(us, g), groups[g].addr)
  }

  ghost function Accounts(us: Users): map<Name, Name> {
    map n | n in us.byName :: us.byName[n].password
  }

  ghost function Abs(s: Server): Chat {
    Chat(Accounts(s.users), s.users.bySocket, Rooms(s.users, s.groups.byName))
  }

  /** How the server decides: by its allocations and the front of its pool. */
  function Decide(s: Server, req: Request, mem: Mem): Decision {
    match req
    case Register(_, _) =>
      if mem.entity && mem.list && mem.slot then Allow(Mcast([], 0)) else Deny(ST_ERR_SERVER_FULL)
    case Create(_) =>
      if s.groups.pool == [] then Deny(ST_ERR_SERVER_FULL)
      else if !mem.entity || !mem.slot then Deny(ST_ERR_PROTOCOL)
      else if !mem.name || !mem.node then Deny(ST_ERR_SERVER_FULL)
      else Allow(s.groups.pool[0])
    case Join(_) =>
      if mem.name && mem.node then Allow(Mcast([], 0)) else Deny(ST_ERR_SERVER_FULL)
    case _ => Allow(Mcast([], 0))
  }

  /** A new group's address is one of the pool's and held by no live group. */
  ghost predicate Legal(c: Chat, req: Request, d: Decision, all: set<Mcast>) {
    match d
    case Allow(a) => req.Create? ==> a in all && forall g :: g in c.rooms ==> c.rooms[g].addr != a
    case Deny(st) => st == ST_ERR_SERVER_FULL || (req.Create? && st == ST_ERR_PROTOCOL)
  }

  // ----- refinement, request by request

  lemma DecideLegal(s: Server, all: set<Mcast>, req: Request, mem: Mem)
    requires Inv(s, all)
    ensures Legal(Abs(s), req, Decide(s, req, mem), all)
  {
    if req.Create? && s.groups.pool != [] {
      var a := s.groups.pool[0];
      forall g | g in s.groups.byName ensures s.groups.byName[g].addr != a {
        assert Held(s.groups.byName)[g] == s.groups.byName[g].addr;
      }
    }
  }

  /** Records that differ in nothing but session and password describe the same groups. */
  lemma RoomsUnchanged(us: Users, us': Users, groups: map<Name, Group>)
    requires forall n :: n in us.byName ==> n in us'.byName && us'.byName[n].joined == us.byName[n].joined
    requires forall n :: n in us'.byName && n !in us.byName ==> us'.byName[n].joined == []
    ensures Rooms(us', groups) == Rooms(us, groups)
  {
    forall h ensures Members(us', h) == Members(us, h) {
    }
  }

  lemma RoomsAfterLeave(us: Users, us': Users, groups: map<Name, Group>, u: Name, g: Name, count: nat)
    requires forall h :: Members(us', h) == if h == g then Members(us, h) - {u} else Members(us, h)
    requires g in groups
    ensures Members(us, g) == {u} ==> Rooms(us', groups - {g}) == WithoutMember(Rooms(us, groups), u, g)
    ensures Members(us, g) != {u} ==>
              Rooms(us', groups[g := groups[g].(count := count)]) == WithoutMember(Rooms(us, groups), u, g)
  {
  }

  lemma DepartedRooms(s: Server, u: Name, g: Name, mem: Mem)
    requires g in s.groups.byName && s.groups.byName[g].count == |Members(s.users, g)|
    requires u in s.users.byName && g in s.users.byName[u].joined && NoDup(s.users.byName[u].joined)
    ensures Rooms(Departed(s, u, g, mem).users, Departed(s, u, g, mem).groups.byName)
         == WithoutMember(Rooms(s.users, s.groups.byName), u, g)
  {
    var s' := Departed(s, u, g, mem);
    var count := s.groups.byName[g].count;
    forall h ensures Members(s'.users, h) == if h == g then Members(s.users, h) - {u} else Members(s.users, h) {
      MembersAfterLeave(s.users, u, g, h);
    }
    assert u in Members(s.users, g);
    if count == 1 {
      NobodyLeft(s.users, u, g);
    }
    assert s'.groups.byName == if count == 1 then s.groups.byName - {g}
                               else s.groups.byName[g := s.groups.byName[g].(count := count - 1)];
    RoomsAfterLeave(s.users, s'.users, s.groups.byName, u, g, count - 1);
  }

  lemma DepartedRefines(s: Server, all: set<Mcast>, u: Name, g: Name, mem: Mem)
    requires Inv(s, all) && u in s.users.byName && g in s.users.byName[u].joined
    ensures Abs(Departed(s, u, g, mem)) == Abs(s).(rooms := WithoutMember(Abs(s).rooms, u, g))
  {
    DepartedRooms(s, u, g, mem);
    assert Accounts(Departed(s, u, g, mem).users) == Accounts(s.users);
  }

  lemma {:induction false} ShedRefines(s: Server, all: set<Mcast>, u: Name, mem: Mem)
    requires Inv(s, all) && u in s.users.byName
    ensures Abs(Shed(s, u, mem)) == Abs(s).(rooms := WithoutUser(Abs(s).rooms, u))
    decreases |s.users.byName[u].joined|
  {
    var names := s.users.byName[u].joined;
    if names == [] {
      NothingToShed(s, u);
      assert Shed(s, u, mem) == s by { assert SetJoined(s.users, u, []) == s.users; }
    } else {
      ShedFirst(s, u, mem);
      DepartedInv(s, all, u, names[0], mem);
      DepartedRefines(s, all, u, names[0], mem);
      ShedRefines(Departed(s, u, names[0], mem), all, u, mem);
      WithoutMemberThenUser(Abs(s).rooms, u, names[0]);
    }
  }

  lemma NothingToShed(s: Server, u: Name)
    requires CountersSound(s.users, s.groups.byName)
    requires u in s.users.byName && s.users.byName[u].joined == []
    ensures WithoutUser(Abs(s).rooms, u) == Abs(s).rooms
  {
    assert forall g :: u !in Members(s.users, g);
    NoRoomHas(Abs(s).rooms, u);
  }

  lemma NoRoomHas(rooms: map<Name, Room>, u: Name)
    requires forall g :: g in rooms ==> u !in rooms[g].members
    ensures WithoutUser(rooms, u) == rooms
  {
    forall g | g in rooms ensures rooms[g].members - {u} == rooms[g].members && rooms[g].members != {u} {
    }
  }

  lemma WithoutMemberThenUser(rooms: map<Name, Room>, u: Name, g: Name)
    requires g in rooms
    ensures WithoutUser(WithoutMember(rooms, u, g), u) == WithoutUser(rooms, u)
  {
    if rooms[g].members == {u} {
    } else if rooms[g].members - {u} == {} {
      assert rooms[g].members == {};
    } else {
      assert rooms[g].members - {u} - {u} == rooms[g].members - {u};
    }
  }

  lemma LogoutRefines(s: Server, all: set<Mcast>, fd: int, mem: Mem)
    requires Inv(s, all)
    ensures Abs(LogoutUser(s, fd, mem).0) == AskLogout(Abs(s), fd).0
    ensures Plain(LogoutUser(s, fd, mem).1) == AskLogout(Abs(s), fd).1
  {
    if FdInRange(fd) && fd in s.users.bySocket {
      var u := s.users.bySocket[fd];
      ShedRefines(s, all, u, mem);
      OfflineAbs(Shed(s, u, mem), fd);
    }
  }

  lemma OfflineAbs(s: Server, fd: int)
    requires fd in s.users.bySocket && s.users.bySocket[fd] in s.users.byName
    ensures Abs(s.(users := GoOffline(s.users, fd))) == Abs(s).(sessions := Abs(s).sessions - {fd})
  {
    RoomsUnchanged(s.users, GoOffline(s.users, fd), s.groups.byName);
    assert Accounts(GoOffline(s.users, fd)) == Accounts(s.users);
  }

  lemma KeyOf<K, V>(m: map<K, V>, v: V) returns (k: K)
    requires v in m.Values
    ensures k in m && m[k] == v
  {
    k :| k in m && m[k] == v;
  }

  lemma LoginRefines(s: Server, fd: int, user: Name, pass: Name)
    requires SessionsAgree(s.users)
    ensures Abs(s.(users := LoginUser(s.users, user, pass, fd).0)) == AskLogin(Abs(s), fd, user, pass).0
    ensures Plain(LoginUser(s.users, user, pass, fd).1) == AskLogin(Abs(s), fd, user, pass).1
  {
    var us := LoginUser(s.users, user, pass, fd).0;
    if user in s.users.byName && s.users.byName[user].online {
      assert s.users.bySocket[s.users.byName[user].fd] == user;
    }
    if user in s.users.bySocket.Values {
      var other := KeyOf(s.users.bySocket, user);
      assert s.users.byName[user].online;
    }
    assert Accounts(us) == Accounts(s.users);
    RoomsUnchanged(s.users, us, s.groups.byName);
  }

  lemma RegisterRefines(s: Server, fd: int, user: Name, pass: Name, mem: Mem)
    requires Fits(Register(user, pass))
    ensures var d := Decide(s, Register(user, pass), mem);
            Abs(s.(users := RegisterUser(s.users, user, pass, mem).0)) == Ask(Abs(s), fd, Register(user, pass), d).0
            && Plain(RegisterUser(s.users, user, pass, mem).1) == Ask(Abs(s), fd, Register(user, pass), d).1
  {
    var us := RegisterUser(s.users, user, pass, mem).0;
    if us != s.users {
      assert Accounts(us) == Accounts(s.users)[user := pass];
    }
    RoomsUnchanged(s.users, us, s.groups.byName);
  }

  lemma EnteredRefines(us: Users, groups: map<Name, Group>, groups': map<Name, Group>, u: Name, g: Name)
    requires u in us.byName && g !in us.byName[u].joined
    requires groups'.Keys == groups.Keys + {g}
    requires forall h :: h in groups' && h != g ==> groups'[h] == groups[h]
    ensures Rooms(SetJoined(us, u, us.byName[u].joined + [g]), groups')
         == Rooms(us, groups)[g := Room(Members(us, g) + {u}, groups'[g].addr)]
    ensures Accounts(SetJoined(us, u, us.byName[u].joined + [g])) == Accounts(us)
  {
    var us' := SetJoined(us, u, us.byName[u].joined + [g]);
    forall h ensures Members(us', h) == if h == g then Members(us, h) + {u} else Members(us, h) {
      MembersAfterJoin(us, u, g, h);
    }
  }

  lemma CreatedRefines(s: Server, fd: int, g: Name, mem: Mem)
    requires Linked(s.users) && IsLoggedIn(s.users, fd) && Fits(Create(g)) && Members(s.users, g) == {}
    requires CreateGroup(s.groups, g, mem).1.Granted? && JoinUser(s.users, fd, g, mem).1 == ST_OK
    ensures Abs(ServeCreate(s, fd, g, mem).0) == AskCreate(Abs(s), fd, g, Allow(s.groups.pool[0])).0
    ensures ServeCreate(s, fd, g, mem).1 == AskCreate(Abs(s), fd, g, Allow(s.groups.pool[0])).1
  {
    var u := s.users.bySocket[fd];
    EnteredRefines(s.users, s.groups.byName, s.groups.byName[g := Group(s.groups.pool[0], 1)], u, g);
    assert Members(s.users, g) + {u} == {u};
  }

  lemma CreateRefines(s: Server, all: set<Mcast>, fd: int, g: Name, mem: Mem)
    requires Inv(s, all) && Fits(Create(g))
    ensures var d := Decide(s, Create(g), mem);
            Abs(ServeCreate(s, fd, g, mem).0) == AskCreate(Abs(s), fd, g, d).0
            && ServeCreate(s, fd, g, mem).1 == AskCreate(Abs(s), fd, g, d).1
  {
    if IsLoggedIn(s.users, fd) && CreateGroup(s.groups, g, mem).1.Granted? {
      NoMembersWhenDead(s, all, g);
      assert s.users.bySocket[fd] !in Members(s.users, g);
      if JoinUser(s.users, fd, g, mem).1 == ST_OK {
        CreatedRefines(s, fd, g, mem);
      } else {
        CreateRolledBack(s, fd, g, mem);
      }
    }
  }

  lemma JoinedRefines(s: Server, fd: int, g: Name, mem: Mem)
    requires Linked(s.users) && IsLoggedIn(s.users, fd) && g in s.groups.byName
    requires JoinUser(s.users, fd, g, mem).1 == ST_OK
    ensures Abs(ServeJoin(s, fd, g, mem).0) == AskJoin(Abs(s), fd, g, Decide(s, Join(g), mem)).0
    ensures ServeJoin(s, fd, g, mem).1 == AskJoin(Abs(s), fd, g, Decide(s, Join(g), mem)).1
  {
    var u := s.users.bySocket[fd];
    assert u !in Members(s.users, g);
    EnteredRefines(s.users, s.groups.byName, JoinGroup(s.groups, g).0.byName, u, g);
  }

  lemma JoinRefines(s: Server, all: set<Mcast>, fd: int, g: Name, mem: Mem)
    requires Inv(s, all)
    ensures Abs(ServeJoin(s, fd, g, mem).0) == AskJoin(Abs(s), fd, g, Decide(s, Join(g), mem)).0
    ensures ServeJoin(s, fd, g, mem).1 == AskJoin(Abs(s), fd, g, Decide(s, Join(g), mem)).1
  {
    if IsLoggedIn(s.users, fd) && g in s.groups.byName {
      var u := s.users.bySocket[fd];
      assert g in s.users.byName[u].joined <==> u in Members(s.users, g);
      if JoinUser(s.users, fd, g, mem).1 == ST_OK {
        JoinedRefines(s, fd, g, mem);
      } else {
        JoinRolledBack(s, all, fd, g, mem);
      }
    }
  }

  lemma LeaveRefines(s: Server, all: set<Mcast>, fd: int, g: Name, mem: Mem)
    requires Inv(s, all)
    ensures Abs(ServeLeave(s, fd, g, mem).0) == AskLeave(Abs(s), fd, g).0
    ensures ServeLeave(s, fd, g, mem).1 == AskLeave(Abs(s), fd, g).1
  {
    if FdInRange(fd) && fd in s.users.bySocket {
      var u := s.users.bySocket[fd];
      assert g in s.users.byName[u].joined <==> u in Members(s.users, g);
      if g in s.users.byName[u].joined {
        DepartedInv(s, all, u, g, mem);
        DepartedRefines(s, all, u, g, mem);
      }
    }
  }

  /** The refinement: from any state satisfying the invariant, every request gets the
      reply of the reference and leaves the state the reference leaves. */
  lemma ServeRefines(s: Server, all: set<Mcast>, fd: int, req: Request, mem: Mem)
    requires Inv(s, all) && Fits(req)
    ensures Abs(Serve(s, fd, req, mem).0) == Ask(Abs(s), fd, req, Decide(s, req, mem)).0
    ensures Serve(s, fd, req, mem).1 == Ask(Abs(s), fd, req, Decide(s, req, mem)).1
  {
    match req
    case Register(user, pass) => RegisterRefines(s, fd, user, pass, mem);
    case Login(user, pass) => LoginRefines(s, fd, user, pass);
    case Logout => LogoutRefines(s, all, fd, mem);
    case Create(g) => CreateRefines(s, all, fd, g, mem);
    case Join(g) => JoinRefines(s, all, fd, g, mem);
    case Leave(g) => LeaveRefines(s, all, fd, g, mem);
  }

  /** With every allocation succeeding and no address lost, a request is refused for
      lack of resources exactly when it would open a 256th group. */
  lemma DecideDetermined(s: Server, all: set<Mcast>, req: Request, mem: Mem)
    requires ServerConserved(s, all) && AllocOk(mem)
    ensures Decide(s, req, mem).Deny? <==> req.Create? && |Abs(s).rooms| == POOL_CAPACITY
    ensures Decide(s, req, mem).Deny? ==> Decide(s, req, mem).status == ST_ERR_SERVER_FULL
  {
    assert Held(s.groups.byName).Keys == Abs(s).rooms.Keys;
    assert |Held(s.groups.byName)| == |Abs(s).rooms|;
  }

  /** Every group of the reference has a member, and every member a session. */
  ghost predicate Inhabited(c: Chat) {
    forall g :: g in c.rooms ==> c.rooms[g].members != {} && c.rooms[g].members <= c.sessions.Values
  }

  lemma AbsInhabited(s: Server, all: set<Mcast>)
    requires Inv(s, all)
    ensures Inhabited(Abs(s))
  {
    forall g | g in Abs(s).rooms
      ensures Abs(s).rooms[g].members != {} && Abs(s).rooms[g].members <= Abs(s).sessions.Values
    {
      MembersHaveSockets(s.users, g);
    }
  }
}
