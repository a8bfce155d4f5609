/** The server's state and every operation on it, as functions on values.
    The classes in UserMng, GroupMng and ServerMng are proved to compute these;
    the properties in ServerInvariant and later modules are proved about them. */
module UserState {
  import opened ChatTypes

  /** `fd` is the C field `socketFd`: -1 while offline. */
  datatype User = User(password: Name, online: bool, fd: int, joined: seq<Name>)

  /** The name index and the socket index. */
  datatype Users = Users(byName: map<Name, User>, bySocket: map<int, Name>)

  const NO_USERS := Users(map[], map[])

  predicate FdInRange(fd: int) {
    0 <= fd < FD_SETSIZE
  }

  predicate IsLoggedIn(us: Users, fd: int) {
    FdInRange(fd) && fd in us.bySocket
  }

  function RegisterUser(us: Users, name: Name, pass: Name, mem: Mem): (Users, Status) {
    if name in us.byName then (us, ST_ERR_USER_EXISTS)
    else if !mem.entity || !mem.list then (us, ST_ERR_SERVER_FULL)
    else if Trunc(name) in us.byName || !mem.slot then (us, ST_ERR_SERVER_FULL)
    else (us.(byName := us.byName[Trunc(name) := User(Trunc(pass), false, -1, [])]), ST_OK)
  }

  function LoginUser(us: Users, name: Name, pass: Name, fd: int): (Users, Status) {
    if !FdInRange(fd) then (us, ST_ERR_PROTOCOL)
    else if fd in us.bySocket then (us, ST_ERR_ALREADY_LOGGED_IN)
    else if name !in us.byName then (us, ST_ERR_USER_NOT_FOUND)
    else if us.byName[name].password != pass then (us, ST_ERR_BAD_PASSWORD)
    else if us.byName[name].online then (us, ST_ERR_ALREADY_LOGGED_IN)
    else (Users(us.byName[name := us.byName[name].(online := true, fd := fd)],
                us.bySocket[fd := name]), ST_OK)
  }

  /** Both indices lead to the same record; a socket index pointing at nothing
      cannot be expressed by the source, whose index holds the record itself. */
  ghost predicate Linked(us: Users) {
    forall fd :: fd in us.bySocket ==> us.bySocket[fd] in us.byName
  }

  function SetJoined(us: Users, u: Name, joined: seq<Name>): Users
    requires u in us.byName
  {
    us.(byName := us.byName[u := us.byName[u].(joined := joined)])
  }

  function JoinUser(us: Users, fd: int, group: Name, mem: Mem): (Users, Status)
    requires Linked(us)
  {
    if !FdInRange(fd) then (us, ST_ERR_PROTOCOL)
    else if fd !in us.bySocket then (us, ST_ERR_NOT_LOGGED_IN)
    else
      var u := us.bySocket[fd];
      var joined := us.byName[u].joined;
      if group in joined then (us, ST_ERR_ALREADY_IN_GROUP)
      else if !mem.name || !mem.node then (us, ST_ERR_SERVER_FULL)
      else (SetJoined(us, u, joined + [group]), ST_OK)
  }

  /** The list without its first occurrence of `x`. */
  function RemoveFirst(s: seq<Name>, x: Name): seq<Name> {
    if s == [] then [] else if s[0] == x then s[1..] else [s[0]] + RemoveFirst(s[1..], x)
  }

  function LeaveUser(us: Users, fd: int, group: Name): (Users, Status)
    requires Linked(us)
  {
    if !FdInRange(fd) then (us, ST_ERR_PROTOCOL)
    else if fd !in us.bySocket then (us, ST_ERR_NOT_LOGGED_IN)
    else
      var u := us.bySocket[fd];
      var joined := us.byName[u].joined;
      if group in joined then (SetJoined(us, u, RemoveFirst(joined, group)), ST_OK)
      else (us, ST_ERR_NOT_IN_GROUP)
  }

  /** The last three statements of a logout. */
  function GoOffline(us: Users, fd: int): Users
    requires fd in us.bySocket && us.bySocket[fd] in us.byName
  {
    var u := us.bySocket[fd];
    Users(us.byName[u := us.byName[u].(online := false, fd := -1)], us.bySocket - {fd})
  }
}

module GroupState {
  import opened ChatTypes

  const POOL_CAPACITY := 255

  /** The server keeps no member list, only a counter. */
  datatype Group = Group(addr: Mcast, count: nat)

  datatype Groups = Groups(byName: map<Name, Group>, pool: seq<Mcast>)

  /** FreeMcQueue_Return: a full pool or a failed allocation drops the address. */
  function ReturnAddr(pool: seq<Mcast>, addr: Mcast, stored: bool): seq<Mcast> {
    if stored && |pool| < POOL_CAPACITY then pool + [addr] else pool
  }

  /** GroupMng_CreateGroup: an address is granted, or the reason why not. */
  function CreateGroup(gs: Groups, name: Name, mem: Mem): (Groups, Reply) {
    if name in gs.byName then (gs, Plain(ST_ERR_GROUP_EXISTS))
    else if gs.pool == [] then (gs, Plain(ST_ERR_SERVER_FULL))
    else
      var addr, rest := gs.pool[0], gs.pool[1..];
      if !mem.entity || Trunc(name) in gs.byName || !mem.slot then
        (gs.(pool := ReturnAddr(rest, addr, name !in mem.lost)), Plain(ST_ERR_PROTOCOL))
      else
        (Groups(gs.byName[Trunc(name) := Group(addr, 1)], rest), Granted(addr))
  }

  function JoinGroup(gs: Groups, name: Name): (Groups, Reply) {
    if name !in gs.byName then (gs, Plain(ST_ERR_GROUP_NOT_FOUND))
    else
      var g := gs.byName[name];
      (gs.(byName := gs.byName[name := g.(count := g.count + 1)]), Granted(g.addr))
  }

  function LeaveGroup(gs: Groups, name: Name, mem: Mem): (Groups, Status) {
    if name !in gs.byName then (gs, ST_ERR_GROUP_NOT_FOUND)
    else
      var g := gs.byName[name];
      var count := if g.count > 0 then g.count - 1 else 0;
      if count == 0 then
        (Groups(gs.byName - {name}, ReturnAddr(gs.pool, g.addr, name !in mem.lost)), ST_OK)
      else
        (gs.(byName := gs.byName[name := g.(count := count)]), ST_OK)
  }

  /** The leave callback applied to a list of names, front to back. */
  function LeaveAll(gs: Groups, names: seq<Name>, mem: Mem): Groups
    decreases |names|
  {
    if names == [] then gs else LeaveAll(LeaveGroup(gs, names[0], mem).0, names[1..], mem)
  }
}

module ServerState {
  import opened ChatTypes
  import opened UserState
  import opened GroupState

  /** `tick` counts the requests and disconnects handled so far; the allocation
      outcomes of the next one are `mem(tick)` for an arbitrary oracle `mem`. */
  datatype Server = Server(users: Users, groups: Groups, tick: nat)

  function LogoutUser(s: Server, fd: int, mem: Mem): (Server, Status)
    requires Linked(s.users)
  {
    if !FdInRange(fd) then (s, ST_ERR_PROTOCOL)
    else if fd !in s.users.bySocket then (s, ST_ERR_NOT_LOGGED_IN)
    else
      var u := s.users.bySocket[fd];
      var names := s.users.byName[u].joined;
      (s.(users := GoOffline(SetJoined(s.users, u, []), fd),
          groups := LeaveAll(s.groups, names, mem)), ST_OK)
  }

  function ServeCreate(s: Server, fd: int, group: Name, mem: Mem): (Server, Reply)
    requires Linked(s.users)
  {
    if !IsLoggedIn(s.users, fd) then (s, Plain(ST_ERR_NOT_LOGGED_IN))
    else
      var (gs, r) := CreateGroup(s.groups, group, mem);
      if r.Plain? then (s.(groups := gs), r)
      else
        var (us, st) := JoinUser(s.users, fd, group, mem);
        if st != ST_OK then (s.(groups := LeaveGroup(gs, group, mem).0), Plain(ST_ERR_SERVER_FULL))
        else (s.(users := us, groups := gs), r)
  }

  function ServeJoin(s: Server, fd: int, group: Name, mem: Mem): (Server, Reply)
    requires Linked(s.users)
  {
    if !IsLoggedIn(s.users, fd) then (s, Plain(ST_ERR_NOT_LOGGED_IN))
    else
      var (gs, r) := JoinGroup(s.groups, group);
      if r.Plain? then (s, r)
      else
        var (us, st) := JoinUser(s.users, fd, group, mem);
        if st != ST_OK then (s.(groups := LeaveGroup(gs, group, mem).0), Plain(st))
        else (s.(users := us, groups := gs), r)
  }

  function ServeLeave(s: Server, fd: int, group: Name, mem: Mem): (Server, Reply)
    requires Linked(s.users)
  {
    var (us, st) := LeaveUser(s.users, fd, group);
    if st != ST_OK then (s, Plain(st))
    else
      var (gs, st') := LeaveGroup(s.groups, group, mem);
      (s.(users := us, groups := gs), Plain(st'))
  }

  /** One decoded request on socket `fd`. */
  function Serve(s: Server, fd: int, req: Request, mem: Mem): (r: (Server, Reply))
    requires Linked(s.users)
    ensures Linked(r.0.users) && r.0.tick == s.tick
  {
    match req
    case Register(user, pass) =>
      var (us, st) := RegisterUser(s.users, user, pass, mem);
      (s.(users := us), Plain(st))
    case Login(user, pass) =>
      var (us, st) := LoginUser(s.users, user, pass, fd);
      (s.(users := us), Plain(st))
    case Logout =>
      var (s', st) := LogoutUser(s, fd, mem);
      (s', Plain(st))
    case Create(group) => ServeCreate(s, fd, group, mem)
    case Join(group) => ServeJoin(s, fd, group, mem)
    case Leave(group) => ServeLeave(s, fd, group, mem)
  }
}
