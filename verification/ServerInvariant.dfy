/** What every request and every disconnect keeps true of the server. */
module ServerInvariant {
  import opened ChatTypes
  import opened UserState
  import opened GroupState
  import opened ServerState

  /** The name index and the socket index describe the same sessions. */
  ghost predicate SessionsAgree(us: Users) {
    && Linked(us)
    && (forall fd :: fd in us.bySocket ==>
          FdInRange(fd) && us.byName[us.bySocket[fd]].online && us.byName[us.bySocket[fd]].fd == fd)
    && (forall n :: n in us.byName && us.byName[n].online ==>
          us.byName[n].fd in us.bySocket && us.bySocket[us.byName[n].fd] == n)
    && (forall n :: n in us.byName && !us.byName[n].online ==>
          us.byName[n].fd == -1 && us.byName[n].joined == [])
  }

  /** The member set the server never stores. */
  ghost function Members(us: Users, g: Name): set<Name> {
    set n | n in us.byName && g in us.byName[n].joined
  }

  ghost predicate ListsSound(us: Users, live: set<Name>) {
    forall n :: n in us.byName ==>
      NoDup(us.byName[n].joined) && forall g :: g in us.byName[n].joined ==> g in live
  }

  ghost predicate CountersSound(us: Users, groups: map<Name, Group>) {
    forall g :: g in groups ==> groups[g].count == |Members(us, g)| && groups[g].count > 0
  }

  /** Which address each live group holds. */
  ghost function Held(groups: map<Name, Group>): map<Name, Mcast> {
    map g | g in groups :: groups[g].addr
  }

  /** Live groups and free pool never share an address, and the pool has room
      for every address that is held. */
  ghost predicate AddressesApart(held: map<Name, Mcast>, pool: seq<Mcast>, all: set<Mcast>) {
    && NoDup(pool)
    && (forall a :: a in pool ==> a in all)
    && (forall g :: g in held ==> held[g] in all && held[g] !in pool)
    && (forall g, h :: g in held && h in held && g != h ==> held[g] != held[h])
    && |pool| + |held| <= POOL_CAPACITY
  }

  /** Nothing has been lost: every address is free or held. */
  ghost predicate Conserved(held: map<Name, Mcast>, pool: seq<Mcast>, all: set<Mcast>) {
    && |pool| + |held| == POOL_CAPACITY
    && forall a :: a in all ==> a in pool || a in held.Values
  }

  ghost predicate ServerConserved(s: Server, all: set<Mcast>) {
    Conserved(Held(s.groups.byName), s.groups.pool, all)
  }

  ghost predicate Inv(s: Server, all: set<Mcast>) {
    && SessionsAgree(s.users)
    && ListsSound(s.users, s.groups.byName.Keys)
    && CountersSound(s.users, s.groups.byName)
    && AddressesApart(Held(s.groups.byName), s.groups.pool, all)
  }

  // ----- the user lists

  lemma MembersAfterJoin(us: Users, u: Name, g: Name, h: Name)
    requires u in us.byName && g !in us.byName[u].joined
    ensures Members(SetJoined(us, u, us.byName[u].joined + [g]), h)
         == if h == g then Members(us, h) + {u} else Members(us, h)
  {
  }

  lemma {:induction false} RemoveFirstRemoves(s: seq<Name>, x: Name)
    requires NoDup(s)
    ensures NoDup(RemoveFirst(s, x))
    ensures forall y :: y in RemoveFirst(s, x) <==> y in s && y != x
    ensures x in s ==> |RemoveFirst(s, x)| == |s| - 1
  {
    if s == [] {
    } else if s[0] == x {
    } else {
      RemoveFirstRemoves(s[1..], x);
      assert s == [s[0]] + s[1..];
      assert s[0] !in RemoveFirst(s[1..], x);
    }
  }

  lemma MembersAfterLeave(us: Users, u: Name, g: Name, h: Name)
    requires u in us.byName && NoDup(us.byName[u].joined)
    ensures Members(SetJoined(us, u, RemoveFirst(us.byName[u].joined, g)), h)
         == if h == g then Members(us, h) - {u} else Members(us, h)
  {
    RemoveFirstRemoves(us.byName[u].joined, g);
  }

  // ----- the pool

  lemma TakeKeepsApart(held: map<Name, Mcast>, pool: seq<Mcast>, all: set<Mcast>, name: Name)
    requires AddressesApart(held, pool, all) && name !in held && pool != []
    ensures AddressesApart(held[name := pool[0]], pool[1..], all)
    ensures Conserved(held, pool, all) ==> Conserved(held[name := pool[0]], pool[1..], all)
  {
    var held' := held[name := pool[0]];
    assert pool == [pool[0]] + pool[1..];
    forall a | a in held.Values || a == pool[0] ensures a in held'.Values {
      if a == pool[0] {
        assert held'[name] == a;
      } else {
        var g :| g in held && held[g] == a;
        assert held'[g] == a;
      }
    }
  }

  lemma CloseKeepsApart(held: map<Name, Mcast>, pool: seq<Mcast>, all: set<Mcast>, name: Name, stored: bool)
    requires AddressesApart(held, pool, all) && name in held
    ensures AddressesApart(held - {name}, ReturnAddr(pool, held[name], stored), all)
    ensures stored ==> ReturnAddr(pool, held[name], stored) == pool + [held[name]]
    ensures Conserved(held, pool, all) && stored ==>
              Conserved(held - {name}, ReturnAddr(pool, held[name], stored), all)
  {
    var held' := held - {name};
    assert held.Keys == held'.Keys + {name};
    assert |held| == |held'| + 1;
    forall a | a in held.Values && a != held[name] ensures a in held'.Values {
      var g :| g in held && held[g] == a;
      assert held'[g] == a;
    }
  }

  lemma RotateKeepsApart(held: map<Name, Mcast>, pool: seq<Mcast>, all: set<Mcast>, stored: bool)
    requires AddressesApart(held, pool, all) && pool != []
    ensures AddressesApart(held, ReturnAddr(pool[1..], pool[0], stored), all)
    ensures Conserved(held, pool, all) && stored ==> Conserved(held, ReturnAddr(pool[1..], pool[0], stored), all)
  {
    assert pool == [pool[0]] + pool[1..];
  }

  lemma HeldAfter(groups: map<Name, Group>, name: Name, g: Group)
    ensures Held(groups[name := g]) == Held(groups)[name := g.addr]
    ensures Held(groups - {name}) == Held(groups) - {name}
    ensures name in groups && g.addr == groups[name].addr ==> Held(groups[name := g]) == Held(groups)
  {
  }

  // ----- one member leaves one group: the step shared by leave, logout and disconnect

  function Departed(s: Server, u: Name, g: Name, mem: Mem): Server
    requires u in s.users.byName
  {
    s.(users := SetJoined(s.users, u, RemoveFirst(s.users.byName[u].joined, g)),
       groups := LeaveGroup(s.groups, g, mem).0)
  }

  lemma SetJoinedKeepsSessions(us: Users, u: Name, joined: seq<Name>)
    requires SessionsAgree(us) && u in us.byName && (us.byName[u].online || joined == [])
    ensures SessionsAgree(SetJoined(us, u, joined))
  {
  }

  /** The group's counter after the departure counts exactly those who remain. */
  lemma DepartedCounters(s: Server, u: Name, g: Name, mem: Mem)
    requires CountersSound(s.users, s.groups.byName) && ListsSound(s.users, s.groups.byName.Keys)
    requires u in s.users.byName && g in s.users.byName[u].joined
    ensures CountersSound(Departed(s, u, g, mem).users, Departed(s, u, g, mem).groups.byName)
    ensures g !in Departed(s, u, g, mem).groups.byName <==> Members(s.users, g) == {u}
    ensures ListsSound(Departed(s, u, g, mem).users, Departed(s, u, g, mem).groups.byName.Keys)
  {
    var s' := Departed(s, u, g, mem);
    RemoveFirstRemoves(s.users.byName[u].joined, g);
    forall h ensures Members(s'.users, h) == if h == g then Members(s.users, h) - {u} else Members(s.users, h) {
      MembersAfterLeave(s.users, u, g, h);
    }
    assert u in Members(s.users, g);
    if s.groups.byName[g].count == 1 {
      NobodyLeft(s.users, u, g);
      forall n | n in s'.users.byName ensures g !in s'.users.byName[n].joined {
        assert n !in Members(s'.users, g);
      }
    }
  }

  lemma NobodyLeft(us: Users, u: Name, g: Name)
    requires u in Members(us, g) && |Members(us, g)| == 1
    ensures Members(us, g) == {u}
  {
    assert |Members(us, g) - {u}| == 0;
  }

  lemma DepartedInv(s: Server, all: set<Mcast>, u: Name, g: Name, mem: Mem)
    requires Inv(s, all) && u in s.users.byName && g in s.users.byName[u].joined
    ensures g in s.groups.byName && s.groups.byName[g].count > 0
    ensures LeaveGroup(s.groups, g, mem).1 == ST_OK
    ensures Inv(Departed(s, u, g, mem), all)
    ensures ServerConserved(s, all) && g !in mem.lost ==> ServerConserved(Departed(s, u, g, mem), all)
  {
    DepartedCounters(s, u, g, mem);
    SetJoinedKeepsSessions(s.users, u, RemoveFirst(s.users.byName[u].joined, g));
    var rec := s.groups.byName[g];
    HeldAfter(s.groups.byName, g, rec.(count := rec.count - 1));
    CloseKeepsApart(Held(s.groups.byName), s.groups.pool, all, g, g !in mem.lost);
  }

  // ----- each request

  /** Removing the groups one by one is the list walk of a logout. */
  lemma {:induction false} ShedInv(s: Server, all: set<Mcast>, u: Name, mem: Mem)
    requires Inv(s, all) && u in s.users.byName
    ensures Inv(Shed(s, u, mem), all)
    ensures ServerConserved(s, all) && mem.lost == {} ==> ServerConserved(Shed(s, u, mem), all)
    decreases |s.users.byName[u].joined|
  {
    var names := s.users.byName[u].joined;
    if names == [] {
      assert SetJoined(s.users, u, []) == s.users;
    } else {
      DepartedInv(s, all, u, names[0], mem);
      ShedFirst(s, u, mem);
      ShedInv(Departed(s, u, names[0], mem), all, u, mem);
    }
  }

  /** The user out of every group, still online. */
  function Shed(s: Server, u: Name, mem: Mem): Server
    requires u in s.users.byName
  {
    s.(users := SetJoined(s.users, u, []), groups := LeaveAll(s.groups, s.users.byName[u].joined, mem))
  }

  lemma ShedFirst(s: Server, u: Name, mem: Mem)
    requires u in s.users.byName && s.users.byName[u].joined != []
    ensures Shed(s, u, mem) == Shed(Departed(s, u, s.users.byName[u].joined[0], mem), u, mem)
  {
  }

  lemma OfflineKeepsSessions(us: Users, fd: int)
    requires SessionsAgree(us) && fd in us.bySocket && us.byName[us.bySocket[fd]].joined == []
    ensures SessionsAgree(GoOffline(us, fd))
    ensures forall h :: Members(GoOffline(us, fd), h) == Members(us, h)
  {
  }

  lemma LogoutInv(s: Server, all: set<Mcast>, fd: int, mem: Mem)
    requires Inv(s, all)
    ensures Inv(LogoutUser(s, fd, mem).0, all)
    ensures ServerConserved(s, all) && mem.lost == {} ==> ServerConserved(LogoutUser(s, fd, mem).0, all)
  {
    if FdInRange(fd) && fd in s.users.bySocket {
      ShedInv(s, all, s.users.bySocket[fd], mem);
      OfflineKeepsSessions(Shed(s, s.users.bySocket[fd], mem).users, fd);
    }
  }

  lemma RegisterInv(s: Server, all: set<Mcast>, user: Name, pass: Name, mem: Mem)
    requires Inv(s, all)
    ensures Inv(s.(users := RegisterUser(s.users, user, pass, mem).0), all)
  {
    var us := RegisterUser(s.users, user, pass, mem).0;
    forall h ensures Members(us, h) == Members(s.users, h) {
    }
  }

  lemma LoginInv(s: Server, all: set<Mcast>, user: Name, pass: Name, fd: int)
    requires Inv(s, all)
    ensures Inv(s.(users := LoginUser(s.users, user, pass, fd).0), all)
  {
    LoginKeepsSessions(s.users, user, pass, fd);
  }

  lemma LoginKeepsSessions(us: Users, user: Name, pass: Name, fd: int)
    requires SessionsAgree(us)
    ensures SessionsAgree(LoginUser(us, user, pass, fd).0)
    ensures forall h :: Members(LoginUser(us, user, pass, fd).0, h) == Members(us, h)
  {
  }

  /** A user enters a group whose counter already includes them. */
  lemma EnteredCounters(us: Users, groups: map<Name, Group>, groups': map<Name, Group>, u: Name, g: Name)
    requires CountersSound(us, groups) && ListsSound(us, groups.Keys)
    requires u in us.byName && g !in us.byName[u].joined
    requires groups'.Keys == groups.Keys + {g}
    requires forall h :: h in groups' && h != g ==> groups'[h] == groups[h]
    requires groups'[g].count == 1 + |Members(us, g)|
    ensures CountersSound(SetJoined(us, u, us.byName[u].joined + [g]), groups')
    ensures ListsSound(SetJoined(us, u, us.byName[u].joined + [g]), groups'.Keys)
  {
    var us' := SetJoined(us, u, us.byName[u].joined + [g]);
    forall h ensures Members(us', h) == if h == g then Members(us, h) + {u} else Members(us, h) {
      MembersAfterJoin(us, u, g, h);
    }
    assert u !in Members(us, g);
    forall n | n in us'.byName
      ensures NoDup(us'.byName[n].joined) && forall h :: h in us'.byName[n].joined ==> h in groups'.Keys
    {
      assert NoDup(us.byName[n].joined);
    }
  }

  lemma NoMembersWhenDead(s: Server, all: set<Mcast>, g: Name)
    requires Inv(s, all) && g !in s.groups.byName
    ensures Members(s.users, g) == {}
  {
  }

  lemma CreatedUsers(s: Server, fd: int, g: Name, mem: Mem)
    requires SessionsAgree(s.users) && CountersSound(s.users, s.groups.byName) && ListsSound(s.users, s.groups.byName.Keys)
    requires |g| <= CHAT_MAX_NAME_LEN && IsLoggedIn(s.users, fd) && Members(s.users, g) == {}
    requires CreateGroup(s.groups, g, mem).1.Granted? && JoinUser(s.users, fd, g, mem).1 == ST_OK
    ensures var s' := ServeCreate(s, fd, g, mem).0;
            && s'.groups == Groups(s.groups.byName[g := Group(s.groups.pool[0], 1)], s.groups.pool[1..])
            && SessionsAgree(s'.users) && CountersSound(s'.users, s'.groups.byName)
            && ListsSound(s'.users, s'.groups.byName.Keys)
  {
    var u := s.users.bySocket[fd];
    SetJoinedKeepsSessions(s.users, u, s.users.byName[u].joined + [g]);
    EnteredCounters(s.users, s.groups.byName, s.groups.byName[g := Group(s.groups.pool[0], 1)], u, g);
  }

  lemma CreatedInv(s: Server, all: set<Mcast>, fd: int, g: Name, mem: Mem)
    requires Inv(s, all) && |g| <= CHAT_MAX_NAME_LEN && IsLoggedIn(s.users, fd)
    requires CreateGroup(s.groups, g, mem).1.Granted?
    requires JoinUser(s.users, fd, g, mem).1 == ST_OK
    ensures Inv(ServeCreate(s, fd, g, mem).0, all)
    ensures ServerConserved(s, all) ==> ServerConserved(ServeCreate(s, fd, g, mem).0, all)
  {
    NoMembersWhenDead(s, all, g);
    CreatedUsers(s, fd, g, mem);
    CreatedLedger(s.groups, all, g);
  }

  lemma CreatedLedger(gs: Groups, all: set<Mcast>, g: Name)
    requires AddressesApart(Held(gs.byName), gs.pool, all) && g !in gs.byName && gs.pool != []
    ensures AddressesApart(Held(gs.byName[g := Group(gs.pool[0], 1)]), gs.pool[1..], all)
    ensures Conserved(Held(gs.byName), gs.pool, all) ==>
              Conserved(Held(gs.byName[g := Group(gs.pool[0], 1)]), gs.pool[1..], all)
  {
    HeldAfter(gs.byName, g, Group(gs.pool[0], 1));
    TakeKeepsApart(Held(gs.byName), gs.pool, all, g);
  }

  lemma CreateInv(s: Server, all: set<Mcast>, fd: int, g: Name, mem: Mem)
    requires Inv(s, all) && |g| <= CHAT_MAX_NAME_LEN
    ensures Inv(ServeCreate(s, fd, g, mem).0, all)
    ensures ServerConserved(s, all) && mem.lost == {} ==> ServerConserved(ServeCreate(s, fd, g, mem).0, all)
  {
    if IsLoggedIn(s.users, fd) && g !in s.groups.byName && s.groups.pool != [] {
      RotateKeepsApart(Held(s.groups.byName), s.groups.pool, all, g !in mem.lost);
      if CreateGroup(s.groups, g, mem).1.Granted? {
        if JoinUser(s.users, fd, g, mem).1 == ST_OK {
          CreatedInv(s, all, fd, g, mem);
        } else {
          CreateRolledBack(s, fd, g, mem);
        }
      }
    }
  }

  /** A create whose membership step fails: users and groups are as before and the
      address taken from the front of the pool goes to its back, if it can be stored. */
  lemma CreateRolledBack(s: Server, fd: int, g: Name, mem: Mem)
    requires Linked(s.users) && IsLoggedIn(s.users, fd) && |g| <= CHAT_MAX_NAME_LEN
    requires CreateGroup(s.groups, g, mem).1.Granted? && JoinUser(s.users, fd, g, mem).1 != ST_OK
    ensures ServeCreate(s, fd, g, mem).0
         == s.(groups := s.groups.(pool := ReturnAddr(s.groups.pool[1..], s.groups.pool[0], g !in mem.lost)))
    ensures ServeCreate(s, fd, g, mem).1 == Plain(ST_ERR_SERVER_FULL)
    ensures g !in mem.lost && |s.groups.pool| <= POOL_CAPACITY ==>
              multiset(ServeCreate(s, fd, g, mem).0.groups.pool) == multiset(s.groups.pool)
  {
    var gs := CreateGroup(s.groups, g, mem).0;
    assert gs.byName - {g} == s.groups.byName;
    assert s.groups.pool == [s.groups.pool[0]] + s.groups.pool[1..];
  }

  /** A join rejected after the counter was raised restores the server exactly. */
  lemma JoinRolledBack(s: Server, all: set<Mcast>, fd: int, g: Name, mem: Mem)
    requires Inv(s, all) && IsLoggedIn(s.users, fd) && g in s.groups.byName
    requires JoinUser(s.users, fd, g, mem).1 != ST_OK
    ensures ServeJoin(s, fd, g, mem).0 == s
    ensures ServeJoin(s, fd, g, mem).1 == Plain(JoinUser(s.users, fd, g, mem).1)
  {
    var gs := JoinGroup(s.groups, g).0;
    assert gs.byName[g].count >= 2;
    assert LeaveGroup(gs, g, mem).0.byName == s.groups.byName;
  }

  lemma JoinInv(s: Server, all: set<Mcast>, fd: int, g: Name, mem: Mem)
    requires Inv(s, all)
    ensures Inv(ServeJoin(s, fd, g, mem).0, all)
    ensures ServerConserved(s, all) ==> ServerConserved(ServeJoin(s, fd, g, mem).0, all)
  {
    if IsLoggedIn(s.users, fd) && g in s.groups.byName {
      var u := s.users.bySocket[fd];
      var rec := s.groups.byName[g];
      HeldAfter(s.groups.byName, g, rec.(count := rec.count + 1));
      if JoinUser(s.users, fd, g, mem).1 == ST_OK {
        EnteredCounters(s.users, s.groups.byName, JoinGroup(s.groups, g).0.byName, u, g);
        SetJoinedKeepsSessions(s.users, u, s.users.byName[u].joined + [g]);
      } else {
        JoinRolledBack(s, all, fd, g, mem);
      }
    }
  }

  lemma LeaveInv(s: Server, all: set<Mcast>, fd: int, g: Name, mem: Mem)
    requires Inv(s, all)
    ensures Inv(ServeLeave(s, fd, g, mem).0, all)
    ensures ServerConserved(s, all) && mem.lost == {} ==> ServerConserved(ServeLeave(s, fd, g, mem).0, all)
    ensures StatusOf(ServeLeave(s, fd, g, mem).1) != ST_ERR_GROUP_NOT_FOUND
  {
    if FdInRange(fd) && fd in s.users.bySocket && g in s.users.byName[s.users.bySocket[fd]].joined {
      DepartedInv(s, all, s.users.bySocket[fd], g, mem);
    }
  }

  /** Every request, whatever it is and whichever allocations fail, keeps the
      invariant; no address is lost unless a pool allocation fails. */
  lemma ServeInv(s: Server, all: set<Mcast>, fd: int, req: Request, mem: Mem)
    requires Inv(s, all) && Fits(req)
    ensures Inv(Serve(s, fd, req, mem).0, all)
    ensures ServerConserved(s, all) && mem.lost == {} ==> ServerConserved(Serve(s, fd, req, mem).0, all)
  {
    match req
    case Register(user, pass) => RegisterInv(s, all, user, pass, mem);
    case Login(user, pass) => LoginInv(s, all, user, pass, fd);
    case Logout => LogoutInv(s, all, fd, mem);
    case Create(g) => CreateInv(s, all, fd, g, mem);
    case Join(g) => JoinInv(s, all, fd, g, mem);
    case Leave(g) => LeaveInv(s, all, fd, g, mem);
  }

  // ----- consequences

  /** Members are online users, and those are no more than there are sockets. */
  lemma CounterBound(s: Server, all: set<Mcast>, g: Name)
    requires Inv(s, all) && g in s.groups.byName
    ensures 1 <= s.groups.byName[g].count <= |s.users.bySocket| <= FD_SETSIZE
    ensures forall n :: n in Members(s.users, g) ==> s.users.byName[n].online
  {
    MembersHaveSockets(s.users, g);
    SubsetSize(Members(s.users, g), s.users.bySocket.Values);
    ValuesAtMostKeys(s.users.bySocket);
    BoundedKeys(s.users.bySocket, FD_SETSIZE);
  }

  lemma BoundedKeys<V>(m: map<int, V>, n: nat)
    requires forall k :: k in m ==> 0 <= k < n
    ensures |m| <= n
  {
    BelowSize(n);
    forall k | k in m.Keys ensures k in Below(n) {
      assert k in m;
    }
    SubsetSize(m.Keys, Below(n));
  }

  lemma MembersHaveSockets(us: Users, g: Name)
    requires SessionsAgree(us)
    ensures Members(us, g) <= us.bySocket.Values
    ensures forall n :: n in Members(us, g) ==> us.byName[n].online
  {
    forall n | n in Members(us, g) ensures n in us.bySocket.Values {
      assert us.bySocket[us.byName[n].fd] == n;
    }
  }

  lemma {:induction false} SubsetSize<T>(a: set<T>, b: set<T>)
    requires a <= b
    ensures |a| <= |b|
  {
    if a != {} {
      var x :| x in a;
      SubsetSize(a - {x}, b - {x});
    }
  }

  lemma {:induction false} ValuesAtMostKeys<K, V>(m: map<K, V>)
    ensures |m.Values| <= |m|
  {
    if m != map[] {
      var k :| k in m;
      var m' := m - {k};
      ValuesAtMostKeys(m');
      forall v | v in m.Values ensures v in m'.Values + {m[k]} {
        var j :| j in m && m[j] == v;
        if j != k { assert m'[j] == v; }
      }
      SubsetSize(m.Values, m'.Values + {m[k]});
    }
  }

  ghost function Below(n: nat): set<int> {
    if n == 0 then {} else Below(n - 1) + {n - 1}
  }

  lemma {:induction false} BelowSize(n: nat)
    ensures |Below(n)| == n && forall i :: i in Below(n) <==> 0 <= i < n
  {
    if n > 0 {
      BelowSize(n - 1);
    }
  }
}
