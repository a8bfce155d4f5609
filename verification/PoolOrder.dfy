/** The order in which addresses are handed out, over whole runs of the server. */
module PoolOrder {
  import opened ChatTypes
  import opened Protocol
  import opened UserState
  import opened GroupState
  import opened ServerState
  import opened ServerInvariant
  import opened Runs
  import opened RunProperties
  import Q = GenQueue

  // ----- the addresses taken and granted, as seen from outside the pool

  /** The create that takes an address: by a logged-in user, for a name not in use, while
      the pool is not empty. Whether memory then holds does not matter. */
  function TakenBy(s: Server, ev: Event): seq<Mcast> {
    if RequestOf(ev).Some? && RequestOf(ev).value.Create? && IsLoggedIn(s.users, ev.fd)
       && RequestOf(ev).value.group !in s.groups.byName && s.groups.pool != []
    then [s.groups.pool[0]] else []
  }

  function TakenAlong(s: Server, evs: seq<Event>, mem: nat -> Mem): seq<Mcast>
    requires Linked(s.users)
    decreases |evs|
  {
    if evs == [] then [] else TakenBy(s, evs[0]) + TakenAlong(Step(s, evs[0], mem).0, evs[1..], mem)
  }

  /** The address in a success reply to a create. */
  function GrantTo(ev: Event, answer: Option<Reply>): seq<Mcast> {
    if RequestOf(ev).Some? && RequestOf(ev).value.Create? && answer.Some? && answer.value.Granted?
    then [answer.value.addr] else []
  }

  function Grants(evs: seq<Event>, answers: seq<Option<Reply>>): seq<Mcast>
    requires |evs| == |answers|
    decreases |evs|
  {
    if evs == [] then [] else GrantTo(evs[0], answers[0]) + Grants(evs[1..], answers[1..])
  }

  /** `a` is `b` with some elements left out. */
  ghost predicate Subsequence<T>(a: seq<T>, b: seq<T>) {
    if b == [] then a == []
    else Subsequence(a, b[1..]) || (a != [] && a[0] == b[0] && Subsequence(a[1..], b[1..]))
  }

  lemma GrantIsTaken(s: Server, ev: Event, mem: nat -> Mem)
    requires Linked(s.users)
    ensures GrantTo(ev, Step(s, ev, mem).1) == [] || GrantTo(ev, Step(s, ev, mem).1) == TakenBy(s, ev)
  {
  }

  /** Every granted address was taken, in the same order; an address taken for a create
      that then failed is the only kind left out. */
  lemma {:induction false} GrantsAreTaken(s: Server, evs: seq<Event>, mem: nat -> Mem)
    requires Linked(s.users)
    ensures Subsequence(Grants(evs, Run(s, evs, mem).1), TakenAlong(s, evs, mem))
    decreases |evs|
  {
    if evs != [] {
      var (s1, answer) := Step(s, evs[0], mem);
      var granted, taken := GrantTo(evs[0], answer), TakenBy(s, evs[0]);
      var grants', taken' := Grants(evs[1..], Run(s1, evs[1..], mem).1), TakenAlong(s1, evs[1..], mem);
      GrantIsTaken(s, evs[0], mem);
      GrantsAreTaken(s1, evs[1..], mem);
      OneMore(granted, taken, grants', taken');
      assert Run(s, evs, mem).1[1..] == Run(s1, evs[1..], mem).1;
    }
  }

  lemma OneMore<T>(x: seq<T>, y: seq<T>, a: seq<T>, b: seq<T>)
    requires |y| <= 1 && (x == [] || x == y) && Subsequence(a, b)
    ensures Subsequence(x + a, y + b)
  {
    if y == [] {
      assert x + a == a && y + b == b;
    } else {
      assert (y + b)[1..] == b;
      if x == [] { assert x + a == a; } else { assert (x + a)[1..] == a; }
    }
  }

  lemma TakenIsGranted(s: Server, all: set<Mcast>, ev: Event, mem: nat -> Mem)
    requires Inv(s, all) && AllocOk(mem(s.tick))
    ensures GrantTo(ev, Step(s, ev, mem).1) == TakenBy(s, ev)
  {
    if RequestOf(ev).Some? && RequestOf(ev).value.Create? && IsLoggedIn(s.users, ev.fd) {
      var g := RequestOf(ev).value.group;
      DecodedFits(ev.frame);
      if g !in s.groups.byName {
        NoMembersWhenDead(s, all, g);
        assert s.users.bySocket[ev.fd] !in Members(s.users, g);
      }
    }
  }

  /** With every allocation succeeding the addresses taken are exactly those granted. */
  lemma {:induction false} TakenAreGrants(s: Server, all: set<Mcast>, evs: seq<Event>, mem: nat -> Mem)
    requires Inv(s, all) && forall t: nat :: AllocOk(mem(t))
    ensures Grants(evs, Run(s, evs, mem).1) == TakenAlong(s, evs, mem)
    decreases |evs|
  {
    if evs != [] {
      var s1 := Step(s, evs[0], mem).0;
      TakenIsGranted(s, all, evs[0], mem);
      StepInv(s, all, evs[0], mem);
      TakenAreGrants(s1, all, evs[1..], mem);
      assert Run(s, evs, mem).1[1..] == Run(s1, evs[1..], mem).1;
    }
  }

  // ----- what each operation does to the pool, as takes and puts

  type Ops = seq<Q.Op<Mcast>>

  function GiveBack(addr: Mcast, stored: bool): Ops {
    if stored then [Q.Put(addr)] else []
  }

  function LeaveOps(gs: Groups, name: Name, mem: Mem): Ops {
    if name in gs.byName && gs.byName[name].count <= 1 then GiveBack(gs.byName[name].addr, name !in mem.lost) else []
  }

  function LeaveAllOps(gs: Groups, names: seq<Name>, mem: Mem): Ops
    decreases |names|
  {
    if names == [] then []
    else LeaveOps(gs, names[0], mem) + LeaveAllOps(LeaveGroup(gs, names[0], mem).0, names[1..], mem)
  }

  function CreateOps(gs: Groups, name: Name, mem: Mem): Ops {
    if name in gs.byName || gs.pool == [] then []
    else if CreateGroup(gs, name, mem).1.Granted? then [Q.Take]
    else [Q.Take] + GiveBack(gs.pool[0], name !in mem.lost)
  }

  function LogoutOps(s: Server, fd: int, mem: Mem): Ops
    requires Linked(s.users)
  {
    if IsLoggedIn(s.users, fd) then LeaveAllOps(s.groups, s.users.byName[s.users.bySocket[fd]].joined, mem) else []
  }

  function ServeOps(s: Server, fd: int, req: Request, mem: Mem): Ops
    requires Linked(s.users)
  {
    match req
    case Logout => LogoutOps(s, fd, mem)
    case Create(g) =>
      if !IsLoggedIn(s.users, fd) then []
      else
        var (gs, r) := CreateGroup(s.groups, g, mem);
        CreateOps(s.groups, g, mem) +
        (if r.Granted? && JoinUser(s.users, fd, g, mem).1 != ST_OK then LeaveOps(gs, g, mem) else [])
    case Join(g) =>
      if IsLoggedIn(s.users, fd) && g in s.groups.byName && JoinUser(s.users, fd, g, mem).1 != ST_OK then
        LeaveOps(JoinGroup(s.groups, g).0, g, mem)
      else []
    case Leave(g) => if LeaveUser(s.users, fd, g).1 == ST_OK then LeaveOps(s.groups, g, mem) else []
    case _ => []
  }

  /** The operations lead from one pool to the other and take exactly these addresses. */
  ghost predicate PoolMoves(before: seq<Mcast>, ops: Ops, after: seq<Mcast>, taken: seq<Mcast>) {
    Q.RunOps(before, POOL_CAPACITY, ops).queue == after && Q.RunOps(before, POOL_CAPACITY, ops).taken == taken
  }

  lemma MovesCompose(a: seq<Mcast>, ops: Ops, b: seq<Mcast>, t: seq<Mcast>, ops': Ops, c: seq<Mcast>, t': seq<Mcast>)
    requires PoolMoves(a, ops, b, t) && PoolMoves(b, ops', c, t')
    ensures PoolMoves(a, ops + ops', c, t + t')
  {
    Q.RunOpsAppend(a, POOL_CAPACITY, ops, ops');
  }

  lemma LeaveMoves(gs: Groups, name: Name, mem: Mem)
    ensures PoolMoves(gs.pool, LeaveOps(gs, name, mem), LeaveGroup(gs, name, mem).0.pool, [])
  {
  }

  lemma {:induction false} LeaveAllMoves(gs: Groups, names: seq<Name>, mem: Mem)
    ensures PoolMoves(gs.pool, LeaveAllOps(gs, names, mem), LeaveAll(gs, names, mem).pool, [])
    decreases |names|
  {
    if names != [] {
      var gs' := LeaveGroup(gs, names[0], mem).0;
      LeaveMoves(gs, names[0], mem);
      LeaveAllMoves(gs', names[1..], mem);
      MovesCompose(gs.pool, LeaveOps(gs, names[0], mem), gs'.pool, [],
                   LeaveAllOps(gs', names[1..], mem), LeaveAll(gs, names, mem).pool, []);
    }
  }

  lemma CreateMoves(gs: Groups, name: Name, mem: Mem)
    ensures PoolMoves(gs.pool, CreateOps(gs, name, mem), CreateGroup(gs, name, mem).0.pool,
                      if name in gs.byName || gs.pool == [] then [] else [gs.pool[0]])
  {
    if name !in gs.byName && gs.pool != [] {
      assert PoolMoves(gs.pool, [Q.Take], gs.pool[1..], [gs.pool[0]]);
      if CreateGroup(gs, name, mem).1.Plain? {
        var back := GiveBack(gs.pool[0], name !in mem.lost);
        assert PoolMoves(gs.pool[1..], back, CreateGroup(gs, name, mem).0.pool, []);
        MovesCompose(gs.pool, [Q.Take], gs.pool[1..], [gs.pool[0]], back, CreateGroup(gs, name, mem).0.pool, []);
      }
    }
  }

  lemma ServeCreateMoves(s: Server, fd: int, g: Name, mem: Mem)
    requires Linked(s.users) && IsLoggedIn(s.users, fd)
    ensures PoolMoves(s.groups.pool, ServeOps(s, fd, Create(g), mem), ServeCreate(s, fd, g, mem).0.groups.pool,
                      if g in s.groups.byName || s.groups.pool == [] then [] else [s.groups.pool[0]])
  {
    var gs := CreateGroup(s.groups, g, mem).0;
    var ops, taken := CreateOps(s.groups, g, mem), if g in s.groups.byName || s.groups.pool == [] then [] else [s.groups.pool[0]];
    CreateMoves(s.groups, g, mem);
    LeaveMoves(gs, g, mem);
    MovesCompose(s.groups.pool, ops, gs.pool, taken, LeaveOps(gs, g, mem), LeaveGroup(gs, g, mem).0.pool, []);
    assert ops + [] == ops && taken + [] == taken;
  }

  function StepOps(s: Server, ev: Event, mem: nat -> Mem): Ops
    requires Linked(s.users)
  {
    match ev
    case Message(fd, frame) =>
      if DecodeRequest(frame) == None then [] else ServeOps(s, fd, DecodeRequest(frame).value, mem(s.tick))
    case Drop(fd) => LogoutOps(s, fd, mem(s.tick))
  }

  function RunPoolOps(s: Server, evs: seq<Event>, mem: nat -> Mem): Ops
    requires Linked(s.users)
    decreases |evs|
  {
    if evs == [] then [] else StepOps(s, evs[0], mem) + RunPoolOps(Step(s, evs[0], mem).0, evs[1..], mem)
  }

  lemma LogoutMoves(s: Server, fd: int, mem: Mem)
    requires Linked(s.users)
    ensures PoolMoves(s.groups.pool, LogoutOps(s, fd, mem), LogoutUser(s, fd, mem).0.groups.pool, [])
  {
    if IsLoggedIn(s.users, fd) { LeaveAllMoves(s.groups, s.users.byName[s.users.bySocket[fd]].joined, mem); }
  }

  lemma StepMoves(s: Server, ev: Event, mem: nat -> Mem)
    requires Linked(s.users)
    ensures PoolMoves(s.groups.pool, StepOps(s, ev, mem), Step(s, ev, mem).0.groups.pool, TakenBy(s, ev))
  {
    var m := mem(s.tick);
    if ev.Drop? || RequestOf(ev) == Some(Logout) {
      LogoutMoves(s, ev.fd, m);
    } else if RequestOf(ev).Some? {
      match RequestOf(ev).value
      case Register(_, _) =>
      case Login(_, _) =>
      case Create(g) => if IsLoggedIn(s.users, ev.fd) { ServeCreateMoves(s, ev.fd, g, m); }
      case Join(g) => LeaveMoves(JoinGroup(s.groups, g).0, g, m);
      case Leave(g) => LeaveMoves(s.groups, g, m);
    }
  }

  /** A run moves the pool by takes at the front and puts at the back only, and its takes
      are those of its creates. */
  lemma {:induction false} RunMoves(s: Server, evs: seq<Event>, mem: nat -> Mem)
    requires Linked(s.users)
    ensures PoolMoves(s.groups.pool, RunPoolOps(s, evs, mem), Run(s, evs, mem).0.groups.pool, TakenAlong(s, evs, mem))
    decreases |evs|
  {
    if evs != [] {
      var s1 := Step(s, evs[0], mem).0;
      StepMoves(s, evs[0], mem);
      RunMoves(s1, evs[1..], mem);
      MovesCompose(s.groups.pool, StepOps(s, evs[0], mem), s1.groups.pool, TakenBy(s, evs[0]),
                   RunPoolOps(s1, evs[1..], mem), Run(s, evs, mem).0.groups.pool, TakenAlong(s1, evs[1..], mem));
    }
  }

  // ----- addresses come round in turn

  /** `addr`, behind `ahead` in the pool, is the next one after them to be handed out, and
      until then waits at the place the takes have moved it to. */
  ghost predicate InTurn(handed: seq<Mcast>, pool: seq<Mcast>, ahead: seq<Mcast>, addr: Mcast) {
    if |handed| > |ahead| then handed[|ahead|] == addr && handed[..|ahead|] == ahead
    else handed == ahead[..|handed|] && |pool| > |ahead| - |handed| && pool[|ahead| - |handed|] == addr
  }

  /** Whatever the server is asked to do and whatever fails, an address in the pool behind k
      others is the one taken by the (k+1)-th create that takes one. */
  lemma AddressTakenInTurn(s: Server, evs: seq<Event>, mem: nat -> Mem, ahead: seq<Mcast>, addr: Mcast)
    requires Linked(s.users) && ahead + [addr] <= s.groups.pool
    ensures InTurn(TakenAlong(s, evs, mem), Run(s, evs, mem).0.groups.pool, ahead, addr)
  {
    RunMoves(s, evs, mem);
    MovesInTurn(s.groups.pool, ahead, addr, RunPoolOps(s, evs, mem), Run(s, evs, mem).0.groups.pool, TakenAlong(s, evs, mem));
  }

  lemma MovesInTurn(before: seq<Mcast>, ahead: seq<Mcast>, addr: Mcast, ops: Ops, after: seq<Mcast>, taken: seq<Mcast>)
    requires PoolMoves(before, ops, after, taken) && ahead + [addr] <= before
    ensures InTurn(taken, after, ahead, addr)
  {
    Q.HandedOutInTurn(before, ahead, addr, POOL_CAPACITY, ops);
  }

  /** With every allocation succeeding it is the address in the (k+1)-th success reply to a
      create, the k before it being those that were ahead of it, in order. */
  lemma AddressReusedInTurn(s: Server, all: set<Mcast>, evs: seq<Event>, mem: nat -> Mem, ahead: seq<Mcast>, addr: Mcast)
    requires Inv(s, all) && (forall t: nat :: AllocOk(mem(t))) && ahead + [addr] <= s.groups.pool
    ensures InTurn(Grants(evs, Run(s, evs, mem).1), Run(s, evs, mem).0.groups.pool, ahead, addr)
  {
    AddressTakenInTurn(s, evs, mem, ahead, addr);
    TakenAreGrants(s, all, evs, mem);
  }

  // ----- the order in which a logout gives addresses back

  /** The addresses of the groups that have one member left, in the order of the names. */
  function Closing(groups: map<Name, Group>, names: seq<Name>): seq<Mcast> {
    if names == [] then []
    else (if names[0] in groups && groups[names[0]].count == 1 then [groups[names[0]].addr] else []) + Closing(groups, names[1..])
  }

  lemma {:induction false} ClosingElsewhere(groups: map<Name, Group>, groups': map<Name, Group>, names: seq<Name>)
    requires forall n :: n in names ==> (n in groups <==> n in groups') && (n in groups ==> groups[n] == groups'[n])
    ensures Closing(groups, names) == Closing(groups', names)
  {
    if names != [] {
      ClosingElsewhere(groups, groups', names[1..]);
    }
  }

  lemma {:induction false} LeaveAllReturns(gs: Groups, names: seq<Name>, mem: Mem)
    requires NoDup(names) && (forall n :: n in names ==> n in gs.byName && gs.byName[n].count > 0)
    requires |gs.pool| + |gs.byName| <= 255 && mem.lost == {}
    ensures LeaveAll(gs, names, mem).pool == gs.pool + Closing(gs.byName, names)
    decreases |names|
  {
    if names != [] {
      var gs' := LeaveGroup(gs, names[0], mem).0;
      assert names[0] !in names[1..];
      assert |gs.byName| > 0 && |gs'.pool| + |gs'.byName| <= 255 by { LeaveShrinks(gs, names[0], mem); }
      LeaveAllReturns(gs', names[1..], mem);
      ClosingElsewhere(gs.byName, gs'.byName, names[1..]);
    }
  }

  lemma LeaveShrinks(gs: Groups, name: Name, mem: Mem)
    requires name in gs.byName && gs.byName[name].count > 0 && mem.lost == {} && |gs.pool| + |gs.byName| <= 255
    ensures var gs' := LeaveGroup(gs, name, mem).0;
            |gs.byName| > 0 && |gs'.pool| + |gs'.byName| <= 255
            && gs'.pool == gs.pool + if gs.byName[name].count == 1 then [gs.byName[name].addr] else []
  {
    assert gs.byName.Keys == (gs.byName - {name}).Keys + {name};
  }

  /** A logout puts the addresses of the groups it closes behind the pool in the order in
      which the user had joined them. */
  lemma LogoutReturns(s: Server, all: set<Mcast>, fd: int, mem: Mem)
    requires Inv(s, all) && IsLoggedIn(s.users, fd) && mem.lost == {}
    ensures LogoutUser(s, fd, mem).0.groups.pool
         == s.groups.pool + Closing(s.groups.byName, s.users.byName[s.users.bySocket[fd]].joined)
  {
    assert |Held(s.groups.byName)| == |s.groups.byName| by {
      assert Held(s.groups.byName).Keys == s.groups.byName.Keys;
    }
    LeaveAllReturns(s.groups, s.users.byName[s.users.bySocket[fd]].joined, mem);
  }
}
