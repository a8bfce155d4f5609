/** The main theorems about runs of the server. */
module RunProperties {
  import opened ChatTypes
  import opened Framing
  import opened Protocol
  import opened McastAddresses
  import opened UserState
  import opened GroupState
  import opened ServerState
  import opened ServerInvariant
  import opened Reference
  import opened Runs

  // ----- refinement over runs

  function RequestOf(ev: Event): Option<Request> {
    if ev.Message? then DecodeRequest(ev.frame) else None
  }

  /** The reference's answer to an event. */
  function AskStep(c: Chat, ev: Event, d: Decision): (Chat, Option<Reply>) {
    match ev
    case Message(fd, frame) =>
      if DecodeRequest(frame) == None then (c, None)
      else
        var (c', reply) := Ask(c, fd, DecodeRequest(frame).value, d);
        (c', Some(reply))
    case Drop(fd) => (AskLogout(c, fd).0, None)
  }

  function AskRun(c: Chat, evs: seq<Event>, ds: seq<Decision>): (Chat, seq<Option<Reply>>)
    requires |ds| == |evs|
    decreases |evs|
  {
    if evs == [] then (c, [])
    else
      var (c1, answer) := AskStep(c, evs[0], ds[0]);
      var (c2, answers) := AskRun(c1, evs[1..], ds[1..]);
      (c2, [answer] + answers)
  }

  ghost predicate LegalRun(c: Chat, evs: seq<Event>, ds: seq<Decision>, all: set<Mcast>)
    requires |ds| == |evs|
    decreases |evs|
  {
    evs != [] ==>
      && (RequestOf(evs[0]).Some? ==> Legal(c, RequestOf(evs[0]).value, ds[0], all))
      && LegalRun(AskStep(c, evs[0], ds[0]).0, evs[1..], ds[1..], all)
  }

  /** The decisions the server takes along a run. */
  function DecideStep(s: Server, ev: Event, mem: nat -> Mem): Decision {
    if RequestOf(ev).Some? then Decide(s, RequestOf(ev).value, mem(s.tick)) else Allow(Mcast([], 0))
  }

  function Decisions(s: Server, evs: seq<Event>, mem: nat -> Mem): (ds: seq<Decision>)
    requires Linked(s.users)
    ensures |ds| == |evs|
    decreases |evs|
  {
    if evs == [] then []
    else [DecideStep(s, evs[0], mem)] + Decisions(Step(s, evs[0], mem).0, evs[1..], mem)
  }

  lemma StepRefines(s: Server, all: set<Mcast>, ev: Event, mem: nat -> Mem)
    requires Inv(s, all)
    ensures Abs(Step(s, ev, mem).0) == AskStep(Abs(s), ev, DecideStep(s, ev, mem)).0
    ensures Step(s, ev, mem).1 == AskStep(Abs(s), ev, DecideStep(s, ev, mem)).1
  {
    match ev
    case Message(fd, frame) =>
      if DecodeRequest(frame).Some? {
        DecodedFits(frame);
        ServeRefines(s, all, fd, DecodeRequest(frame).value, mem(s.tick));
      }
    case Drop(fd) =>
      LogoutRefines(s, all, fd, mem(s.tick));
  }

  /** Over every run the server is the reference: same answers, same abstract state,
      for decisions that are legal at every point of the run. */
  lemma {:induction false} RunRefines(s: Server, all: set<Mcast>, evs: seq<Event>, mem: nat -> Mem)
    requires Inv(s, all)
    ensures Abs(Run(s, evs, mem).0) == AskRun(Abs(s), evs, Decisions(s, evs, mem)).0
    ensures Run(s, evs, mem).1 == AskRun(Abs(s), evs, Decisions(s, evs, mem)).1
    ensures LegalRun(Abs(s), evs, Decisions(s, evs, mem), all)
    decreases |evs|
  {
    if evs != [] {
      var s1 := Step(s, evs[0], mem).0;
      StepInv(s, all, evs[0], mem);
      StepRefines(s, all, evs[0], mem);
      if RequestOf(evs[0]).Some? {
        DecideLegal(s, all, RequestOf(evs[0]).value, mem(s.tick));
      }
      RunRefines(s1, all, evs[1..], mem);
      assert Decisions(s, evs, mem)[1..] == Decisions(s1, evs[1..], mem);
    }
  }

  /** A server that has just started knows no user, no session and no group. */
  lemma StartsEmpty(made: nat -> bool)
    ensures Abs(Init(made)) == Chat(map[], map[], map[])
    ensures Init(made).users.byName == map[] && Init(made).users.bySocket == map[] && Init(made).groups.byName == map[]
  {
  }

  /** From start-up on, over every run, the server is the reference that starts with nothing. */
  lemma RunFromStart(made: nat -> bool, evs: seq<Event>, mem: nat -> Mem)
    ensures var ds := Decisions(Init(made), evs, mem);
            var (c, answers) := AskRun(Chat(map[], map[], map[]), evs, ds);
            && Abs(Run(Init(made), evs, mem).0) == c && Run(Init(made), evs, mem).1 == answers
            && LegalRun(Chat(map[], map[], map[]), evs, ds, AllAddresses())
  {
    StartsEmpty(made);
    InitInv(made);
    RunRefines(Init(made), AllAddresses(), evs, mem);
  }

  // ----- with allocation succeeding the statuses are determined

  /** Denied exactly when a 256th group is asked for. */
  predicate IdealDecision(c: Chat, ev: Event, d: Decision) {
    RequestOf(ev).Some? ==>
      && (d.Deny? <==> RequestOf(ev).value.Create? && |c.rooms| == POOL_CAPACITY)
      && (d.Deny? ==> d.status == ST_ERR_SERVER_FULL)
  }

  ghost predicate IdealRun(c: Chat, evs: seq<Event>, ds: seq<Decision>)
    requires |ds| == |evs|
    decreases |evs|
  {
    evs != [] ==> IdealDecision(c, evs[0], ds[0]) && IdealRun(AskStep(c, evs[0], ds[0]).0, evs[1..], ds[1..])
  }

  lemma {:induction false} IdealWhenAllocOk(s: Server, all: set<Mcast>, evs: seq<Event>, mem: nat -> Mem)
    requires Inv(s, all) && ServerConserved(s, all) && forall t: nat :: AllocOk(mem(t))
    ensures IdealRun(Abs(s), evs, Decisions(s, evs, mem))
    decreases |evs|
  {
    if evs != [] {
      var s1 := Step(s, evs[0], mem).0;
      StepInv(s, all, evs[0], mem);
      StepRefines(s, all, evs[0], mem);
      if RequestOf(evs[0]).Some? {
        DecideDetermined(s, all, RequestOf(evs[0]).value, mem(s.tick));
      }
      IdealWhenAllocOk(s1, all, evs[1..], mem);
      assert Decisions(s, evs, mem)[1..] == Decisions(s1, evs[1..], mem);
    }
  }

  /** Two reference states that differ in nothing but the addresses. */
  ghost predicate SameShape(c: Chat, c': Chat) {
    && c.accounts == c'.accounts && c.sessions == c'.sessions && c.rooms.Keys == c'.rooms.Keys
    && forall g :: g in c.rooms ==> c.rooms[g].members == c'.rooms[g].members
  }

  function StatusIn(answer: Option<Reply>): Option<Status> {
    if answer == None then None else Some(StatusOf(answer.value))
  }

  lemma SameRoomCount(c: Chat, c': Chat)
    requires SameShape(c, c')
    ensures |c.rooms| == |c'.rooms|
  {
    assert |c.rooms| == |c.rooms.Keys| && |c'.rooms| == |c'.rooms.Keys|;
  }

  lemma ShapeLeave(c: Chat, c': Chat, fd: int, g: Name)
    requires SameShape(c, c')
    ensures SameShape(AskLeave(c, fd, g).0, AskLeave(c', fd, g).0)
    ensures AskLeave(c, fd, g).1 == AskLeave(c', fd, g).1
  {
  }

  lemma ShapeLogout(c: Chat, c': Chat, fd: int)
    requires SameShape(c, c')
    ensures SameShape(AskLogout(c, fd).0, AskLogout(c', fd).0)
    ensures AskLogout(c, fd).1 == AskLogout(c', fd).1
  {
  }

  lemma ShapeEnter(c: Chat, c': Chat, fd: int, g: Name, d: Decision, d': Decision)
    requires SameShape(c, c') && (d.Deny? <==> d'.Deny?) && (d.Deny? ==> d == d')
    ensures SameShape(AskCreate(c, fd, g, d).0, AskCreate(c', fd, g, d').0)
    ensures StatusOf(AskCreate(c, fd, g, d).1) == StatusOf(AskCreate(c', fd, g, d').1)
    ensures SameShape(AskJoin(c, fd, g, d).0, AskJoin(c', fd, g, d').0)
    ensures StatusOf(AskJoin(c, fd, g, d).1) == StatusOf(AskJoin(c', fd, g, d').1)
  {
  }

  lemma ShapeAsk(c: Chat, c': Chat, fd: int, req: Request, d: Decision, d': Decision)
    requires SameShape(c, c') && (d.Deny? <==> d'.Deny?) && (d.Deny? ==> d == d')
    ensures SameShape(Ask(c, fd, req, d).0, Ask(c', fd, req, d').0)
    ensures StatusOf(Ask(c, fd, req, d).1) == StatusOf(Ask(c', fd, req, d').1)
  {
    match req
    case Register(_, _) =>
    case Login(_, _) =>
    case Logout => ShapeLogout(c, c', fd);
    case Create(g) => ShapeEnter(c, c', fd, g, d, d');
    case Join(g) => ShapeEnter(c, c', fd, g, d, d');
    case Leave(g) => ShapeLeave(c, c', fd, g);
  }

  lemma ShapeStep(c: Chat, c': Chat, ev: Event, d: Decision, d': Decision)
    requires SameShape(c, c') && IdealDecision(c, ev, d) && IdealDecision(c', ev, d')
    ensures SameShape(AskStep(c, ev, d).0, AskStep(c', ev, d').0)
    ensures StatusIn(AskStep(c, ev, d).1) == StatusIn(AskStep(c', ev, d').1)
  {
    SameRoomCount(c, c');
    match ev
    case Message(fd, frame) =>
      if DecodeRequest(frame).Some? {
        ShapeAsk(c, c', fd, DecodeRequest(frame).value, d, d');
      }
    case Drop(fd) =>
      ShapeLogout(c, c', fd);
  }

  lemma {:induction false} ShapeRun(c: Chat, c': Chat, evs: seq<Event>, ds: seq<Decision>, ds': seq<Decision>)
    requires |ds| == |evs| == |ds'| && SameShape(c, c') && IdealRun(c, evs, ds) && IdealRun(c', evs, ds')
    ensures SameShape(AskRun(c, evs, ds).0, AskRun(c', evs, ds').0)
    ensures |AskRun(c, evs, ds).1| == |AskRun(c', evs, ds').1| == |evs|
    ensures forall i :: 0 <= i < |evs| ==> StatusIn(AskRun(c, evs, ds).1[i]) == StatusIn(AskRun(c', evs, ds').1[i])
    decreases |evs|
  {
    if evs != [] {
      ShapeStep(c, c', evs[0], ds[0], ds'[0]);
      ShapeRun(AskStep(c, evs[0], ds[0]).0, AskStep(c', evs[0], ds'[0]).0, evs[1..], ds[1..], ds'[1..]);
    }
  }

  /** With every allocation succeeding, the statuses of a run are determined by the
      events and the abstract state alone: two servers whose counters, lists, pool order
      and addresses differ but which abstract to the same chat answer alike for ever. */
  lemma StatusesDetermined(s: Server, s': Server, all: set<Mcast>, evs: seq<Event>, mem: nat -> Mem, mem': nat -> Mem)
    requires Inv(s, all) && ServerConserved(s, all) && forall t: nat :: AllocOk(mem(t))
    requires Inv(s', all) && ServerConserved(s', all) && forall t: nat :: AllocOk(mem'(t))
    requires SameShape(Abs(s), Abs(s'))
    ensures forall i :: 0 <= i < |evs| ==> StatusIn(Run(s, evs, mem).1[i]) == StatusIn(Run(s', evs, mem').1[i])
    ensures SameShape(Abs(Run(s, evs, mem).0), Abs(Run(s', evs, mem').0))
  {
    RunRefines(s, all, evs, mem);
    RunRefines(s', all, evs, mem');
    IdealWhenAllocOk(s, all, evs, mem);
    IdealWhenAllocOk(s', all, evs, mem');
    ShapeRun(Abs(s), Abs(s'), evs, Decisions(s, evs, mem), Decisions(s', evs, mem'));
  }

  // ----- a group keeps its address for its whole life

  ghost predicate Enters(ev: Event, g: Name) {
    RequestOf(ev) == Some(Create(g)) || RequestOf(ev) == Some(Join(g))
  }

  ghost predicate GrantsOnly(answer: Option<Reply>, a: Mcast) {
    answer.Some? && answer.value.Granted? ==> answer.value.addr == a
  }

  lemma AskKeepsAddress(c: Chat, fd: int, req: Request, d: Decision, g: Name)
    requires g in c.rooms && g in Ask(c, fd, req, d).0.rooms
    ensures Ask(c, fd, req, d).0.rooms[g].addr == c.rooms[g].addr
  {
  }

  lemma AskGrantsTheAddress(c: Chat, fd: int, req: Request, d: Decision, g: Name)
    requires req == Create(g) || req == Join(g)
    requires Ask(c, fd, req, d).1.Granted?
    ensures g in Ask(c, fd, req, d).0.rooms
    ensures Ask(c, fd, req, d).0.rooms[g].addr == Ask(c, fd, req, d).1.addr
  {
  }

  lemma AddressStep(s: Server, all: set<Mcast>, ev: Event, mem: nat -> Mem, g: Name)
    requires Inv(s, all)
    ensures var s' := Step(s, ev, mem).0;
            g in s.groups.byName && g in s'.groups.byName ==> s'.groups.byName[g].addr == s.groups.byName[g].addr
    ensures var (s', answer) := Step(s, ev, mem);
            Enters(ev, g) && answer.Some? && answer.value.Granted? ==>
              g in s'.groups.byName && s'.groups.byName[g].addr == answer.value.addr
  {
    var c, c' := Abs(s), Abs(Step(s, ev, mem).0);
    StepRefines(s, all, ev, mem);
    if RequestOf(ev).Some? {
      var req, d := RequestOf(ev).value, DecideStep(s, ev, mem);
      if g in c.rooms && g in c'.rooms { AskKeepsAddress(c, ev.fd, req, d, g); }
      if Enters(ev, g) && Ask(c, ev.fd, req, d).1.Granted? { AskGrantsTheAddress(c, ev.fd, req, d, g); }
    }
    assert g in s.groups.byName ==> c.rooms[g].addr == s.groups.byName[g].addr;
    assert g in Step(s, ev, mem).0.groups.byName ==> c'.rooms[g].addr == Step(s, ev, mem).0.groups.byName[g].addr;
  }

  /** The group exists before, between and after the events. */
  ghost predicate LiveThroughout(s: Server, evs: seq<Event>, mem: nat -> Mem, g: Name)
    requires Linked(s.users)
    decreases |evs|
  {
    g in s.groups.byName && (evs != [] ==> LiveThroughout(Step(s, evs[0], mem).0, evs[1..], mem, g))
  }

  /** While a group lives, its address does not change and every later success reply for
      it carries that address. */
  lemma {:induction false} AddressAgreement(s: Server, all: set<Mcast>, evs: seq<Event>, mem: nat -> Mem, g: Name)
    requires Inv(s, all) && LiveThroughout(s, evs, mem, g)
    ensures g in Run(s, evs, mem).0.groups.byName
    ensures Run(s, evs, mem).0.groups.byName[g].addr == s.groups.byName[g].addr
    ensures forall i :: 0 <= i < |evs| && Enters(evs[i], g) ==>
              GrantsOnly(Run(s, evs, mem).1[i], s.groups.byName[g].addr)
    decreases |evs|
  {
    if evs != [] {
      StepInv(s, all, evs[0], mem);
      AddressStep(s, all, evs[0], mem, g);
      AddressAgreement(Step(s, evs[0], mem).0, all, evs[1..], mem, g);
    }
  }

  /** A granted create opens the group; a granted join finds it open. */
  lemma GrantOpens(s: Server, ev: Event, mem: nat -> Mem, g: Name)
    requires Linked(s.users) && Enters(ev, g) && Step(s, ev, mem).1.value.Granted?
    ensures RequestOf(ev) == Some(Create(g)) <==> g !in s.groups.byName
  {
  }

  lemma GrantStep(s: Server, all: set<Mcast>, ev: Event, mem: nat -> Mem, g: Name) returns (s1: Server, answer: Option<Reply>)
    requires Inv(s, all) && Enters(ev, g) && Step(s, ev, mem).1.Some? && Step(s, ev, mem).1.value.Granted?
    ensures (s1, answer) == Step(s, ev, mem) && Inv(s1, all)
    ensures g in s1.groups.byName && s1.groups.byName[g].addr == answer.value.addr
    ensures RequestOf(ev) == Some(Create(g)) <==> g !in s.groups.byName
  {
    s1, answer := Step(s, ev, mem).0, Step(s, ev, mem).1;
    assert Inv(s1, all) by { StepInv(s, all, ev, mem); }
    AddressStep(s, all, ev, mem, g);
    GrantOpens(s, ev, mem, g);
  }

  /** The whole life of a group as its members see it: from the reply that opened it (or
      any later success reply) on, and as long as it lives, every success reply for it
      carries the address of that first reply, which is the address the group holds. */
  lemma AddressLifetime(s: Server, all: set<Mcast>, evs: seq<Event>, mem: nat -> Mem, g: Name)
    requires Inv(s, all) && evs != [] && Enters(evs[0], g)
    requires Step(s, evs[0], mem).1.Some? && Step(s, evs[0], mem).1.value.Granted?
    requires LiveThroughout(Step(s, evs[0], mem).0, evs[1..], mem, g)
    ensures RequestOf(evs[0]) == Some(Create(g)) <==> g !in s.groups.byName
    ensures var told := Run(s, evs, mem).1[0].value.addr;
            && g in Run(s, evs, mem).0.groups.byName && Run(s, evs, mem).0.groups.byName[g].addr == told
            && forall i :: 0 <= i < |evs| && Enters(evs[i], g) ==> GrantsOnly(Run(s, evs, mem).1[i], told)
  {
    var s1, answer := GrantStep(s, all, evs[0], mem, g);
    var later := Run(s1, evs[1..], mem);
    AddressAgreement(s1, all, evs[1..], mem, g);
    assert Run(s, evs, mem) == (later.0, [answer] + later.1);
    forall i | 0 <= i < |evs| && Enters(evs[i], g) ensures GrantsOnly(Run(s, evs, mem).1[i], answer.value.addr) {
      if i > 0 {
        assert evs[i] == evs[1..][i - 1] && Run(s, evs, mem).1[i] == later.1[i - 1];
      }
    }
  }

  /** Two groups alive at the same time never share an address, and none is in the pool. */
  lemma AddressesDistinct(s: Server, all: set<Mcast>, g: Name, h: Name)
    requires Inv(s, all) && g in s.groups.byName && h in s.groups.byName && g != h
    ensures s.groups.byName[g].addr != s.groups.byName[h].addr
    ensures s.groups.byName[g].addr !in s.groups.pool
  {
    assert Held(s.groups.byName)[g] == s.groups.byName[g].addr;
    assert Held(s.groups.byName)[h] == s.groups.byName[h].addr;
  }

  // ----- conservation of addresses

  /** While nothing is lost, pool and live groups together are exactly the 255 addresses,
      so the pool always has room for an address that comes back, and creating a fresh
      group is refused for lack of addresses exactly when 255 groups are alive. */
  lemma PoolExhausted(s: Server, all: set<Mcast>, fd: int, g: Name, mem: Mem)
    requires Inv(s, all) && ServerConserved(s, all) && AllocOk(mem)
    requires IsLoggedIn(s.users, fd) && g !in s.groups.byName && |g| <= CHAT_MAX_NAME_LEN
    ensures ServeCreate(s, fd, g, mem).1 == Plain(ST_ERR_SERVER_FULL) <==> |s.groups.byName| == POOL_CAPACITY
    ensures |s.groups.byName| < POOL_CAPACITY ==> ServeCreate(s, fd, g, mem).1 == Granted(s.groups.pool[0])
    ensures (set a | a in s.groups.pool) + Held(s.groups.byName).Values == all
    ensures forall h :: h in s.groups.byName ==> |s.groups.pool| < POOL_CAPACITY
  {
    assert |Held(s.groups.byName)| == |s.groups.byName| by {
      assert Held(s.groups.byName).Keys == s.groups.byName.Keys;
    }
    NoMembersWhenDead(s, all, g);
    assert s.users.bySocket[fd] !in Members(s.users, g);
    assert forall h :: h in s.groups.byName ==> |s.groups.byName.Keys| > 0;
  }

  // ----- one reply per request

  ghost predicate AllFit(all: set<Mcast>) {
    forall a :: a in all ==> |a.ip| < CHAT_MAX_IP_STR_LEN && NulFree(a.ip)
  }

  lemma AllAddressesFit()
    ensures AllFit(AllAddresses())
  {
    forall a | a in AllAddresses() ensures |a.ip| < CHAT_MAX_IP_STR_LEN && NulFree(a.ip) {
      var i: nat :| 1 <= i <= POOL_SIZE && a == Address(i);
      AddressFits(i);
    }
  }

  /** A frame that is a request by its layout, said without the decoder. */
  ghost predicate WellFormedRequest(f: seq<byte>) {
    && IsFrame(f)
    && (|| f[0] == OP_LOGOUT_REQ
        || (f[0] in {OP_REG_REQ, OP_LOGIN_REQ} && exists u, p, t :: UserPassLayout(f, u, p, t))
        || (f[0] in {OP_CREATE_GROUP_REQ, OP_JOIN_GROUP_REQ, OP_LEAVE_GROUP_REQ} && exists g, t :: GroupnameLayout(f, g, t)))
  }

  lemma WellFormedIffDecodes(f: seq<byte>)
    requires IsFrame(f)
    ensures WellFormedRequest(f) <==> DecodeRequest(f).Some?
  {
    if DecodeUserPass(f).Some? {
      var u, p, t := UserPassAccepted(f);
    }
    if DecodeGroupname(f).Some? {
      var g, t := GroupnameAccepted(f);
    }
    if u, p, t :| UserPassLayout(f, u, p, t) {
      UserPassAccepts(f, u, p, t);
    }
    if g, t :| GroupnameLayout(f, g, t) {
      GroupnamePartialInverse(f, g, t);
    }
  }

  lemma GrantedAddressesFit(s: Server, all: set<Mcast>, fd: int, req: Request, mem: Mem)
    requires Inv(s, all) && Fits(req) && Serve(s, fd, req, mem).1.Granted?
    ensures Serve(s, fd, req, mem).1.addr in all
  {
    if req.Join? {
      assert Held(s.groups.byName)[req.group] == s.groups.byName[req.group].addr;
    }
  }

  /** What a client reads out of a reply: the status and, with a grant, the address. */
  function Told(reply: Reply): (Status, Mcast) {
    match reply
    case Plain(status) => (status, Mcast([], 0))
    case Granted(addr) => (ST_OK, addr)
  }

  /** A well-formed request gets exactly one reply, of opcode request + 1, from which a
      client reads the status and the address the handler computed; any other frame gets
      none and changes nothing. */
  ghost predicate AnsweredOnce(s: Server, fd: int, f: seq<byte>, mem: nat -> Mem)
    requires Linked(s.users)
  {
    var (s', answer) := Deliver(s, fd, f, mem);
    var sent := Post(fd, f, answer);
    if WellFormedRequest(f) then
      && answer.Some? && |sent| == 1
      && sent[0].fd == fd && IsFrame(sent[0].bytes) && sent[0].bytes[0] == f[0] + 1
      && DecodeGroupRep(sent[0].bytes) == Some(Told(answer.value))
    else
      s' == s.(tick := s.tick + 1) && answer == None && sent == []
  }

  lemma OneReplyPerRequest(s: Server, all: set<Mcast>, fd: int, f: seq<byte>, mem: nat -> Mem)
    requires Inv(s, all) && AllFit(all) && IsFrame(f) && fd >= 0
    ensures AnsweredOnce(s, fd, f, mem)
  {
    WellFormedIffDecodes(f);
    if WellFormedRequest(f) {
      DecodedFits(f);
      var reply := Serve(s, fd, DecodeRequest(f).value, mem(s.tick)).1;
      if reply.Granted? {
        GrantedAddressesFit(s, all, fd, DecodeRequest(f).value, mem(s.tick));
        GroupRepRoundTrip(f[0] + 1, reply.addr);
      } else {
        StatusRoundTrip(f[0] + 1, reply.status);
      }
    }
  }

  /** So it is in every state a server can get into. */
  lemma ReachableOneReply(made: nat -> bool, evs: seq<Event>, mem: nat -> Mem, fd: int, f: seq<byte>)
    requires IsFrame(f) && fd >= 0
    ensures AnsweredOnce(Run(Init(made), evs, mem).0, fd, f, mem)
  {
    ReachableInv(made, evs, mem);
    AllAddressesFit();
    OneReplyPerRequest(Run(Init(made), evs, mem).0, AllAddresses(), fd, f, mem);
  }

  // ----- who is affected by what

  lemma RoomsTell(us: Users, groups: map<Name, Group>, us': Users, groups': map<Name, Group>, u: Name, g: Name)
    requires Rooms(us', groups') == WithoutUser(Rooms(us, groups), u)
    requires CountersSound(us, groups) && CountersSound(us', groups')
    ensures g in groups' <==> g in groups && Members(us, g) != {u}
    ensures g in groups' ==> groups'[g].addr == groups[g].addr
    ensures g in groups' ==> groups'[g].count == groups[g].count - if u in Members(us, g) then 1 else 0
  {
    assert groups'.Keys == Rooms(us', groups').Keys;
    if g in groups' {
      assert Rooms(us', groups')[g] == Room(Members(us, g) - {u}, groups[g].addr);
      assert Members(us', g) == Members(us, g) - {u};
    }
  }

  /** A logout or disconnect takes the user out of exactly their groups, once each,
      closes exactly those they were the last member of, and touches nobody else. */
  lemma LogoutEffects(s: Server, all: set<Mcast>, fd: int, mem: Mem, g: Name)
    requires Inv(s, all) && IsLoggedIn(s.users, fd)
    ensures var u := s.users.bySocket[fd];
            var s' := LogoutUser(s, fd, mem).0;
            && s'.users.bySocket == s.users.bySocket - {fd}
            && (forall n :: n in s.users.byName && n != u ==> n in s'.users.byName && s'.users.byName[n] == s.users.byName[n])
            && (g in s'.groups.byName <==> g in s.groups.byName && Members(s.users, g) != {u})
            && (g in s'.groups.byName ==>
                 && s'.groups.byName[g].addr == s.groups.byName[g].addr
                 && s'.groups.byName[g].count == s.groups.byName[g].count - if u in Members(s.users, g) then 1 else 0)
  {
    var s' := LogoutUser(s, fd, mem).0;
    assert Inv(s', all) && Abs(s') == AskLogout(Abs(s), fd).0 by {
      LogoutInv(s, all, fd, mem);
      LogoutRefines(s, all, fd, mem);
    }
    RoomsTell(s.users, s.groups.byName, s'.users, s'.groups.byName, s.users.bySocket[fd], g);
  }

  /** Nothing that happens on other sockets changes a session or what its user has joined. */
  lemma OtherSocketsUntouched(s: Server, ev: Event, mem: nat -> Mem, fd: int)
    requires SessionsAgree(s.users) && ev.fd != fd
    ensures var us := Step(s, ev, mem).0.users;
            && (fd in us.bySocket <==> fd in s.users.bySocket)
            && (fd in us.bySocket ==>
                 && us.bySocket[fd] == s.users.bySocket[fd]
                 && us.bySocket[fd] in us.byName
                 && us.byName[us.bySocket[fd]] == s.users.byName[us.bySocket[fd]])
  {
    match ev
    case Message(other, frame) =>
      if DecodeRequest(frame).Some? {
        OthersUntouched(s, other, DecodeRequest(frame).value, mem(s.tick), fd);
      }
    case Drop(other) =>
      OthersUntouched(s, other, Logout, mem(s.tick), fd);
  }

  lemma OthersUntouched(s: Server, other: int, req: Request, mem: Mem, fd: int)
    requires SessionsAgree(s.users) && other != fd
    ensures var us := Serve(s, other, req, mem).0.users;
            && (fd in us.bySocket <==> fd in s.users.bySocket)
            && (fd in us.bySocket ==>
                 && us.bySocket[fd] == s.users.bySocket[fd]
                 && us.bySocket[fd] in us.byName
                 && us.byName[us.bySocket[fd]] == s.users.byName[us.bySocket[fd]])
  {
    if fd in s.users.bySocket && other in s.users.bySocket {
      assert s.users.bySocket[other] != s.users.bySocket[fd];
    }
  }

  // ----- counters over runs

  /** In every reachable state each group's counter is the number of users whose list
      holds its name, all of them online, and lies between 1 and FD_SETSIZE. */
  lemma ReachableCounter(made: nat -> bool, evs: seq<Event>, mem: nat -> Mem, g: Name)
    requires g in Run(Init(made), evs, mem).0.groups.byName
    ensures var s := Run(Init(made), evs, mem).0;
            && s.groups.byName[g].count == |Members(s.users, g)|
            && 1 <= s.groups.byName[g].count <= FD_SETSIZE
            && forall n :: n in Members(s.users, g) ==> s.users.byName[n].online
  {
    ReachableInv(made, evs, mem);
    CounterBound(Run(Init(made), evs, mem).0, AllAddresses(), g);
  }

  /** No leave in any run is answered "group not found": a name in a user's list is
      always the name of a live group. */
  lemma {:induction false} LeaveAlwaysFindsGroup(s: Server, all: set<Mcast>, evs: seq<Event>, mem: nat -> Mem)
    requires Inv(s, all)
    ensures forall i :: 0 <= i < |evs| && RequestOf(evs[i]).Some? && RequestOf(evs[i]).value.Leave? ==>
              StatusIn(Run(s, evs, mem).1[i]) != Some(ST_ERR_GROUP_NOT_FOUND)
    decreases |evs|
  {
    if evs != [] {
      var ev := evs[0];
      if RequestOf(ev).Some? && RequestOf(ev).value.Leave? {
        LeaveInv(s, all, ev.fd, RequestOf(ev).value.group, mem(s.tick));
      }
      StepInv(s, all, ev, mem);
      LeaveAlwaysFindsGroup(Step(s, ev, mem).0, all, evs[1..], mem);
    }
  }
}
