/** The select loop: the classes of the server, run from start-up, perform exactly the runs
    of the network model. */
module ServerRun {
  import opened ChatTypes
  import opened McastAddresses
  import opened UserState
  import opened NetState
  import opened NetProperties
  import opened SelectLoop
  import opened ServerManager
  import opened ServerNetwork

  // ----- one event after the other

  /** A server in a state the theorems speak about. (The trigger keeps what that means
      folded up until it is mentioned.) */
  ghost predicate Sound(net: ServerNet)
    reads net, net.Repr, net.server, net.server.users, net.server.groups, net.server.users.Repr, net.server.groups.Repr
  {
    && Linked(net.View().server.users) && |net.View().slots| == MAX_CLIENTS
    && forall all {:trigger SoundFor(net, all)} :: all == AllAddresses() ==> SoundFor(net, all)
  }

  ghost predicate SoundFor(net: ServerNet, all: set<Mcast>)
    reads net, net.Repr, net.server, net.server.users, net.server.groups, net.server.users.Repr, net.server.groups.Repr
  {
    net.Valid() && NetInv(net.View(), all)
  }

  /** The handler of an event performs its step. */
  method Perform(net: ServerNet, ev: NetEvent)
    requires Sound(net) && OsHonest(net.View(), ev)
    modifies net.Repr, net.server.Repr()
    ensures Sound(net) && fresh(net.server.Repr() - old(net.server.Repr()))
    ensures net.View() == NetStep(old(net.View()), ev, net.server.mem)
  {
    assert SoundFor(net, AllAddresses());
    NetStepInv(net.View(), AllAddresses(), ev, net.server.mem);
    match ev {
      case Accept(newFd) =>
        net.HandleNewConnection(newFd);
      case Receive(i, chunk) =>
        BufferNeverFull(net.View(), AllAddresses(), i);
        net.HandleClientData(i, chunk);
      case Close(i) =>
        BufferNeverFull(net.View(), AllAddresses(), i);
        net.HandleClientData(i, []);
    }
  }

  /** ServerMng_Init and ServerNet_Create. */
  method Start(listenFd: int, made: nat -> bool, mem: nat -> Mem) returns (net: ServerNet)
    requires FdInRange(listenFd)
    ensures Sound(net) && fresh(net.Repr) && fresh(net.server.Repr())
    ensures net.View() == InitialNet(listenFd, made) && net.server.mem == mem
  {
    var server := new ServerMng(made, mem);
    net := new ServerNet(listenFd, server);
    InitialNetInv(listenFd, made);
  }

  /** Performing the events from here on leads to the goal. */
  ghost predicate Pending(net: Net, evs: seq<NetEvent>, mem: nat -> Mem, goal: Net) {
    Linked(net.server.users) && HonestRun(net, evs, mem) && NetRun(net, evs, mem) == goal
  }

  lemma PendingStep(net: Net, evs: seq<NetEvent>, k: nat, mem: nat -> Mem, goal: Net)
    requires k < |evs| && Pending(net, evs[k..], mem, goal)
    ensures OsHonest(net, evs[k]) && Pending(NetStep(net, evs[k], mem), evs[k + 1..], mem, goal)
  {
    assert evs[k..][0] == evs[k] && evs[k..][1..] == evs[k + 1..];
  }

  method PerformAll(net: ServerNet, evs: seq<NetEvent>)
    requires Sound(net) && HonestRun(net.View(), evs, net.server.mem)
    modifies net.Repr, net.server.Repr()
    ensures Sound(net) && fresh(net.server.Repr() - old(net.server.Repr()))
    ensures net.View() == NetRun(old(net.View()), evs, net.server.mem)
  {
    ghost var goal := NetRun(net.View(), evs, net.server.mem);
    assert evs[0..] == evs;
    var k := 0;
    while k < |evs|
      invariant 0 <= k <= |evs| && Sound(net) && fresh(net.server.Repr() - old(net.server.Repr()))
      invariant Pending(net.View(), evs[k..], net.server.mem, goal)
    {
      PendingStep(net.View(), evs, k, net.server.mem, goal);
      Perform(net, evs[k]);
      k := k + 1;
    }
  }

  /** Any honest run of events, from start-up on, takes the objects of the server to the
      state the model reaches. */
  method ServeEvents(listenFd: int, made: nat -> bool, mem: nat -> Mem, evs: seq<NetEvent>) returns (net: ServerNet)
    requires FdInRange(listenFd) && HonestRun(InitialNet(listenFd, made), evs, mem)
    ensures Sound(net) && fresh(net.Repr) && fresh(net.server.Repr())
    ensures net.View() == NetRun(InitialNet(listenFd, made), evs, mem)
  {
    net := Start(listenFd, made, mem);
    PerformAll(net, evs);
  }

  // ----- the select loop itself

  /** The test of the pass for one slot, and the handler behind it. */
  method HandleSlot(net: ServerNet, i: nat, r: Round)
    requires Sound(net) && i < MAX_CLIENTS && HonestSweep(net.View(), i, r)
    modifies net.Repr, net.server.Repr()
    ensures Sound(net) && fresh(net.server.Repr() - old(net.server.Repr()))
    ensures net.View() == SlotStep(old(net.View()), i, r, net.server.mem)
  {
    assert SoundFor(net, AllAddresses()) && net.SlotValid(i);
    var fd := net.clients[i].fd;
    if -1 != fd && fd in r.ready {
      SlotStepHonest(net.View(), i, r, net.server.mem);
      BufferNeverFull(net.View(), AllAddresses(), i);
      NetStepInv(net.View(), AllAddresses(), DataEvent(i, r), net.server.mem);
      net.HandleClientData(i, r.data(i));
    }
  }

  /** The rest of the pass leads to the goal. */
  ghost predicate SweepPending(net: Net, i: nat, r: Round, mem: nat -> Mem, goal: Net) {
    Linked(net.server.users) && |net.slots| == MAX_CLIENTS && HonestSweep(net, i, r) && NetRun(net, Sweep(net, i, r, mem), mem) == goal
  }

  lemma SweepPendingStep(net: Net, i: nat, r: Round, mem: nat -> Mem, goal: Net)
    requires i < MAX_CLIENTS && SweepPending(net, i, r, mem, goal)
    ensures HonestSweep(net, i, r) && SweepPending(SlotStep(net, i, r, mem), i + 1, r, mem, goal)
  {
    SlotStepHonest(net, i, r, mem);
    SweepStep(net, i, r, mem);
  }

  method SweepTable(net: ServerNet, r: Round)
    requires Sound(net) && HonestSweep(net.View(), 0, r)
    modifies net.Repr, net.server.Repr()
    ensures Sound(net) && fresh(net.server.Repr() - old(net.server.Repr()))
    ensures net.View() == NetRun(old(net.View()), Sweep(old(net.View()), 0, r, net.server.mem), net.server.mem)
  {
    ghost var goal := NetRun(net.View(), Sweep(net.View(), 0, r, net.server.mem), net.server.mem);
    var i := 0;
    while i < MAX_CLIENTS
      invariant 0 <= i <= MAX_CLIENTS && Sound(net) && fresh(net.server.Repr() - old(net.server.Repr()))
      invariant SweepPending(net.View(), i, r, net.server.mem, goal)
    {
      SweepPendingStep(net.View(), i, r, net.server.mem, goal);
      HandleSlot(net, i, r);
      i := i + 1;
    }
  }

  /** The test for a new connection at the head of a round. */
  method AcceptArrival(net: ServerNet, r: Round)
    requires Sound(net) && HonestRound(net.View(), r)
    modifies net.Repr, net.server.Repr()
    ensures Sound(net) && fresh(net.server.Repr() - old(net.server.Repr())) && HonestSweep(net.View(), 0, r)
    ensures net.View() == NetRun(old(net.View()), Arrival(old(net.View()), r), net.server.mem)
  {
    ArrivalHonest(net.View(), r, net.server.mem);
    if net.listenFd in r.ready {
      Perform(net, Accept(r.newFd));
    }
  }

  /** One round of the loop, once select has returned. */
  method SelectRound(net: ServerNet, r: Round)
    requires Sound(net) && HonestRound(net.View(), r)
    modifies net.Repr, net.server.Repr()
    ensures Sound(net) && fresh(net.server.Repr() - old(net.server.Repr()))
    ensures net.View() == NetRun(old(net.View()), RoundEvents(old(net.View()), r, net.server.mem), net.server.mem)
  {
    RoundHonest(net.View(), r, net.server.mem);
    AcceptArrival(net, r);
    SweepTable(net, r);
  }

  ghost predicate RoundsPending(net: Net, rounds: seq<Round>, mem: nat -> Mem, goal: Net) {
    && Linked(net.server.users) && HonestRounds(net, rounds, mem)
    && NetRun(net, RoundsEvents(net, rounds, mem), mem) == goal
  }

  lemma RoundsPendingStep(net: Net, rounds: seq<Round>, k: nat, mem: nat -> Mem, goal: Net)
    requires k < |rounds| && RoundsPending(net, rounds[k..], mem, goal)
    ensures HonestRound(net, rounds[k])
    ensures RoundsPending(NetRun(net, RoundEvents(net, rounds[k], mem), mem), rounds[k + 1..], mem, goal)
  {
    assert rounds[k..][0] == rounds[k] && rounds[k..][1..] == rounds[k + 1..];
    var evs := RoundEvents(net, rounds[k], mem);
    NetRunAppend(net, evs, RoundsEvents(NetRun(net, evs, mem), rounds[k + 1..], mem), mem);
  }

  /** ServerNet_Run over the rounds select returns before the server is told to stop. */
  method RunLoop(net: ServerNet, rounds: seq<Round>)
    requires Sound(net) && HonestRounds(net.View(), rounds, net.server.mem)
    modifies net.Repr, net.server.Repr()
    ensures Sound(net) && fresh(net.server.Repr() - old(net.server.Repr()))
    ensures net.View() == NetRun(old(net.View()), RoundsEvents(old(net.View()), rounds, net.server.mem), net.server.mem)
  {
    ghost var goal := NetRun(net.View(), RoundsEvents(net.View(), rounds, net.server.mem), net.server.mem);
    assert rounds[0..] == rounds;
    var k := 0;
    while k < |rounds|
      invariant 0 <= k <= |rounds| && Sound(net) && fresh(net.server.Repr() - old(net.server.Repr()))
      invariant RoundsPending(net.View(), rounds[k..], net.server.mem, goal)
    {
      RoundsPendingStep(net.View(), rounds, k, net.server.mem, goal);
      SelectRound(net, rounds[k]);
      k := k + 1;
    }
  }

  /** The whole program: start the server and let its select loop run. Whatever select,
      accept and recv report, the objects end in the state that an honest run of the network
      model reaches, so every theorem about such runs is about this program. */
  method Serve(listenFd: int, made: nat -> bool, mem: nat -> Mem, rounds: seq<Round>) returns (net: ServerNet)
    requires FdInRange(listenFd) && HonestRounds(InitialNet(listenFd, made), rounds, mem)
    ensures Sound(net) && fresh(net.Repr) && fresh(net.server.Repr())
    ensures var evs := RoundsEvents(InitialNet(listenFd, made), rounds, mem);
            net.View() == NetRun(InitialNet(listenFd, made), evs, mem) && HonestRun(InitialNet(listenFd, made), evs, mem)
  {
    RoundsHonest(InitialNet(listenFd, made), rounds, mem);
    net := Start(listenFd, made, mem);
    RunLoop(net, rounds);
  }
}
