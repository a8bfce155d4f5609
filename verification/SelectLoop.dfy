/** What the select loop asks of the network model: rounds of select as sequences of events. */
module SelectLoop {
  import opened Sequences
  import opened ChatTypes
  import opened Framing
  import opened UserState
  import opened NetState
  import opened NetProperties

  /** One return of select: the descriptors ready, what accept would return, and what recv
      would return on each slot, empty at end of stream or on error. */
  datatype Round = Round(ready: set<int>, newFd: int, data: nat -> seq<byte>)

  predicate Ready(net: Net, i: int, r: Round) {
    Occupied(net, i) && net.slots[i].fd in r.ready
  }

  function DataEvent(i: nat, r: Round): NetEvent {
    if r.data(i) == [] then Close(i) else Receive(i, r.data(i))
  }

  /** What slot i does in a round. */
  function SlotStep(net: Net, i: nat, r: Round, mem: nat -> Mem): (net': Net)
    requires Linked(net.server.users)
    ensures Linked(net'.server.users) && |net'.slots| == |net.slots|
  {
    if Ready(net, i, r) then NetStep(net, DataEvent(i, r), mem) else net
  }

  /** The events of the pass over the table, from slot i on. */
  function Sweep(net: Net, i: nat, r: Round, mem: nat -> Mem): seq<NetEvent>
    requires Linked(net.server.users)
    decreases |net.slots| - i
  {
    if i >= |net.slots| then []
    else (if Ready(net, i, r) then [DataEvent(i, r)] else []) + Sweep(SlotStep(net, i, r, mem), i + 1, r, mem)
  }

  function Arrival(net: Net, r: Round): seq<NetEvent> {
    if net.listenFd in r.ready then [Accept(r.newFd)] else []
  }

  /** The events of a round: a new connection first, then the table, slot by slot. */
  function RoundEvents(net: Net, r: Round, mem: nat -> Mem): seq<NetEvent>
    requires Linked(net.server.users)
  {
    Arrival(net, r) + Sweep(NetRun(net, Arrival(net, r), mem), 0, r, mem)
  }

  function RoundsEvents(net: Net, rounds: seq<Round>, mem: nat -> Mem): seq<NetEvent>
    requires Linked(net.server.users)
    decreases |rounds|
  {
    if rounds == [] then []
    else
      var evs := RoundEvents(net, rounds[0], mem);
      evs + RoundsEvents(NetRun(net, evs, mem), rounds[1..], mem)
  }

  /** The operating system's part in a round: only monitored descriptors are ready, accept
      returns -1 or a descriptor that is not open, recv returns at most the space offered. */
  ghost predicate HonestRound(net: Net, r: Round) {
    && r.ready <= net.master
    && (net.listenFd in r.ready ==> OsHonest(net, Accept(r.newFd)))
    && HonestSweep(net, 0, r)
  }

  ghost predicate HonestSweep(net: Net, i: nat, r: Round) {
    forall j: nat :: j >= i && Ready(net, j, r) ==> |r.data(j)| <= RECV_BUFFER_SIZE - |net.slots[j].residue|
  }

  ghost predicate HonestRounds(net: Net, rounds: seq<Round>, mem: nat -> Mem)
    requires Linked(net.server.users)
    decreases |rounds|
  {
    rounds != [] ==>
      HonestRound(net, rounds[0]) && HonestRounds(NetRun(net, RoundEvents(net, rounds[0], mem), mem), rounds[1..], mem)
  }

  lemma {:induction false} NetRunAppend(net: Net, a: seq<NetEvent>, b: seq<NetEvent>, mem: nat -> Mem)
    requires Linked(net.server.users)
    ensures NetRun(net, a + b, mem) == NetRun(NetRun(net, a, mem), b, mem)
    ensures HonestRun(net, a, mem) && HonestRun(NetRun(net, a, mem), b, mem) ==> HonestRun(net, a + b, mem)
    decreases |a|
  {
    if a == [] {
      PrependNone(a, b);
    } else {
      AppendTail(a, b);
      NetRunAppend(NetStep(net, a[0], mem), a[1..], b, mem);
    }
  }

  /** Handling one slot leaves the others as they are. */
  lemma SlotStepHonest(net: Net, i: nat, r: Round, mem: nat -> Mem)
    requires Linked(net.server.users) && HonestSweep(net, i, r)
    ensures Ready(net, i, r) ==> OsHonest(net, DataEvent(i, r))
    ensures HonestSweep(SlotStep(net, i, r, mem), i + 1, r)
  {
    var net' := SlotStep(net, i, r, mem);
    forall j: nat | j >= i + 1 && Ready(net', j, r) ensures Ready(net, j, r) && net'.slots[j] == net.slots[j] {
    }
  }

  /** The pass over the table, slot by slot, is the run of its events, and honest. */
  lemma {:induction false} SweepRun(net: Net, i: nat, r: Round, mem: nat -> Mem)
    requires Linked(net.server.users) && HonestSweep(net, i, r)
    ensures HonestRun(net, Sweep(net, i, r, mem), mem)
    decreases |net.slots| - i
  {
    if i < |net.slots| {
      var net' := SlotStep(net, i, r, mem);
      SlotStepHonest(net, i, r, mem);
      SweepRun(net', i + 1, r, mem);
      var first := if Ready(net, i, r) then [DataEvent(i, r)] else [];
      assert NetRun(net, first, mem) == net' && HonestRun(net, first, mem);
      NetRunAppend(net, first, Sweep(net', i + 1, r, mem), mem);
    }
  }

  lemma SweepStep(net: Net, i: nat, r: Round, mem: nat -> Mem)
    requires Linked(net.server.users) && i < |net.slots|
    ensures NetRun(net, Sweep(net, i, r, mem), mem)
         == NetRun(SlotStep(net, i, r, mem), Sweep(SlotStep(net, i, r, mem), i + 1, r, mem), mem)
  {
    var net' := SlotStep(net, i, r, mem);
    var first := if Ready(net, i, r) then [DataEvent(i, r)] else [];
    assert NetRun(net, first, mem) == net';
    NetRunAppend(net, first, Sweep(net', i + 1, r, mem), mem);
  }

  /** A connection accepted in a round is not ready in it: it was not monitored when select
      returned. */
  lemma ArrivalHonest(net: Net, r: Round, mem: nat -> Mem)
    requires Linked(net.server.users) && HonestRound(net, r)
    ensures HonestRun(net, Arrival(net, r), mem)
    ensures HonestSweep(NetRun(net, Arrival(net, r), mem), 0, r)
  {
    if net.listenFd in r.ready {
      var net' := AcceptStep(net, r.newFd);
      assert NetRun(net, [Accept(r.newFd)], mem) == net';
      forall j: nat | Ready(net', j, r) ensures Ready(net, j, r) && net'.slots[j] == net.slots[j] {
      }
    }
  }

  lemma RoundHonest(net: Net, r: Round, mem: nat -> Mem)
    requires Linked(net.server.users) && HonestRound(net, r)
    ensures HonestRun(net, RoundEvents(net, r, mem), mem)
    ensures var net' := NetRun(net, Arrival(net, r), mem);
            NetRun(net, RoundEvents(net, r, mem), mem) == NetRun(net', Sweep(net', 0, r, mem), mem)
  {
    var net' := NetRun(net, Arrival(net, r), mem);
    ArrivalHonest(net, r, mem);
    SweepRun(net', 0, r, mem);
    NetRunAppend(net, Arrival(net, r), Sweep(net', 0, r, mem), mem);
  }

  /** Every run of the select loop over an honest operating system is an honest run of the
      network model. */
  lemma {:induction false} RoundsHonest(net: Net, rounds: seq<Round>, mem: nat -> Mem)
    requires Linked(net.server.users) && HonestRounds(net, rounds, mem)
    ensures HonestRun(net, RoundsEvents(net, rounds, mem), mem)
    decreases |rounds|
  {
    if rounds != [] {
      var evs := RoundEvents(net, rounds[0], mem);
      RoundHonest(net, rounds[0], mem);
      RoundsHonest(NetRun(net, evs, mem), rounds[1..], mem);
      NetRunAppend(net, evs, RoundsEvents(NetRun(net, evs, mem), rounds[1..], mem), mem);
    }
  }

  // ----- what a round reads

  /** The events that concern one slot. */
  function OnSlot(evs: seq<NetEvent>, i: nat): seq<NetEvent> {
    if evs == [] then []
    else if (evs[0].Receive? || evs[0].Close?) && evs[0].slot == i then [evs[0]] + OnSlot(evs[1..], i)
    else OnSlot(evs[1..], i)
  }

  lemma {:induction false} OnSlotAppend(a: seq<NetEvent>, b: seq<NetEvent>, i: nat)
    ensures OnSlot(a + b, i) == OnSlot(a, i) + OnSlot(b, i)
    decreases |a|
  {
    if a == [] {
      PrependNone(a, b);
    } else {
      OnSlotAppend(a[1..], b, i);
      AppendTail(a, b);
    }
  }

  /** The pass visits a slot once, if it is in use and its descriptor ready, and then
      reports the bytes recv offered, or the hang-up if there were none. */
  lemma {:induction false} SweepReads(net: Net, k: nat, r: Round, mem: nat -> Mem, i: nat)
    requires Linked(net.server.users)
    ensures OnSlot(Sweep(net, k, r, mem), i)
         == if i < k || i >= |net.slots| || net.slots[i].Free? || net.slots[i].fd !in r.ready then []
            else if r.data(i) == [] then [Close(i)]
            else [Receive(i, r.data(i))]
    decreases |net.slots| - k
  {
    if k < |net.slots| {
      var net' := SlotStep(net, k, r, mem);
      var first := if Ready(net, k, r) then [DataEvent(k, r)] else [];
      var rest := Sweep(net', k + 1, r, mem);
      SweepReads(net', k + 1, r, mem, i);
      assert OnSlot(Sweep(net, k, r, mem), i) == OnSlot(first, i) + OnSlot(rest, i) by { OnSlotAppend(first, rest, i); }
      if i != k && i < |net.slots| { OthersKept(net, k, r, mem, i); }
      FirstRead(net, k, r, i);
    }
  }

  lemma OthersKept(net: Net, k: nat, r: Round, mem: nat -> Mem, i: nat)
    requires Linked(net.server.users) && i != k && i < |net.slots|
    ensures SlotStep(net, k, r, mem).slots[i] == net.slots[i]
  {
  }

  lemma FirstRead(net: Net, k: nat, r: Round, i: nat)
    requires k < |net.slots|
    ensures OnSlot(if Ready(net, k, r) then [DataEvent(k, r)] else [], i)
         == if i != k || net.slots[i].Free? || net.slots[i].fd !in r.ready then []
            else if r.data(i) == [] then [Close(i)]
            else [Receive(i, r.data(i))]
  {
    assert [DataEvent(k, r)][1..] == [];
  }

  /** Only slots are concerned, from slot k on and upwards. */
  ghost predicate Upwards(evs: seq<NetEvent>, k: int, n: int) {
    && (forall a :: 0 <= a < |evs| ==> !evs[a].Accept? && k <= evs[a].slot < n)
    && (forall a, b :: 0 <= a < b < |evs| ==> evs[a].slot < evs[b].slot)
  }

  /** The pass goes through the table upwards. */
  lemma {:induction false} SweepOrder(net: Net, k: nat, r: Round, mem: nat -> Mem)
    requires Linked(net.server.users)
    ensures Upwards(Sweep(net, k, r, mem), k, |net.slots|)
    decreases |net.slots| - k
  {
    if k < |net.slots| {
      var net' := SlotStep(net, k, r, mem);
      var first := if Ready(net, k, r) then [DataEvent(k, r)] else [];
      SweepOrder(net', k + 1, r, mem);
      InOrder(first, Sweep(net', k + 1, r, mem), k, |net.slots|);
    }
  }

  lemma InOrder(first: seq<NetEvent>, rest: seq<NetEvent>, k: nat, n: nat)
    requires |first| <= 1 && k < n && (forall a :: 0 <= a < |first| ==> !first[a].Accept? && first[a].slot == k)
    requires Upwards(rest, k + 1, n)
    ensures Upwards(first + rest, k, n)
  {
  }

  /** An arrival changes no slot in use, and its own descriptor is not ready. */
  lemma ArrivalKeepsSlot(net: Net, r: Round, mem: nat -> Mem, i: nat)
    requires Linked(net.server.users) && HonestRound(net, r)
    ensures var net' := NetRun(net, Arrival(net, r), mem);
            && |net'.slots| == |net.slots|
            && (i < |net.slots| && net.slots[i].Open? ==> net'.slots[i] == net.slots[i])
            && (i < |net.slots| && net.slots[i].Free? && net'.slots[i].Open? ==> net'.slots[i].fd !in r.ready)
  {
    var arrival := Arrival(net, r);
    if arrival != [] {
      assert arrival[1..] == [] && NetRun(net, arrival, mem) == NetStep(net, arrival[0], mem);
    }
  }

  /** A round is the arrival, exactly if the listening descriptor is ready, and then for
      every slot in use whose descriptor is ready what recv reported, slot by slot. */
  lemma RoundReads(net: Net, r: Round, mem: nat -> Mem, i: nat)
    requires Linked(net.server.users) && HonestRound(net, r)
    ensures var evs := RoundEvents(net, r, mem);
            var n := if net.listenFd in r.ready then 1 else 0;
            && |evs| >= n && (n == 1 ==> evs[0] == Accept(r.newFd))
            && Upwards(evs[n..], 0, |net.slots|)
    ensures OnSlot(RoundEvents(net, r, mem), i)
         == if i >= |net.slots| || net.slots[i].Free? || net.slots[i].fd !in r.ready then []
            else if r.data(i) == [] then [Close(i)]
            else [Receive(i, r.data(i))]
  {
    var arrival := Arrival(net, r);
    var net' := NetRun(net, arrival, mem);
    var evs, sweep := RoundEvents(net, r, mem), Sweep(net', 0, r, mem);
    SweepOrder(net', 0, r, mem);
    SweepReads(net', 0, r, mem, i);
    OnSlotAppend(arrival, sweep, i);
    assert evs == arrival + sweep && evs[|arrival|..] == sweep;
    assert arrival != [] ==> arrival[1..] == [] && OnSlot(arrival, i) == [];
    ArrivalKeepsSlot(net, r, mem, i);
  }

  lemma {:induction false} RoundsAppend(net: Net, a: seq<Round>, b: seq<Round>, mem: nat -> Mem)
    requires Linked(net.server.users) && HonestRounds(net, a + b, mem)
    ensures var here := NetRun(net, RoundsEvents(net, a, mem), mem);
            && HonestRounds(here, b, mem)
            && RoundsEvents(net, a + b, mem) == RoundsEvents(net, a, mem) + RoundsEvents(here, b, mem)
    decreases |a|
  {
    if a == [] {
      PrependNone(a, b);
    } else {
      var first := RoundEvents(net, a[0], mem);
      var net1 := NetRun(net, first, mem);
      var x := RoundsEvents(net1, a[1..], mem);
      var y := RoundsEvents(NetRun(net1, x, mem), b, mem);
      RoundsFirst(net, a, mem);
      RoundsFirst(net, a + b, mem);
      AppendTail(a, b);
      RoundsAppend(net1, a[1..], b, mem);
      NetRunAppend(net, first, x, mem);
      AppendAssociates(first, x, y);
    }
  }

  lemma RoundsFirst(net: Net, rounds: seq<Round>, mem: nat -> Mem)
    requires Linked(net.server.users) && rounds != []
    ensures var evs := RoundEvents(net, rounds[0], mem);
            var net1 := NetRun(net, evs, mem);
            && RoundsEvents(net, rounds, mem) == evs + RoundsEvents(net1, rounds[1..], mem)
            && (HonestRounds(net, rounds, mem) <==> HonestRound(net, rounds[0]) && HonestRounds(net1, rounds[1..], mem))
  {
  }

  /** A run of the loop is its rounds one after the other; so every round of the run is
      honest and reads as RoundReads says. */
  lemma RoundsSplit(net: Net, rounds: seq<Round>, k: nat, mem: nat -> Mem)
    requires Linked(net.server.users) && HonestRounds(net, rounds, mem) && k < |rounds|
    ensures var before := RoundsEvents(net, rounds[..k], mem);
            var here := NetRun(net, before, mem);
            var evs := RoundEvents(here, rounds[k], mem);
            && HonestRound(here, rounds[k])
            && RoundsEvents(net, rounds, mem) == before + (evs + RoundsEvents(NetRun(here, evs, mem), rounds[k + 1..], mem))
  {
    SplitAt(rounds, k);
    RoundsAppend(net, rounds[..k], rounds[k..], mem);
    RoundsFirst(NetRun(net, RoundsEvents(net, rounds[..k], mem), mem), rounds[k..], mem);
  }

  /** The bytes recv offered on a slot over some rounds. */
  function Offered(rounds: seq<Round>, i: nat, fd: int): seq<byte> {
    if rounds == [] then []
    else (if fd in rounds[0].ready then rounds[0].data(i) else []) + Offered(rounds[1..], i, fd)
  }

  lemma {:induction false} BytesOfSlotEvents(evs: seq<NetEvent>, i: nat)
    ensures BytesOn(evs, i) == BytesOn(OnSlot(evs, i), i)
    ensures Close(i) in evs <==> Close(i) in OnSlot(evs, i)
  {
    if evs != [] {
      BytesOfSlotEvents(evs[1..], i);
      var rest := OnSlot(evs[1..], i);
      assert ([evs[0]] + rest)[1..] == rest;
      assert evs == [evs[0]] + evs[1..];
    }
  }

  lemma {:induction false} BytesOnAppend(a: seq<NetEvent>, b: seq<NetEvent>, i: nat)
    ensures BytesOn(a + b, i) == BytesOn(a, i) + BytesOn(b, i)
    decreases |a|
  {
    if a == [] {
      PrependNone(a, b);
    } else {
      BytesOnAppend(a[1..], b, i);
      AppendTail(a, b);
    }
  }

  lemma RoundBytes(net: Net, r: Round, mem: nat -> Mem, i: nat)
    requires Linked(net.server.users) && HonestRound(net, r) && Occupied(net, i)
    requires net.slots[i].fd in r.ready ==> r.data(i) != []
    ensures Close(i) !in RoundEvents(net, r, mem)
    ensures BytesOn(RoundEvents(net, r, mem), i) == if net.slots[i].fd in r.ready then r.data(i) else []
  {
    RoundReads(net, r, mem, i);
    var evs := OnSlot(RoundEvents(net, r, mem), i);
    BytesOfSlotEvents(RoundEvents(net, r, mem), i);
    if evs != [] {
      OneChunk(evs[0], i);
    }
  }

  lemma OneChunk(ev: NetEvent, i: nat)
    ensures BytesOn([ev], i) == if ev.Receive? && ev.slot == i then ev.chunk else []
  {
    assert [ev][1..] == [] && BytesOn([], i) == [];
  }

  /** The loop loses nothing: while a connection is open, the frames the dispatcher is given
      are the cut of all the bytes recv has offered on it, and no others. */
  lemma {:induction false} LoopDelivers(net: Net, all: set<Mcast>, rounds: seq<Round>, mem: nat -> Mem, i: nat)
    requires NetInv(net, all) && HonestRounds(net, rounds, mem) && Occupied(net, i)
    requires forall k :: 0 <= k < |rounds| && net.slots[i].fd in rounds[k].ready ==> rounds[k].data(i) != []
    ensures var evs := RoundsEvents(net, rounds, mem);
            && Close(i) !in evs && BytesOn(evs, i) == Offered(rounds, i, net.slots[i].fd)
            && FramesOn(Trace(net, evs, mem), net.slots[i].fd)
               == Parse(net.slots[i].residue + Offered(rounds, i, net.slots[i].fd)).0
  {
    LoopReads(net, all, rounds, mem, i);
    RoundsHonest(net, rounds, mem);
    DeliveredIsCut(net, all, RoundsEvents(net, rounds, mem), mem, i);
  }

  lemma {:induction false} LoopReads(net: Net, all: set<Mcast>, rounds: seq<Round>, mem: nat -> Mem, i: nat)
    requires NetInv(net, all) && HonestRounds(net, rounds, mem) && Occupied(net, i)
    requires forall k :: 0 <= k < |rounds| && net.slots[i].fd in rounds[k].ready ==> rounds[k].data(i) != []
    ensures Close(i) !in RoundsEvents(net, rounds, mem)
    ensures BytesOn(RoundsEvents(net, rounds, mem), i) == Offered(rounds, i, net.slots[i].fd)
    decreases |rounds|
  {
    if rounds != [] {
      var evs := RoundEvents(net, rounds[0], mem);
      var net1 := NetRun(net, evs, mem);
      RoundBytes(net, rounds[0], mem, i);
      RoundHonest(net, rounds[0], mem);
      NetRunInv(net, all, evs, mem);
      DeliveredIsCut(net, all, evs, mem, i);
      LoopReads(net1, all, rounds[1..], mem, i);
      BytesOnAppend(evs, RoundsEvents(net1, rounds[1..], mem), i);
    }
  }
}
