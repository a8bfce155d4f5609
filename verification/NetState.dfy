/** The connection table, the receive buffers and the server behind them, as values. */
module NetState {
  import opened ChatTypes
  import opened Framing
  import opened UserState
  import opened ServerState
  import opened ServerInvariant
  import opened Runs
  import opened RunProperties

  const RECV_BUFFER_SIZE := CHAT_MAX_MSG_SIZE * 3
  const MAX_CLIENTS := FD_SETSIZE

  /** A table slot: free (fd -1), or a connection and its unparsed bytes. */
  datatype Slot = Free | Open(fd: int, residue: seq<byte>)

  datatype Net = Net(slots: seq<Slot>, master: set<int>, maxFd: int, listenFd: int,
                     server: Server, out: seq<Sent>)

  /** What the operating system reports: a result of accept, bytes from recv, or its end. */
  datatype NetEvent = Accept(newFd: int) | Receive(slot: nat, chunk: seq<byte>) | Close(slot: nat)

  /** Frames handed to the dispatcher one after the other. */
  function DeliverAll(s: Server, fd: int, frames: seq<seq<byte>>, mem: nat -> Mem): (r: (Server, seq<Sent>))
    requires Linked(s.users)
    ensures Linked(r.0.users)
    decreases |frames|
  {
    if frames == [] then (s, [])
    else
      var (s1, answer) := Deliver(s, fd, frames[0], mem);
      var (s2, out) := DeliverAll(s1, fd, frames[1..], mem);
      (s2, Post(fd, frames[0], answer) + out)
  }

  /** The first free slot, or the table size. */
  function FirstFree(slots: seq<Slot>): (i: nat)
    ensures i <= |slots| && (i < |slots| ==> slots[i].Free?)
    ensures forall j :: 0 <= j < i ==> slots[j].Open?
  {
    if slots == [] || slots[0].Free? then 0 else 1 + FirstFree(slots[1..])
  }

  function AcceptStep(net: Net, newFd: int): Net {
    var i := FirstFree(net.slots);
    if newFd == -1 || i == |net.slots| then net
    else net.(slots := net.slots[i := Open(newFd, [])],
              master := net.master + {newFd},
              maxFd := if newFd > net.maxFd then newFd else net.maxFd)
  }

  function ReceiveStep(net: Net, i: nat, chunk: seq<byte>, mem: nat -> Mem): Net
    requires i < |net.slots| && net.slots[i].Open? && Linked(net.server.users)
  {
    var fd := net.slots[i].fd;
    var (frames, rest) := Parse(net.slots[i].residue + chunk);
    var (server, out) := DeliverAll(net.server, fd, frames, mem);
    net.(slots := net.slots[i := Open(fd, rest)], server := server, out := net.out + out)
  }

  function CloseStep(net: Net, i: nat, mem: nat -> Mem): Net
    requires i < |net.slots| && net.slots[i].Open? && Linked(net.server.users)
  {
    var fd := net.slots[i].fd;
    net.(slots := net.slots[i := Free], master := net.master - {fd}, server := Disconnect(net.server, fd, mem))
  }

  function NetStep(net: Net, ev: NetEvent, mem: nat -> Mem): (net': Net)
    requires Linked(net.server.users)
    ensures Linked(net'.server.users) && |net'.slots| == |net.slots|
  {
    match ev
    case Accept(newFd) => AcceptStep(net, newFd)
    case Receive(i, chunk) =>
      if i < |net.slots| && net.slots[i].Open? then ReceiveStep(net, i, chunk, mem) else net
    case Close(i) =>
      if i < |net.slots| && net.slots[i].Open? then CloseStep(net, i, mem) else net
  }

  function NetRun(net: Net, evs: seq<NetEvent>, mem: nat -> Mem): (net': Net)
    requires Linked(net.server.users)
    ensures Linked(net'.server.users) && |net'.slots| == |net.slots|
    decreases |evs|
  {
    if evs == [] then net else NetRun(NetStep(net, evs[0], mem), evs[1..], mem)
  }

  // ----- the invariant

  predicate Occupied(net: Net, i: int) {
    0 <= i < |net.slots| && net.slots[i].Open?
  }

  /** No descriptor has two slots, and none of them is the listening one. */
  ghost predicate SlotsSound(net: Net) {
    && |net.slots| == MAX_CLIENTS
    && FdInRange(net.listenFd)
    && (forall i :: Occupied(net, i) ==> FdInRange(net.slots[i].fd) && net.slots[i].fd != net.listenFd)
    && (forall i, j :: Occupied(net, i) && Occupied(net, j) && i != j ==> net.slots[i].fd != net.slots[j].fd)
  }

  /** The monitored set is the listening descriptor and those in the table. */
  ghost predicate MasterSound(net: Net) {
    && (forall i :: Occupied(net, i) ==> net.slots[i].fd in net.master)
    && net.listenFd in net.master
    && (forall fd :: fd in net.master && fd != net.listenFd ==> exists i :: Occupied(net, i) && net.slots[i].fd == fd)
    && (forall fd :: fd in net.master ==> fd <= net.maxFd) && FdInRange(net.maxFd)
  }

  ghost predicate TableSound(net: Net) {
    SlotsSound(net) && MasterSound(net)
  }

  ghost predicate BuffersSound(net: Net) {
    forall i :: Occupied(net, i) ==> !HasFrame(net.slots[i].residue)
  }

  ghost predicate SessionsOpen(net: Net) {
    forall fd :: fd in net.server.users.bySocket ==> fd in net.master && fd != net.listenFd
  }

  ghost predicate NetInv(net: Net, all: set<Mcast>) {
    TableSound(net) && BuffersSound(net) && SessionsOpen(net) && Inv(net.server, all)
  }

  /** The operating system's part: accept returns -1 or a descriptor that is not open
      and below FD_SETSIZE; recv returns at most the space it was offered. */
  ghost predicate OsHonest(net: Net, ev: NetEvent) {
    match ev
    case Accept(newFd) => newFd == -1 || (FdInRange(newFd) && newFd !in net.master)
    case Receive(i, chunk) => Occupied(net, i) && 0 < |chunk| <= RECV_BUFFER_SIZE - |net.slots[i].residue|
    case Close(i) => Occupied(net, i)
  }

  lemma {:induction false} DeliverAllInv(s: Server, all: set<Mcast>, fd: int, frames: seq<seq<byte>>, mem: nat -> Mem)
    requires Inv(s, all)
    ensures Inv(DeliverAll(s, fd, frames, mem).0, all)
    ensures DeliverAll(s, fd, frames, mem).0.users.bySocket.Keys <= s.users.bySocket.Keys + {fd}
    decreases |frames|
  {
    if frames != [] {
      StepInv(s, all, Message(fd, frames[0]), mem);
      var s1 := Deliver(s, fd, frames[0], mem).0;
      forall other | other in s1.users.bySocket ensures other in s.users.bySocket.Keys + {fd} {
        if other != fd {
          OtherSocketsUntouched(s, Message(fd, frames[0]), mem, other);
        }
      }
      DeliverAllInv(s1, all, fd, frames[1..], mem);
    }
  }

  lemma AcceptMaster(net: Net, newFd: int)
    requires MasterSound(net) && (newFd == -1 || FdInRange(newFd))
    ensures MasterSound(AcceptStep(net, newFd))
  {
    var net' := AcceptStep(net, newFd);
    var k := FirstFree(net.slots);
    if newFd != -1 && k < |net.slots| {
      assert Occupied(net', k) && net'.slots[k].fd == newFd;
      forall fd | fd in net'.master && fd != net'.listenFd
        ensures exists i :: Occupied(net', i) && net'.slots[i].fd == fd
      {
        if fd != newFd {
          var i :| Occupied(net, i) && net.slots[i].fd == fd;
          assert Occupied(net', i) && net'.slots[i].fd == fd;
        }
      }
      assert forall i :: Occupied(net', i) ==> i == k || Occupied(net, i);
    }
  }

  lemma AcceptTable(net: Net, newFd: int)
    requires TableSound(net) && (newFd == -1 || (FdInRange(newFd) && newFd !in net.master))
    ensures TableSound(AcceptStep(net, newFd))
  {
    AcceptMaster(net, newFd);
    assert forall i :: Occupied(AcceptStep(net, newFd), i) ==> i == FirstFree(net.slots) || Occupied(net, i);
  }

  lemma CloseTable(net: Net, i: nat, mem: nat -> Mem)
    requires TableSound(net) && Occupied(net, i) && Linked(net.server.users)
    ensures TableSound(CloseStep(net, i, mem))
  {
    var net' := CloseStep(net, i, mem);
    assert forall j :: Occupied(net', j) ==> j != i && Occupied(net, j);
    forall fd | fd in net'.master && fd != net'.listenFd
      ensures exists j :: Occupied(net', j) && net'.slots[j].fd == fd
    {
      var j :| Occupied(net, j) && net.slots[j].fd == fd;
      assert Occupied(net', j) && net'.slots[j].fd == fd;
    }
  }

  lemma SameFdsTable(net: Net, net': Net)
    requires TableSound(net) && |net'.slots| == |net.slots|
    requires net'.master == net.master && net'.maxFd == net.maxFd && net'.listenFd == net.listenFd
    requires forall i :: Occupied(net, i) <==> Occupied(net', i)
    requires forall i :: Occupied(net', i) ==> net'.slots[i].fd == net.slots[i].fd
    ensures TableSound(net')
  {
    forall fd | fd in net'.master && fd != net'.listenFd
      ensures exists j :: Occupied(net', j) && net'.slots[j].fd == fd
    {
      var j :| Occupied(net, j) && net.slots[j].fd == fd;
      assert Occupied(net', j) && net'.slots[j].fd == fd;
    }
  }

  lemma NetStepInv(net: Net, all: set<Mcast>, ev: NetEvent, mem: nat -> Mem)
    requires NetInv(net, all) && OsHonest(net, ev)
    ensures NetInv(NetStep(net, ev, mem), all)
  {
    var net' := NetStep(net, ev, mem);
    match ev
    case Accept(newFd) =>
      AcceptTable(net, newFd);
      assert forall i :: Occupied(net', i) ==> net'.slots[i].residue == [] || (Occupied(net, i) && net'.slots[i] == net.slots[i]);
    case Receive(i, chunk) =>
      ReceiveInv(net, all, i, chunk, mem);
    case Close(i) =>
      CloseTable(net, i, mem);
      StepInv(net.server, all, Drop(net.slots[i].fd), mem);
      assert forall j :: Occupied(net', j) ==> Occupied(net, j) && net'.slots[j] == net.slots[j];
  }

  lemma ReceiveInv(net: Net, all: set<Mcast>, i: nat, chunk: seq<byte>, mem: nat -> Mem)
    requires NetInv(net, all) && Occupied(net, i)
    ensures NetInv(ReceiveStep(net, i, chunk, mem), all)
  {
    var net' := ReceiveStep(net, i, chunk, mem);
    var s := net.slots[i].residue + chunk;
    ParseCuts(s);
    DeliverAllInv(net.server, all, net.slots[i].fd, Parse(s).0, mem);
    assert forall j :: Occupied(net', j) ==> Occupied(net, j) && (j != i ==> net'.slots[j] == net.slots[j]);
    SameFdsTable(net, net');
  }
}
