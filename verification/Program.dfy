/** The whole server program on one concrete occasion. */
module Program {
  import opened ChatTypes
  import opened UserState
  import opened Runs
  import opened NetState
  import opened NetProperties
  import opened SelectLoop
  import opened ServerNetwork
  import opened ServerRun
  import opened Wire

  /** "A" registers with password "B", logs in and creates group "G", all in one packet. */
  const PACKET: seq<byte> := [1, 4, 1, 65, 1, 66, 3, 4, 1, 65, 1, 66, 7, 2, 1, 71]

  /** A client connects; then its packet arrives. */
  function TwoRounds(listenFd: int, fd: int): seq<Round> {
    [Round({listenFd}, fd, _ => []), Round({fd}, -1, _ => PACKET)]
  }

  lemma {:induction false} Quiet(net: Net, k: nat, r: Round, mem: nat -> Mem)
    requires Linked(net.server.users) && forall j :: j >= k ==> !Ready(net, j, r)
    ensures Sweep(net, k, r, mem) == []
    decreases |net.slots| - k
  {
    if k < |net.slots| {
      Quiet(net, k + 1, r, mem);
    }
  }

  lemma FirstRound(listenFd: int, made: nat -> bool, fd: int, mem: nat -> Mem)
    requires FdInRange(listenFd) && FdInRange(fd) && fd != listenFd
    ensures var net := InitialNet(listenFd, made);
            var r := TwoRounds(listenFd, fd)[0];
            && HonestRound(net, r) && RoundEvents(net, r, mem) == [Accept(fd)]
            && NetRun(net, [Accept(fd)], mem) == NetStep(net, Accept(fd), mem)
  {
    var net := InitialNet(listenFd, made);
    var r := TwoRounds(listenFd, fd)[0];
    assert Arrival(net, r) == [Accept(fd)];
    var none: seq<NetEvent> := [];
    assert [Accept(fd)][1..] == none;
    var net1 := NetStep(net, Accept(fd), mem);
    assert NetRun(net, [Accept(fd)], mem) == NetRun(net1, none, mem) == net1;
    Quiet(net1, 0, r, mem);
  }

  lemma SecondRound(listenFd: int, made: nat -> bool, fd: int, mem: nat -> Mem)
    requires FdInRange(listenFd) && FdInRange(fd) && fd != listenFd
    ensures var net := NetStep(InitialNet(listenFd, made), Accept(fd), mem);
            var r := TwoRounds(listenFd, fd)[1];
            HonestRound(net, r) && RoundEvents(net, r, mem) == [Receive(0, PACKET)]
  {
    var net := NetStep(InitialNet(listenFd, made), Accept(fd), mem);
    var r := TwoRounds(listenFd, fd)[1];
    FirstAccept(listenFd, made, fd, mem);
    assert Arrival(net, r) == [] && NetRun(net, [], mem) == net;
    assert Ready(net, 0, r) && forall j :: j >= 1 ==> !Ready(net, j, r);
    var net1 := SlotStep(net, 0, r, mem);
    assert forall j :: j >= 1 ==> !Ready(net1, j, r);
    Quiet(net1, 1, r, mem);
  }

  /** Start the server, let the client connect and its packet arrive: the objects have sent
      three replies, and the group lives at 239.1.1.1 port 6000. */
  method FirstClient(listenFd: int, made: nat -> bool, mem: nat -> Mem, fd: int) returns (net: ServerNet)
    requires FdInRange(listenFd) && FdInRange(fd) && fd != listenFd
    requires (forall i: nat :: made(i)) && forall t: nat :: AllocOk(mem(t))
    ensures net.View().out ==
            [Sent(fd, [2, 1, 0]),
             Sent(fd, [4, 1, 0]),
             Sent(fd, [8, 14, 0, 9, 50, 51, 57, 46, 49, 46, 49, 46, 49, 2, 23, 112])]
  {
    TwoRoundsRun(listenFd, made, fd, mem);
    net := Serve(listenFd, made, mem, TwoRounds(listenFd, fd));
  }

  lemma TwoRoundsRun(listenFd: int, made: nat -> bool, fd: int, mem: nat -> Mem)
    requires FdInRange(listenFd) && FdInRange(fd) && fd != listenFd
    requires (forall i: nat :: made(i)) && forall t: nat :: AllocOk(mem(t))
    ensures var net := InitialNet(listenFd, made);
            && HonestRounds(net, TwoRounds(listenFd, fd), mem)
            && NetRun(net, RoundsEvents(net, TwoRounds(listenFd, fd), mem), mem).out ==
               [Sent(fd, [2, 1, 0]),
                Sent(fd, [4, 1, 0]),
                Sent(fd, [8, 14, 0, 9, 50, 51, 57, 46, 49, 46, 49, 46, 49, 2, 23, 112])]
  {
    var net, rounds := InitialNet(listenFd, made), TwoRounds(listenFd, fd);
    var net1, evs := NetStep(net, Accept(fd), mem), [Receive(0, PACKET)];
    FirstRound(listenFd, made, fd, mem);
    SecondRound(listenFd, made, fd, mem);
    LastRound(net1, rounds[1], evs, mem);
    assert rounds[1..] == [rounds[1]];
    RoundsFirst(net, rounds, mem);
    NetRunAppend(net, [Accept(fd)], evs, mem);
    OneChunk(evs[0], 0);
    FirstSessionHappens(listenFd, made, fd, mem);
    FirstSession(listenFd, made, fd, evs, mem);
  }

  lemma LastRound(net: Net, r: Round, evs: seq<NetEvent>, mem: nat -> Mem)
    requires Linked(net.server.users) && HonestRound(net, r) && RoundEvents(net, r, mem) == evs
    ensures HonestRounds(net, [r], mem) && RoundsEvents(net, [r], mem) == evs
  {
    var none: seq<Round> := [];
    assert [r][1..] == none;
    assert RoundsEvents(NetRun(net, evs, mem), none, mem) == [];
    RoundsFirst(net, [r], mem);
  }
}
