/** The main theorems about the network layer and the server behind it. */
module NetProperties {
  import opened Sequences
  import opened ChatTypes
  import opened Framing
  import opened Protocol
  import opened McastAddresses
  import opened UserState
  import opened ServerState
  import opened ServerInvariant
  import opened Runs
  import opened RunProperties
  import opened NetState

  // ----- every reachable state

  function InitialNet(listenFd: int, made: nat -> bool): Net {
    Net(seq(MAX_CLIENTS, _ => Free), {listenFd}, listenFd, listenFd, Init(made), [])
  }

  ghost predicate HonestRun(net: Net, evs: seq<NetEvent>, mem: nat -> Mem)
    requires Linked(net.server.users)
    decreases |evs|
  {
    evs != [] ==> OsHonest(net, evs[0]) && HonestRun(NetStep(net, evs[0], mem), evs[1..], mem)
  }

  lemma InitialNetInv(listenFd: int, made: nat -> bool)
    requires FdInRange(listenFd)
    ensures NetInv(InitialNet(listenFd, made), AllAddresses())
  {
    InitInv(made);
  }

  lemma {:induction false} NetRunInv(net: Net, all: set<Mcast>, evs: seq<NetEvent>, mem: nat -> Mem)
    requires NetInv(net, all) && HonestRun(net, evs, mem)
    ensures NetInv(NetRun(net, evs, mem), all)
    decreases |evs|
  {
    if evs != [] {
      NetStepInv(net, all, evs[0], mem);
      NetRunInv(NetStep(net, evs[0], mem), all, evs[1..], mem);
    }
  }

  /** Every state reachable under an honest operating system satisfies the invariant,
      whatever bytes arrive and whatever allocations fail. */
  lemma ReachableNetInv(listenFd: int, made: nat -> bool, evs: seq<NetEvent>, mem: nat -> Mem)
    requires FdInRange(listenFd) && HonestRun(InitialNet(listenFd, made), evs, mem)
    ensures NetInv(NetRun(InitialNet(listenFd, made), evs, mem), AllAddresses())
  {
    InitialNetInv(listenFd, made);
    NetRunInv(InitialNet(listenFd, made), AllAddresses(), evs, mem);
  }

  /** The bound handed to select is the largest descriptor there has been. */
  lemma {:induction false} MaxFdReached(net: Net, evs: seq<NetEvent>, mem: nat -> Mem)
    requires Linked(net.server.users)
    ensures var m := NetRun(net, evs, mem).maxFd;
            m >= net.maxFd && (m == net.maxFd || Accept(m) in evs)
    decreases |evs|
  {
    if evs != [] {
      MaxFdReached(NetStep(net, evs[0], mem), evs[1..], mem);
    }
  }

  /** A logged-in descriptor occupies exactly one slot and is being monitored. */
  lemma SessionHasSlot(net: Net, all: set<Mcast>, fd: int) returns (i: int)
    requires NetInv(net, all) && fd in net.server.users.bySocket
    ensures Occupied(net, i) && net.slots[i].fd == fd && fd in net.master
    ensures forall j :: Occupied(net, j) && net.slots[j].fd == fd ==> j == i
  {
    i :| Occupied(net, i) && net.slots[i].fd == fd;
  }

  /** A descriptor coming from accept, fresh or reused, has no session and an empty buffer. */
  lemma AcceptedHasNoSession(net: Net, all: set<Mcast>, newFd: int)
    requires NetInv(net, all) && OsHonest(net, Accept(newFd)) && newFd != -1
    ensures newFd !in AcceptStep(net, newFd).server.users.bySocket
    ensures var k := FirstFree(net.slots);
            k < MAX_CLIENTS && AcceptStep(net, newFd).slots == net.slots[k := Open(newFd, [])]
  {
    SlotAvailable(net, all, newFd);
  }

  /** The table never runs out: descriptors are below FD_SETSIZE and the listening one is
      no client's, so the branch that closes an accepted socket is never taken. */
  lemma SlotAvailable(net: Net, all: set<Mcast>, newFd: int)
    requires NetInv(net, all) && FdInRange(newFd) && newFd !in net.master
    ensures FirstFree(net.slots) < MAX_CLIENTS
  {
    if FirstFree(net.slots) == |net.slots| {
      var fds := seq(|net.slots|, i requires 0 <= i < |net.slots| => FdAt(net, i));
      forall i | 0 <= i < |fds| ensures FdInRange(fds[i]) && fds[i] != newFd {
        assert Occupied(net, i);
      }
      forall i, j | 0 <= i < j < |fds| ensures fds[i] != fds[j] {
        assert Occupied(net, i) && Occupied(net, j);
      }
      MissedValue(fds, FD_SETSIZE, newFd);
    }
  }

  function FdAt(net: Net, i: nat): int
    requires i < |net.slots|
  {
    if net.slots[i].Open? then net.slots[i].fd else -1
  }

  /** Distinct numbers below n that miss one of them are fewer than n. */
  lemma MissedValue(fds: seq<int>, n: nat, missed: int)
    requires NoDup(fds) && 0 <= missed < n
    requires forall i :: 0 <= i < |fds| ==> 0 <= fds[i] < n && fds[i] != missed
    ensures |fds| < n
  {
    var values := set x | x in fds;
    BelowSize(n);
    assert values <= Below(n) - {missed};
    SubsetSize(values, Below(n) - {missed});
    NoDupSize(fds);
  }

  lemma {:induction false} NoDupSize<T>(s: seq<T>)
    requires NoDup(s)
    ensures |set x | x in s| == |s|
  {
    if s != [] {
      NoDupSize(s[1..]);
      assert (set x | x in s) == (set x | x in s[1..]) + {s[0]};
    }
  }

  /** Between receives at most 256 bytes are buffered, so 515 are always free: the
      buffer-full branch is never taken and every receive stays inside the buffer. */
  lemma BufferNeverFull(net: Net, all: set<Mcast>, i: int)
    requires NetInv(net, all) && Occupied(net, i)
    ensures |net.slots[i].residue| <= 256 && RECV_BUFFER_SIZE - |net.slots[i].residue| >= 515
    ensures RECV_BUFFER_SIZE == 771
  {
    ResidueBound(net.slots[i].residue);
  }

  // ----- what the server sees of a run of the network

  function Messages(fd: int, frames: seq<seq<byte>>): (ms: seq<Event>)
    ensures |ms| == |frames|
  {
    if frames == [] then [] else [Message(fd, frames[0])] + Messages(fd, frames[1..])
  }

  /** The calls one network event makes into the management layer. */
  function Calls(net: Net, ev: NetEvent): seq<Event> {
    match ev
    case Accept(_) => []
    case Receive(i, chunk) =>
      if Occupied(net, i) then Messages(net.slots[i].fd, Parse(net.slots[i].residue + chunk).0) else []
    case Close(i) =>
      if Occupied(net, i) then [Drop(net.slots[i].fd)] else []
  }

  function Trace(net: Net, evs: seq<NetEvent>, mem: nat -> Mem): seq<Event>
    requires Linked(net.server.users)
    decreases |evs|
  {
    if evs == [] then [] else Calls(net, evs[0]) + Trace(NetStep(net, evs[0], mem), evs[1..], mem)
  }

  /** Everything a run of calls sends. */
  function Outbox(evs: seq<Event>, answers: seq<Option<Reply>>): seq<Sent>
    requires |evs| == |answers|
    decreases |evs|
  {
    if evs == [] then []
    else
      (if evs[0].Message? then Post(evs[0].fd, evs[0].frame, answers[0]) else []) + Outbox(evs[1..], answers[1..])
  }

  lemma {:induction false} DeliverAllIsRun(s: Server, fd: int, frames: seq<seq<byte>>, mem: nat -> Mem)
    requires Linked(s.users)
    ensures var ms := Messages(fd, frames);
            DeliverAll(s, fd, frames, mem) == (Run(s, ms, mem).0, Outbox(ms, Run(s, ms, mem).1))
    decreases |frames|
  {
    if frames != [] {
      var ms := Messages(fd, frames);
      DeliverAllIsRun(Deliver(s, fd, frames[0], mem).0, fd, frames[1..], mem);
      assert ms[1..] == Messages(fd, frames[1..]);
      assert Run(s, ms, mem).1[1..] == Run(Step(s, ms[0], mem).0, ms[1..], mem).1;
    }
  }

  lemma {:induction false} RunAppend(s: Server, a: seq<Event>, b: seq<Event>, mem: nat -> Mem)
    requires Linked(s.users)
    ensures var (s1, r1) := Run(s, a, mem);
            var (s2, r2) := Run(s1, b, mem);
            Run(s, a + b, mem) == (s2, r1 + r2)
    decreases |a|
  {
    var (s1, r1) := Run(s, a, mem);
    var (s2, r2) := Run(s1, b, mem);
    if a == [] {
      PrependNone(a, b);
      PrependNone(r1, r2);
    } else {
      var s' := Step(s, a[0], mem).0;
      RunAppend(s', a[1..], b, mem);
      AppendTail(a, b);
      assert r1 + r2 == [r1[0]] + (r1[1..] + r2);
    }
  }

  lemma {:induction false} OutboxAppend(a: seq<Event>, ra: seq<Option<Reply>>, b: seq<Event>, rb: seq<Option<Reply>>)
    requires |a| == |ra| && |b| == |rb|
    ensures Outbox(a + b, ra + rb) == Outbox(a, ra) + Outbox(b, rb)
    decreases |a|
  {
    if a == [] {
      PrependNone(a, b);
      PrependNone(ra, rb);
    } else {
      OutboxAppend(a[1..], ra[1..], b, rb);
      AppendTail(a, b);
      AppendTail(ra, rb);
    }
  }

  lemma StepIsRun(net: Net, ev: NetEvent, mem: nat -> Mem)
    requires Linked(net.server.users)
    ensures var (s, answers) := Run(net.server, Calls(net, ev), mem);
            NetStep(net, ev, mem).server == s && NetStep(net, ev, mem).out == net.out + Outbox(Calls(net, ev), answers)
  {
    match ev
    case Accept(_) =>
    case Receive(i, chunk) =>
      if Occupied(net, i) {
        DeliverAllIsRun(net.server, net.slots[i].fd, Parse(net.slots[i].residue + chunk).0, mem);
      }
    case Close(i) =>
      if Occupied(net, i) {
        var drop := Drop(net.slots[i].fd);
        assert Run(net.server, [drop], mem).0 == Step(net.server, drop, mem).0;
      }
  }

  /** Behind any interleaving of connections, the server performs a run of plain calls. */
  lemma {:induction false} NetRunIsRun(net: Net, evs: seq<NetEvent>, mem: nat -> Mem)
    requires Linked(net.server.users)
    ensures var trace := Trace(net, evs, mem);
            var (s, answers) := Run(net.server, trace, mem);
            NetRun(net, evs, mem).server == s && NetRun(net, evs, mem).out == net.out + Outbox(trace, answers)
    decreases |evs|
  {
    if evs != [] {
      var net1 := NetStep(net, evs[0], mem);
      StepIsRun(net, evs[0], mem);
      NetRunIsRun(net1, evs[1..], mem);
      TwoRuns(net.server, Calls(net, evs[0]), Trace(net1, evs[1..], mem), mem, net.out);
    }
  }

  lemma TwoRuns(s: Server, a: seq<Event>, b: seq<Event>, mem: nat -> Mem, out: seq<Sent>)
    requires Linked(s.users)
    ensures var (s1, r1) := Run(s, a, mem);
            var (s2, r2) := Run(s1, b, mem);
            var (s3, r3) := Run(s, a + b, mem);
            s3 == s2 && out + Outbox(a + b, r3) == out + Outbox(a, r1) + Outbox(b, r2)
  {
    var (s1, r1) := Run(s, a, mem);
    RunAppend(s, a, b, mem);
    OutboxAppend(a, r1, b, Run(s1, b, mem).1);
  }

  // ----- one connection among many

  /** The frames a connection delivers during a run of calls, in order. */
  function FramesOn(trace: seq<Event>, fd: int): seq<seq<byte>> {
    if trace == [] then []
    else if trace[0].Message? && trace[0].fd == fd then [trace[0].frame] + FramesOn(trace[1..], fd)
    else FramesOn(trace[1..], fd)
  }

  /** The bytes received on a slot, in order. */
  function BytesOn(evs: seq<NetEvent>, i: nat): seq<byte> {
    if evs == [] then []
    else if evs[0].Receive? && evs[0].slot == i then evs[0].chunk + BytesOn(evs[1..], i)
    else BytesOn(evs[1..], i)
  }

  lemma {:induction false} FramesOnAppend(a: seq<Event>, b: seq<Event>, fd: int)
    ensures FramesOn(a + b, fd) == FramesOn(a, fd) + FramesOn(b, fd)
    decreases |a|
  {
    if a == [] {
      PrependNone(a, b);
    } else {
      FramesOnAppend(a[1..], b, fd);
      AppendTail(a, b);
    }
  }

  lemma {:induction false} FramesOnMessages(frames: seq<seq<byte>>, from: int, fd: int)
    ensures FramesOn(Messages(from, frames), fd) == if from == fd then frames else []
    decreases |frames|
  {
    if frames != [] {
      FramesOnMessages(frames[1..], from, fd);
      assert Messages(from, frames)[1..] == Messages(from, frames[1..]);
    }
  }

  /** One network event, seen from the connection on slot i. */
  lemma StepOnSlot(net: Net, all: set<Mcast>, ev: NetEvent, mem: nat -> Mem, i: nat)
    requires NetInv(net, all) && OsHonest(net, ev) && Occupied(net, i) && ev != Close(i)
    ensures Occupied(NetStep(net, ev, mem), i)
    ensures var fd, residue := net.slots[i].fd, net.slots[i].residue;
            if ev.Receive? && ev.slot == i then
              FramesOn(Calls(net, ev), fd) == Parse(residue + ev.chunk).0
              && NetStep(net, ev, mem).slots[i] == Open(fd, Parse(residue + ev.chunk).1)
            else
              FramesOn(Calls(net, ev), fd) == [] && NetStep(net, ev, mem).slots[i] == net.slots[i]
  {
    var fd := net.slots[i].fd;
    match ev
    case Accept(_) =>
    case Receive(j, chunk) =>
      FramesOnMessages(Parse(net.slots[j].residue + chunk).0, net.slots[j].fd, fd);
    case Close(j) =>
      assert Calls(net, ev) == [Drop(net.slots[j].fd)];
  }

  lemma CutJoin(residue: seq<byte>, chunk: seq<byte>, more: seq<byte>)
    ensures Parse(residue + (chunk + more))
         == (Parse(residue + chunk).0 + Parse(Parse(residue + chunk).1 + more).0, Parse(Parse(residue + chunk).1 + more).1)
  {
    var a := residue + chunk;
    assert residue + (chunk + more) == a + more;
    ParseAppend(a, more);
  }

  /** Fragmentation and interleaving do not matter: while a connection is open, the frames
      it delivers are the maximal cut of the bytes it received, whatever the chunks and
      whatever happens on other connections in between. */
  lemma {:induction false} DeliveredIsCut(net: Net, all: set<Mcast>, evs: seq<NetEvent>, mem: nat -> Mem, i: nat)
    requires NetInv(net, all) && HonestRun(net, evs, mem) && Occupied(net, i) && Close(i) !in evs
    ensures var fd := net.slots[i].fd;
            var (frames, rest) := Parse(net.slots[i].residue + BytesOn(evs, i));
            FramesOn(Trace(net, evs, mem), fd) == frames && NetRun(net, evs, mem).slots[i] == Open(fd, rest)
    decreases |evs|
  {
    var fd, residue := net.slots[i].fd, net.slots[i].residue;
    if evs == [] {
      assert residue + BytesOn(evs, i) == residue;
      assert !HasFrame(residue);
    } else {
      var net1 := NetStep(net, evs[0], mem);
      assert NetInv(net1, all) by { NetStepInv(net, all, evs[0], mem); }
      StepOnSlot(net, all, evs[0], mem, i);
      DeliveredIsCut(net1, all, evs[1..], mem, i);
      FramesOnAppend(Calls(net, evs[0]), Trace(net1, evs[1..], mem), fd);
      if evs[0].Receive? && evs[0].slot == i {
        CutJoin(residue, evs[0].chunk, BytesOn(evs[1..], i));
      }
    }
  }

  // ----- end to end

  /** What a client writes for a sequence of requests. */
  function Encoded(reqs: seq<Request>): seq<seq<byte>>
    requires forall k :: 0 <= k < |reqs| ==> EncodeRequest(reqs[k]).Some?
  {
    if reqs == [] then [] else [EncodeRequest(reqs[0]).value] + Encoded(reqs[1..])
  }

  ghost predicate Encodable(reqs: seq<Request>) {
    forall k :: 0 <= k < |reqs| ==> Fits(reqs[k]) && NulFreeRequest(reqs[k]) && EncodeRequest(reqs[k]).Some?
  }

  lemma {:induction false} EncodedFrames(reqs: seq<Request>)
    requires Encodable(reqs)
    ensures |Encoded(reqs)| == |reqs|
    ensures forall k :: 0 <= k < |reqs| ==> IsFrame(Encoded(reqs)[k]) && DecodeRequest(Encoded(reqs)[k]) == Some(reqs[k])
    decreases |reqs|
  {
    if reqs != [] {
      RequestRoundTrip(reqs[0]);
      EncodedFrames(reqs[1..]);
    }
  }

  /** A client's requests, concatenated, cut into any chunks and interleaved with any other
      traffic, reach the dispatcher as exactly those frames in that order. */
  lemma EndToEnd(net: Net, all: set<Mcast>, evs: seq<NetEvent>, mem: nat -> Mem, i: nat, reqs: seq<Request>)
    requires NetInv(net, all) && HonestRun(net, evs, mem) && Close(i) !in evs
    requires Occupied(net, i) && net.slots[i].residue == []
    requires Encodable(reqs) && BytesOn(evs, i) == Flatten(Encoded(reqs))
    ensures FramesOn(Trace(net, evs, mem), net.slots[i].fd) == Encoded(reqs)
    ensures NetRun(net, evs, mem).slots[i] == Open(net.slots[i].fd, [])
  {
    DeliveredIsCut(net, all, evs, mem, i);
    EncodedFrames(reqs);
    ParseOfFrames(Encoded(reqs));
    assert [] + BytesOn(evs, i) == BytesOn(evs, i);
  }

  function SentTo(out: seq<Sent>, fd: int): seq<Sent> {
    if out == [] then [] else if out[0].fd == fd then [out[0]] + SentTo(out[1..], fd) else SentTo(out[1..], fd)
  }

  lemma {:induction false} SentToAppend(a: seq<Sent>, b: seq<Sent>, fd: int)
    ensures SentTo(a + b, fd) == SentTo(a, fd) + SentTo(b, fd)
    decreases |a|
  {
    if a == [] {
      PrependNone(a, b);
    } else {
      SentToAppend(a[1..], b, fd);
      AppendTail(a, b);
    }
  }

  /** The handlers' replies to one connection, in order. */
  function AnswersOn(trace: seq<Event>, answers: seq<Option<Reply>>, fd: int): seq<Reply>
    requires |trace| == |answers|
  {
    if trace == [] then []
    else
      var rest := AnswersOn(trace[1..], answers[1..], fd);
      if trace[0].Message? && trace[0].fd == fd && answers[0].Some? then [answers[0].value] + rest else rest
  }

  /** A reply frame to a request frame: its opcode is the request's plus one, and a client
      reads out of it what the handler answered. */
  ghost predicate Answers(bytes: seq<byte>, request: seq<byte>, reply: Reply) {
    && IsFrame(bytes) && request != [] && bytes[0] as int == request[0] as int + 1
    && DecodeGroupRep(bytes) == Some(Told(reply))
  }

  /** Exactly one reply per request, in order, carrying the handler's answer, for one
      connection inside any run of calls. */
  ghost predicate AllAnswered(sent: seq<Sent>, frames: seq<seq<byte>>, replies: seq<Reply>) {
    |sent| == |frames| == |replies| && forall k :: 0 <= k < |sent| ==> Answers(sent[k].bytes, frames[k], replies[k])
  }

  lemma {:induction false} RepliesMatch(s: Server, all: set<Mcast>, trace: seq<Event>, mem: nat -> Mem, fd: int)
    requires Inv(s, all) && AllFit(all) && fd >= 0
    requires forall k :: 0 <= k < |FramesOn(trace, fd)| ==> WellFormedRequest(FramesOn(trace, fd)[k])
    ensures var answers := Run(s, trace, mem).1;
            AllAnswered(SentTo(Outbox(trace, answers), fd), FramesOn(trace, fd), AnswersOn(trace, answers, fd))
    decreases |trace|
  {
    if trace != [] {
      var ev, rest := trace[0], trace[1..];
      var (s1, answer) := Step(s, ev, mem);
      var frames := FramesOn(trace, fd);
      StepInv(s, all, ev, mem);
      var mine := ev.Message? && ev.fd == fd;
      assert FramesOn(rest, fd) == if mine then frames[1..] else frames;
      RepliesMatch(s1, all, rest, mem, fd);
      var head := if ev.Message? then Post(ev.fd, ev.frame, answer) else [];
      assert Run(s, trace, mem).1[1..] == Run(s1, rest, mem).1;
      SentToAppend(head, Outbox(rest, Run(s1, rest, mem).1), fd);
      if mine {
        assert frames[0] == ev.frame;
        OneReplyPerRequest(s, all, fd, ev.frame, mem);
        assert SentTo(head, fd) == head;
      } else {
        assert SentTo(head, fd) == [];
      }
    }
  }

  /** Requests served one after the other by direct calls of the handlers. */
  function ServeAll(s: Server, fd: int, reqs: seq<Request>, mem: nat -> Mem): (r: (Server, seq<Reply>))
    requires Linked(s.users)
    ensures Linked(r.0.users) && |r.1| == |reqs|
    decreases |reqs|
  {
    if reqs == [] then (s, [])
    else
      var (s1, reply) := Serve(s, fd, reqs[0], mem(s.tick));
      var (s2, replies) := ServeAll(s1.(tick := s.tick + 1), fd, reqs[1..], mem);
      (s2, [reply] + replies)
  }

  function Posts(fd: int, reqs: seq<Request>, replies: seq<Reply>): seq<Sent>
    requires |reqs| == |replies|
  {
    if reqs == [] then []
    else Posted(fd, OpcodeOf(reqs[0]) + 1, replies[0]) + Posts(fd, reqs[1..], replies[1..])
  }

  lemma {:induction false} DeliveredAsCalls(s: Server, fd: int, reqs: seq<Request>, mem: nat -> Mem)
    requires Linked(s.users) && Encodable(reqs)
    ensures DeliverAll(s, fd, Encoded(reqs), mem)
         == (ServeAll(s, fd, reqs, mem).0, Posts(fd, reqs, ServeAll(s, fd, reqs, mem).1))
    decreases |reqs|
  {
    if reqs != [] {
      RequestRoundTrip(reqs[0]);
      var f := EncodeRequest(reqs[0]).value;
      assert Encoded(reqs)[0] == f && Encoded(reqs)[1..] == Encoded(reqs[1..]);
      DeliveredAsCalls(Deliver(s, fd, f, mem).0, fd, reqs[1..], mem);
      var replies := ServeAll(s, fd, reqs, mem).1;
      assert replies[1..] == ServeAll(Deliver(s, fd, f, mem).0, fd, reqs[1..], mem).1;
    }
  }

  /** The replies a client gets over such a run: one per request, in order, each carrying
      what the handler answered to that request. */
  lemma EndToEndReplies(net: Net, all: set<Mcast>, evs: seq<NetEvent>, mem: nat -> Mem, i: nat, reqs: seq<Request>)
    requires NetInv(net, all) && AllFit(all) && HonestRun(net, evs, mem) && Close(i) !in evs
    requires Occupied(net, i) && net.slots[i].residue == []
    requires Encodable(reqs) && BytesOn(evs, i) == Flatten(Encoded(reqs))
    ensures var fd, trace := net.slots[i].fd, Trace(net, evs, mem);
            var answers := Run(net.server, trace, mem).1;
            var sent := Outbox(trace, answers);
            NetRun(net, evs, mem).out == net.out + sent
            && AllAnswered(SentTo(sent, fd), Encoded(reqs), AnswersOn(trace, answers, fd))
  {
    var fd, trace := net.slots[i].fd, Trace(net, evs, mem);
    EndToEnd(net, all, evs, mem, i, reqs);
    EncodedFrames(reqs);
    forall k | 0 <= k < |reqs| ensures WellFormedRequest(FramesOn(trace, fd)[k]) {
      WellFormedIffDecodes(Encoded(reqs)[k]);
    }
    RepliesMatch(net.server, all, trace, mem, fd);
    NetRunIsRun(net, evs, mem);
  }

  /** From start-up on: whatever happened before, a client accepted by the server sends its
      requests in any fragments amid any other traffic, and reads one answer to each. */
  lemma ReachableReplies(listenFd: int, made: nat -> bool, before: seq<NetEvent>, newFd: int, evs: seq<NetEvent>,
                         mem: nat -> Mem, reqs: seq<Request>)
    requires FdInRange(listenFd) && HonestRun(InitialNet(listenFd, made), before, mem)
    requires var net := NetRun(InitialNet(listenFd, made), before, mem);
             var i := FirstFree(net.slots);
             && newFd != -1 && OsHonest(net, Accept(newFd))
             && HonestRun(NetStep(net, Accept(newFd), mem), evs, mem)
             && Close(i) !in evs && Encodable(reqs) && BytesOn(evs, i) == Flatten(Encoded(reqs))
    ensures var net := NetStep(NetRun(InitialNet(listenFd, made), before, mem), Accept(newFd), mem);
            var trace := Trace(net, evs, mem);
            var answers := Run(net.server, trace, mem).1;
            var sent := Outbox(trace, answers);
            NetRun(net, evs, mem).out == net.out + sent
            && AllAnswered(SentTo(sent, newFd), Encoded(reqs), AnswersOn(trace, answers, newFd))
  {
    var net := NetRun(InitialNet(listenFd, made), before, mem);
    ReachableNetInv(listenFd, made, before, mem);
    AcceptedHasNoSession(net, AllAddresses(), newFd);
    NetStepInv(net, AllAddresses(), Accept(newFd), mem);
    AllAddressesFit();
    EndToEndReplies(NetStep(net, Accept(newFd), mem), AllAddresses(), evs, mem, FirstFree(net.slots), reqs);
  }

  lemma {:induction false} OnlyMessages(trace: seq<Event>, fd: int)
    requires forall k :: 0 <= k < |trace| ==> trace[k].Message? && trace[k].fd == fd
    ensures trace == Messages(fd, FramesOn(trace, fd))
  {
    if trace != [] {
      OnlyMessages(trace[1..], fd);
    }
  }

  lemma {:induction false} TraceOfOneClient(net: Net, evs: seq<NetEvent>, mem: nat -> Mem, i: nat)
    requires Linked(net.server.users) && Occupied(net, i)
    requires forall k :: 0 <= k < |evs| ==> evs[k].Receive? && evs[k].slot == i
    ensures forall k :: 0 <= k < |Trace(net, evs, mem)| ==>
              Trace(net, evs, mem)[k].Message? && Trace(net, evs, mem)[k].fd == net.slots[i].fd
    decreases |evs|
  {
    if evs != [] {
      MessagesAre(net.slots[i].fd, Parse(net.slots[i].residue + evs[0].chunk).0);
      TraceOfOneClient(NetStep(net, evs[0], mem), evs[1..], mem, i);
    }
  }

  lemma {:induction false} MessagesAre(fd: int, frames: seq<seq<byte>>)
    ensures forall k :: 0 <= k < |frames| ==> Messages(fd, frames)[k] == Message(fd, frames[k])
  {
    if frames != [] {
      MessagesAre(fd, frames[1..]);
    }
  }

  /** A client alone: however its requests are cut into chunks, the server ends in the
      state, and has sent the bytes, that direct calls of the handlers produce. */
  lemma DirectCalls(net: Net, all: set<Mcast>, evs: seq<NetEvent>, mem: nat -> Mem, i: nat, reqs: seq<Request>)
    requires NetInv(net, all) && HonestRun(net, evs, mem) && Occupied(net, i) && net.slots[i].residue == []
    requires forall k :: 0 <= k < |evs| ==> evs[k].Receive? && evs[k].slot == i
    requires Encodable(reqs) && BytesOn(evs, i) == Flatten(Encoded(reqs))
    ensures var (s, replies) := ServeAll(net.server, net.slots[i].fd, reqs, mem);
            NetRun(net, evs, mem).server == s
            && NetRun(net, evs, mem).out == net.out + Posts(net.slots[i].fd, reqs, replies)
  {
    var fd, trace := net.slots[i].fd, Trace(net, evs, mem);
    EndToEnd(net, all, evs, mem, i, reqs);
    TraceOfOneClient(net, evs, mem, i);
    OnlyMessages(trace, fd);
    NetRunIsRun(net, evs, mem);
    DeliverAllIsRun(net.server, fd, Encoded(reqs), mem);
    DeliveredAsCalls(net.server, fd, reqs, mem);
  }
}
