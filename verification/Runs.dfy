/** The server over whole runs: any sequence of frames and disconnects, on any
    sockets, with any allocations failing. */
module Runs {
  import opened ChatTypes
  import opened Protocol
  import opened McastAddresses
  import opened UserState
  import opened GroupState
  import opened ServerState
  import opened ServerInvariant

  /** What the network layer reports to the management layer. */
  datatype Event = Message(fd: int, frame: seq<byte>) | Drop(fd: int)

  /** One frame handed to the dispatcher: the new state, and the answer if there is one. */
  function Deliver(s: Server, fd: int, frame: seq<byte>, mem: nat -> Mem): (r: (Server, Option<Reply>))
    requires Linked(s.users)
    ensures Linked(r.0.users) && r.0.tick == s.tick + 1
  {
    match DecodeRequest(frame)
    case None => (s.(tick := s.tick + 1), None)
    case Some(req) =>
      var (s', reply) := Serve(s, fd, req, mem(s.tick));
      (s'.(tick := s.tick + 1), Some(reply))
  }

  function Disconnect(s: Server, fd: int, mem: nat -> Mem): (s': Server)
    requires Linked(s.users)
    ensures Linked(s'.users) && s'.tick == s.tick + 1
  {
    LogoutUser(s, fd, mem(s.tick)).0.(tick := s.tick + 1)
  }

  function Step(s: Server, ev: Event, mem: nat -> Mem): (r: (Server, Option<Reply>))
    requires Linked(s.users)
    ensures Linked(r.0.users) && r.0.tick == s.tick + 1
  {
    match ev
    case Message(fd, frame) => Deliver(s, fd, frame, mem)
    case Drop(fd) => (Disconnect(s, fd, mem), None)
  }

  /** A run: the final state and one entry per event. */
  function Run(s: Server, evs: seq<Event>, mem: nat -> Mem): (r: (Server, seq<Option<Reply>>))
    requires Linked(s.users)
    ensures Linked(r.0.users) && r.0.tick == s.tick + |evs| && |r.1| == |evs|
    decreases |evs|
  {
    if evs == [] then (s, [])
    else
      var (s1, answer) := Step(s, evs[0], mem);
      var (s2, answers) := Run(s1, evs[1..], mem);
      (s2, [answer] + answers)
  }

  /** Bytes handed to `send`. */
  datatype Sent = Sent(fd: int, bytes: seq<byte>)

  /** What a reply puts on the wire: nothing if the descriptor is invalid or the
      encoder refuses. */
  function Posted(fd: int, op: byte, reply: Reply): seq<Sent> {
    if fd < 0 then []
    else
      match EncodeReply(op, reply)
      case None => []
      case Some(bytes) => [Sent(fd, bytes)]
  }

  function Post(fd: int, frame: seq<byte>, answer: Option<Reply>): seq<Sent> {
    if answer == None || frame == [] || frame[0] == 255 then []
    else Posted(fd, frame[0] + 1, answer.value)
  }

  /** The server after ServerMng_Init; `made(i)` says whether the i-th address could be stored. */
  function Init(made: nat -> bool): Server {
    Server(NO_USERS, Groups(map[], Filled(1, made)), 0)
  }

  // ----- the invariant over runs

  lemma InitInv(made: nat -> bool)
    ensures Inv(Init(made), AllAddresses())
    ensures (forall i: nat :: made(i)) ==> ServerConserved(Init(made), AllAddresses())
  {
    var s := Init(made);
    FilledContents(1, made);
    assert Held(s.groups.byName) == map[];
    if forall i: nat :: made(i) {
      FilledComplete(1, made);
    }
  }

  lemma StepInv(s: Server, all: set<Mcast>, ev: Event, mem: nat -> Mem)
    requires Inv(s, all)
    ensures Inv(Step(s, ev, mem).0, all)
    ensures ServerConserved(s, all) && mem(s.tick).lost == {} ==> ServerConserved(Step(s, ev, mem).0, all)
  {
    match ev
    case Message(fd, frame) =>
      if DecodeRequest(frame).Some? {
        DecodedFits(frame);
        ServeInv(s, all, fd, DecodeRequest(frame).value, mem(s.tick));
      }
    case Drop(fd) =>
      LogoutInv(s, all, fd, mem(s.tick));
  }

  ghost predicate NothingLost(mem: nat -> Mem) {
    forall t: nat :: mem(t).lost == {}
  }

  lemma {:induction false} RunInv(s: Server, all: set<Mcast>, evs: seq<Event>, mem: nat -> Mem)
    requires Inv(s, all)
    ensures Inv(Run(s, evs, mem).0, all)
    ensures ServerConserved(s, all) && NothingLost(mem) ==> ServerConserved(Run(s, evs, mem).0, all)
    decreases |evs|
  {
    if evs != [] {
      StepInv(s, all, evs[0], mem);
      RunInv(Step(s, evs[0], mem).0, all, evs[1..], mem);
    }
  }

  /** Every reachable state satisfies the invariant, whatever arrived and whatever failed. */
  lemma ReachableInv(made: nat -> bool, evs: seq<Event>, mem: nat -> Mem)
    ensures Inv(Run(Init(made), evs, mem).0, AllAddresses())
    ensures (forall i: nat :: made(i)) && NothingLost(mem) ==>
              ServerConserved(Run(Init(made), evs, mem).0, AllAddresses())
  {
    InitInv(made);
    RunInv(Init(made), AllAddresses(), evs, mem);
  }
}
