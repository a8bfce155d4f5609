/** The network layer: receive buffers, the parse loop and the connection table. */
module ServerNetwork {
  import opened ChatTypes
  import opened Framing
  import opened UserState
  import opened ServerState
  import opened Runs
  import opened NetState
  import opened ServerManager

  class ClientState {
    var fd: int
    const buffer: array<byte>
    var len: nat // unparsed bytes at the front of the buffer

    ghost predicate Valid()
      reads this
    {
      buffer.Length == RECV_BUFFER_SIZE && len <= buffer.Length
    }

    ghost function Residue(): seq<byte>
      requires Valid()
      reads this, buffer
    {
      buffer[..len]
    }

    ghost function View(): Slot
      requires Valid()
      reads this, buffer
    {
      if fd == -1 then Free else Open(fd, Residue())
    }

    constructor ()
      ensures Valid() && fresh(buffer) && fd == -1 && len == 0
    {
      fd, len := -1, 0;
      buffer := new byte[RECV_BUFFER_SIZE];
    }

    /** The length of the complete frame at the front of the buffer, 0 if there is none yet. */
    method FirstFrame() returns (total: nat)
      requires Valid()
      ensures total == if HasFrame(Residue()) then FrameLen(Residue()) else 0
    {
      if len < 2 {
        return 0;
      }
      total := 2 + buffer[1] as nat;
      if len < total {
        return 0;
      }
    }

    /** Drops the first `total` bytes by shifting the rest to the front. */
    method Shift(total: nat)
      requires Valid() && total <= len
      modifies this`len, buffer
      ensures Valid() && Residue() == old(Residue())[total..]
    {
      len := len - total;
      if len > 0 {
        forall i | 0 <= i < len {
          buffer[i] := buffer[total + i];
        }
      }
    }

    /** The bytes recv stores behind those already there. */
    method Append(chunk: seq<byte>)
      requires Valid() && len + |chunk| <= buffer.Length
      modifies this`len, buffer
      ensures Valid() && Residue() == old(Residue()) + chunk
    {
      forall i | 0 <= i < |chunk| {
        buffer[len + i] := chunk[i];
      }
      len := len + |chunk|;
    }
  }

  /** A connection's buffer is not part of the server it feeds. */
  ghost predicate Apart(c: ClientState, server: ServerMng)
    reads c, server, server.users, server.groups, server.users.Repr, server.groups.Repr
  {
    c.Valid() && server.Valid() && c !in server.Repr() && c.buffer !in server.Repr()
  }

  /** One round of the parse loop: hand the first frame to the dispatcher and shift it out. */
  method DispatchFirst(c: ClientState, server: ServerMng, total: nat)
    requires Apart(c, server)
    requires 2 <= total <= c.len
    modifies c`len, c.buffer, server.Repr()
    ensures Apart(c, server) && fresh(server.Repr() - old(server.Repr()))
    ensures c.Residue() == old(c.Residue())[total..]
    ensures server.View() == Deliver(old(server.View()), c.fd, old(c.Residue())[..total], server.mem).0
    ensures server.out == old(server.out)
              + Post(c.fd, old(c.Residue())[..total], Deliver(old(server.View()), c.fd, old(c.Residue())[..total], server.mem).1)
  {
    assert c.buffer[..total] == c.Residue()[..total];
    var r := server.HandleMessage(c.fd, c.buffer, total);
    c.Shift(total);
  }

  /** The parse loop: every complete frame in the buffer is dispatched, in order, and
      exactly the bytes behind the last one remain. */
  method ProcessBuffer(c: ClientState, server: ServerMng)
    requires Apart(c, server)
    modifies c`len, c.buffer, server.Repr()
    ensures Apart(c, server) && fresh(server.Repr() - old(server.Repr()))
    ensures c.Residue() == Parse(old(c.Residue())).1
    ensures server.View() == DeliverAll(old(server.View()), c.fd, Parse(old(c.Residue())).0, server.mem).0
    ensures server.out == old(server.out) + DeliverAll(old(server.View()), c.fd, Parse(old(c.Residue())).0, server.mem).1
  {
    ghost var residue, s, out := c.Residue(), server.View(), server.out;
    ghost var frames, rest := Parse(residue).0, Parse(residue).1;
    ghost var goal := (DeliverAll(s, c.fd, frames, server.mem).0, out + DeliverAll(s, c.fd, frames, server.mem).1);
    while true
      invariant Apart(c, server) && fresh(server.Repr() - old(server.Repr()))
      invariant c.Residue() == residue && server.View() == s && server.out == out
      invariant Ahead(s, c.fd, residue, server.mem, out, goal, rest)
      decreases |residue|
    {
      var totalMsgLen := c.FirstFrame();
      if totalMsgLen == 0 {
        break;
      }
      ghost var s', out' := AheadStep(s, c.fd, residue, totalMsgLen, server.mem, out, goal, rest);
      DispatchFirst(c, server, totalMsgLen);
      residue, s, out := residue[totalMsgLen..], s', out';
    }
    AheadEnd(s, c.fd, residue, server.mem, out, goal, rest);
  }

  /** Bytes arrive and are parsed. */
  method TakeIn(c: ClientState, server: ServerMng, incoming: seq<byte>)
    requires Apart(c, server) && |incoming| <= RECV_BUFFER_SIZE - c.len
    modifies c`len, c.buffer, server.Repr()
    ensures Apart(c, server) && fresh(server.Repr() - old(server.Repr()))
    ensures var (frames, rest) := Parse(old(c.Residue()) + incoming);
            && c.Residue() == rest
            && server.View() == DeliverAll(old(server.View()), c.fd, frames, server.mem).0
            && server.out == old(server.out) + DeliverAll(old(server.View()), c.fd, frames, server.mem).1
  {
    c.Append(incoming);
    ProcessBuffer(c, server);
  }

  /** Dispatching the pending frames from here reaches the goal. */
  ghost predicate Ahead(s: Server, fd: int, residue: seq<byte>, mem: nat -> Mem, out: seq<Sent>,
                        goal: (Server, seq<Sent>), rest: seq<byte>)
  {
    && Linked(s.users)
    && goal.0 == DeliverAll(s, fd, Parse(residue).0, mem).0
    && goal.1 == out + DeliverAll(s, fd, Parse(residue).0, mem).1
    && rest == Parse(residue).1
  }

  lemma AheadStep(s: Server, fd: int, residue: seq<byte>, n: nat, mem: nat -> Mem, out: seq<Sent>,
                  goal: (Server, seq<Sent>), rest: seq<byte>)
    returns (s': Server, out': seq<Sent>)
    requires Ahead(s, fd, residue, mem, out, goal, rest) && HasFrame(residue) && n == FrameLen(residue)
    ensures s' == Deliver(s, fd, residue[..n], mem).0
    ensures out' == out + Post(fd, residue[..n], Deliver(s, fd, residue[..n], mem).1)
    ensures Ahead(s', fd, residue[n..], mem, out', goal, rest)
  {
    s' := Deliver(s, fd, residue[..n], mem).0;
    out' := out + Post(fd, residue[..n], Deliver(s, fd, residue[..n], mem).1);
    var frames, later := Parse(residue).0, Parse(residue[n..]).0;
    assert frames == [residue[..n]] + later;
    assert frames[0] == residue[..n] && frames[1..] == later;
  }

  lemma AheadEnd(s: Server, fd: int, residue: seq<byte>, mem: nat -> Mem, out: seq<Sent>,
                 goal: (Server, seq<Sent>), rest: seq<byte>)
    requires Ahead(s, fd, residue, mem, out, goal, rest) && !HasFrame(residue)
    ensures goal.0 == s && goal.1 == out && rest == residue
  {
  }

  class ServerNet {
    const clients: array<ClientState>
    const listenFd: int
    const server: ServerMng
    var masterSet: set<int>
    var maxFd: int

    /** The table as a value, and the objects it is made of. `home` tells which slot a
        connection or buffer belongs to, so that no two slots share one. */
    ghost var slots: seq<Slot>
    ghost const Repr: set<object>
    ghost const home: map<object, int>

    ghost predicate Valid()
      reads this, Repr, server, server.users, server.groups, server.users.Repr, server.groups.Repr
    {
      && this in Repr && clients in Repr && clients.Length == |slots| == MAX_CLIENTS
      && server.Valid() && Repr !! server.Repr()
      && (forall i {:trigger SlotValid(i)} :: 0 <= i < MAX_CLIENTS ==> SlotValid(i))
    }

    /** Slot i has a connection object and a buffer of its own, which hold what the value says. */
    ghost predicate SlotValid(i: int)
      requires clients.Length == |slots| == MAX_CLIENTS && 0 <= i < MAX_CLIENTS
      reads this, clients, Repr
    {
      var c := clients[i];
      && c in Repr && c.buffer in Repr && c in home && home[c] == i && c.buffer in home && home[c.buffer] == i
      && c.Valid() && c.View() == slots[i]
    }

    /** After a change to one slot alone, all slots hold what the value says. */
    twostate lemma SlotsKept(i: nat)
      requires clients.Length == |slots| == |old(slots)| == MAX_CLIENTS && i < MAX_CLIENTS && clients in Repr
      requires forall j {:trigger old(SlotValid(j))} :: 0 <= j < MAX_CLIENTS ==> old(SlotValid(j))
      requires forall o :: o in Repr ==> o == this || o == old(clients[i]) || o == old(clients[i].buffer) || unchanged(o)
      requires clients[i].Valid() && slots == old(slots)[i := clients[i].View()]
      ensures forall j {:trigger SlotValid(j)} :: 0 <= j < MAX_CLIENTS ==> SlotValid(j)
    {
      assert old(SlotValid(i)) && unchanged(clients);
      forall j | 0 <= j < MAX_CLIENTS ensures SlotValid(j) {
        assert old(SlotValid(j));
      }
    }

    ghost function View(): Net
      reads this, server, server.users, server.groups
    {
      Net(slots, masterSet, maxFd, listenFd, server.View(), server.out)
    }

    constructor (listenFd: int, server: ServerMng)
      requires server.Valid()
      ensures Valid() && fresh(Repr) && this.server == server
      ensures View() == Net(seq(MAX_CLIENTS, _ => Free), {listenFd}, listenFd, listenFd, server.View(), server.out)
    {
      var table, objects := NewTable();
      clients := table;
      this.listenFd := listenFd;
      this.server := server;
      masterSet, maxFd := {listenFd}, listenFd;
      slots := seq(MAX_CLIENTS, _ => Free);
      home := objects;
      Repr := {this, table} + objects.Keys;
      new;
      forall i | 0 <= i < MAX_CLIENTS ensures SlotValid(i) {
        assert Blank(clients[i], home, i);
      }
    }

    /** A new connection takes the first free slot. `newFd` is what accept returned. */
    method HandleNewConnection(newFd: int)
      requires Valid()
      modifies Repr
      ensures Valid() && server.Repr() == old(server.Repr()) && View() == AcceptStep(old(View()), newFd)
    {
      if newFd == -1 {
        return;
      }
      var i := FindFreeSlot();
      if i < MAX_CLIENTS {
        Occupy(i, newFd);
      }
    }

    /** The scan for an empty slot. */
    method FindFreeSlot() returns (i: nat)
      requires Valid()
      ensures i == FirstFree(slots)
    {
      i := 0;
      while i < MAX_CLIENTS
        invariant 0 <= i <= MAX_CLIENTS
        invariant forall j :: 0 <= j < i ==> slots[j].Open?
      {
        assert SlotValid(i);
        if clients[i].fd == -1 {
          return;
        }
        i := i + 1;
      }
    }

    /** The slot is taken and its descriptor monitored. */
    method Occupy(i: nat, newFd: int)
      requires Valid() && i < MAX_CLIENTS && newFd != -1
      modifies Repr
      ensures Valid() && server.Repr() == old(server.Repr())
      ensures View() == old(View()).(slots := old(slots)[i := Open(newFd, [])], master := old(masterSet) + {newFd},
                                     maxFd := if newFd > old(maxFd) then newFd else old(maxFd))
    {
      assert SlotValid(i);
      clients[i].fd := newFd;
      clients[i].len := 0;
      masterSet := masterSet + {newFd};
      if newFd > maxFd {
        maxFd := newFd;
      }
      slots := slots[i := clients[i].View()];
      SlotsKept(i);
    }

    /** Readable socket on slot i; `incoming` is what recv returns for the space offered,
        empty at end of stream or on error. */
    method HandleClientData(i: nat, incoming: seq<byte>)
      requires Valid() && i < MAX_CLIENTS && slots[i].Open? && |incoming| <= RECV_BUFFER_SIZE - |slots[i].residue|
      modifies Repr, server.Repr()
      ensures Valid() && fresh(server.Repr() - old(server.Repr()))
      ensures View() == if |old(slots)[i].residue| == RECV_BUFFER_SIZE then old(View())
                        else if incoming == [] then CloseStep(old(View()), i, server.mem)
                        else ReceiveStep(old(View()), i, incoming, server.mem)
    {
      assert SlotValid(i);
      var c := clients[i];
      var spaceLeft := RECV_BUFFER_SIZE - c.len;
      if spaceLeft == 0 {
        return;
      }
      if incoming == [] {
        Hangup(i);
      } else {
        Receive(i, incoming);
      }
    }

    method Hangup(i: nat)
      requires Valid() && i < MAX_CLIENTS && slots[i].Open?
      modifies Repr, server.Repr()
      ensures Valid() && fresh(server.Repr() - old(server.Repr()))
      ensures View() == CloseStep(old(View()), i, server.mem)
    {
      assert SlotValid(i);
      var fd := clients[i].fd;
      Disconnect(fd);
      Vacate(i);
    }

    /** The upcall of a hang-up: the management layer logs the user out. */
    method Disconnect(fd: int)
      requires Valid()
      modifies server.Repr()
      ensures Valid() && fresh(server.Repr() - old(server.Repr()))
      ensures View() == old(View()).(server := Runs.Disconnect(old(server.View()), fd, server.mem))
    {
      server.OnDisconnect(fd);
      forall i | 0 <= i < MAX_CLIENTS ensures SlotValid(i) {
        assert old(SlotValid(i));
      }
    }

    /** The descriptor is no longer monitored and the slot is free. */
    method Vacate(i: nat)
      requires Valid() && i < MAX_CLIENTS && slots[i].Open?
      modifies Repr
      ensures Valid() && server.Repr() == old(server.Repr())
      ensures View() == old(View()).(slots := old(slots)[i := Free], master := old(masterSet) - {old(slots)[i].fd})
    {
      assert SlotValid(i);
      masterSet := masterSet - {clients[i].fd};
      clients[i].fd := -1;
      clients[i].len := 0;
      slots := slots[i := clients[i].View()];
      SlotsKept(i);
    }

    method Receive(i: nat, incoming: seq<byte>)
      requires Valid() && i < MAX_CLIENTS && slots[i].Open? && |incoming| <= RECV_BUFFER_SIZE - |slots[i].residue|
      modifies Repr, server.Repr()
      ensures Valid() && fresh(server.Repr() - old(server.Repr()))
      ensures View() == ReceiveStep(old(View()), i, incoming, server.mem)
    {
      assert SlotValid(i);
      var c := clients[i];
      TakeIn(c, server, incoming);
      slots := slots[i := c.View()];
      SlotsKept(i);
    }
  }

  /** A free connection whose objects are noted as those of slot i. */
  ghost predicate Blank(c: ClientState, home: map<object, int>, i: int)
    reads c
  {
    c in home && home[c] == i && c.buffer in home && home[c.buffer] == i && c.Valid() && c.fd == -1
  }

  /** The table at start-up: every slot free. */
  method NewTable() returns (table: array<ClientState>, ghost home: map<object, int>)
    ensures fresh(table) && table.Length == MAX_CLIENTS && fresh(home.Keys)
    ensures forall i :: 0 <= i < MAX_CLIENTS ==> Blank(table[i], home, i)
  {
    var blank := new ClientState();
    table := new ClientState[MAX_CLIENTS](_ => blank);
    home := map[];
    var n := 0;
    while n < MAX_CLIENTS
      invariant 0 <= n <= MAX_CLIENTS && fresh(home.Keys)
      invariant forall i :: 0 <= i < n ==> Blank(table[i], home, i)
    {
      var c := new ClientState();
      assert c !in home && c.buffer !in home;
      table[n] := c;
      home := home[c := n][c.buffer := n];
      n := n + 1;
    }
  }
}
