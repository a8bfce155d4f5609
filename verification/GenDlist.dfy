/** The generic list: a circular doubly linked list around a sentinel node. */
module GenDlist {
  import opened ChatTypes

  class Node<T> {
    var data: Option<T> // None only in a sentinel
    var next: Node?<T>
    var prev: Node?<T>
    const isSentinel: bool

    constructor (data: Option<T>, isSentinel: bool)
      ensures this.data == data && this.isSentinel == isSentinel && next == null && prev == null
    {
      this.data := data;
      this.isSentinel := isSentinel;
      next, prev := null, null;
    }
  }

  /** The i-th and the next node of a ring point at each other. */
  ghost predicate Chained<T>(ring: seq<Node<T>>, i: int)
    requires 0 <= i < |ring| - 1
    reads ring
  {
    ring[i].next == ring[i + 1] && ring[i + 1].prev == ring[i]
  }

  /** The i-th node behind the sentinel holds the i-th element. */
  ghost predicate Holds<T>(ring: seq<Node<T>>, items: seq<T>, i: int)
    requires 0 <= i < |items| && |ring| == |items| + 1
    reads ring
  {
    !ring[i + 1].isSentinel && ring[i + 1].data == Some(items[i])
  }

  function Inserted<X>(s: seq<X>, p: nat, x: X): seq<X>
    requires p <= |s|
  {
    s[..p] + [x] + s[p..]
  }

  function Removed<X>(s: seq<X>, p: nat): seq<X>
    requires p < |s|
  {
    s[..p] + s[p + 1..]
  }

  class List<T> {
    const sentinel: Node<T>
    ghost var ring: seq<Node<T>> // the sentinel, then the nodes in order
    ghost var items: seq<T>      // the elements in order

    /** `next` and `prev` run once around the ring in opposite directions. */
    ghost predicate Valid()
      reads this, ring
    {
      && |ring| == |items| + 1 && ring[0] == sentinel && sentinel.isSentinel && sentinel.data == None
      && NoDup(ring)
      && (forall i :: 0 <= i < |ring| - 1 ==> Chained(ring, i))
      && ring[|ring| - 1].next == sentinel && sentinel.prev == ring[|ring| - 1]
      && (forall i :: 0 <= i < |items| ==> Holds(ring, items, i))
    }

    /** The objects the list is made of. */
    ghost function Footprint(): set<object>
      reads this
    {
      var nodes: set<object> := set n | n in ring;
      {this} + nodes
    }

    constructor ()
      ensures Valid() && items == [] && fresh(sentinel) && ring == [sentinel]
    {
      var s := new Node<T>(None, true);
      s.next := s;
      s.prev := s;
      sentinel := s;
      ring, items := [s], [];
    }

    /** A list none of whose nodes has changed is still the list it was. */
    twostate lemma StillValid()
      requires old(Valid()) && ring == old(ring) && items == old(items)
      requires forall n :: n in ring ==> n.next == old(n.next) && n.prev == old(n.prev) && n.data == old(n.data)
      ensures Valid()
    {
      assert sentinel in ring && ring[|ring| - 1] in ring;
      forall i | 0 <= i < |ring| - 1 ensures Chained(ring, i) {
        assert old(Chained(ring, i)) && ring[i] in ring && ring[i + 1] in ring;
      }
      forall i | 0 <= i < |items| ensures Holds(ring, items, i) {
        assert old(Holds(ring, items, i)) && ring[i + 1] in ring;
      }
    }

    /** Splices a node in before `pos`; before the sentinel means at the tail. */
    method NodeLinkBefore(pos: Node<T>, n: Node<T>, ghost p: nat, ghost x: T)
      requires Valid() && 0 < p <= |ring| && pos == (if p == |ring| then sentinel else ring[p])
      requires n !in ring && !n.isSentinel && n.data == Some(x)
      modifies this, n, ring
      ensures Valid() && ring == Inserted(old(ring), p, n) && items == Inserted(old(items), p - 1, x)
    {
      assert p == |ring| || Chained(ring, p - 1);
      assert pos.prev == ring[p - 1];
      n.prev := pos.prev;
      n.next := pos;
      pos.prev.next := n;
      pos.prev := n;
      ring := Inserted(ring, p, n);
      items := Inserted(items, p - 1, x);
      forall i | 0 <= i < |ring| - 1 ensures Chained(ring, i) {
        if i < p - 1 {
          assert old(Chained(ring, i));
        } else if i > p {
          assert old(Chained(ring, i - 1));
        }
      }
      forall i | 0 <= i < |items| ensures Holds(ring, items, i) {
        if i < p - 1 {
          assert old(Holds(ring, items, i));
        } else if i >= p {
          assert old(Holds(ring, items, i - 1));
        }
      }
    }

    /** Takes the node out of the ring; it keeps its element. */
    method NodeUnlink(n: Node<T>, ghost p: nat)
      requires Valid() && 0 < p < |ring| && n == ring[p]
      modifies this, ring
      ensures Valid() && ring == Removed(old(ring), p) && items == Removed(old(items), p - 1)
      ensures n.data == old(n.data)
    {
      assert Chained(ring, p - 1) && (p == |ring| - 1 || Chained(ring, p));
      n.prev.next := n.next;
      n.next.prev := n.prev;
      n.prev := null;
      n.next := null;
      ring := Removed(ring, p);
      items := Removed(items, p - 1);
      forall i | 0 <= i < |ring| - 1 ensures Chained(ring, i) {
        if i < p - 1 {
          assert old(Chained(ring, i));
        } else if i >= p {
          assert old(Chained(ring, i + 1));
        }
      }
      forall i | 0 <= i < |items| ensures Holds(ring, items, i) {
        assert old(Holds(ring, items, if i < p - 1 then i else i + 1));
      }
    }

    // ----- iterators: the node at position k, the sentinel standing for the end

    ghost function At(k: nat): Node<T>
      requires |ring| == |items| + 1 && k <= |items|
      reads this
    {
      if k == |items| then sentinel else ring[k + 1]
    }

    method ItrBegin() returns (r: Node<T>)
      requires Valid()
      ensures r == At(0)
    {
      assert items == [] || Chained(ring, 0);
      r := sentinel.next;
    }

    method ItrEnd() returns (r: Node<T>)
      requires Valid()
      ensures r == At(|items|)
    {
      r := sentinel;
    }

    /** The next position; the end stays at the end. */
    method ItrNext(itr: Node<T>, ghost k: nat) returns (r: Node<T>)
      requires Valid() && k <= |items| && itr == At(k)
      ensures r == At(if k < |items| then k + 1 else k)
    {
      if itr.isSentinel {
        assert k == |items| || Holds(ring, items, k);
        return itr;
      }
      assert k + 1 == |items| || Chained(ring, k + 1);
      r := itr.next;
    }

    /** The previous position; the beginning stays where it is. */
    method ItrPrev(itr: Node<T>, ghost k: nat) returns (r: Node<T>)
      requires Valid() && k <= |items| && itr == At(k)
      ensures r == At(if k > 0 then k - 1 else 0)
    {
      assert k == |items| || Chained(ring, k);
      assert k == 0 || Holds(ring, items, k - 1);
      if itr.prev.isSentinel {
        return itr;
      }
      r := itr.prev;
    }

    method ItrGet(itr: Node<T>, ghost k: nat) returns (r: Option<T>)
      requires Valid() && k <= |items| && itr == At(k)
      ensures r == if k < |items| then Some(items[k]) else None
    {
      assert k == |items| || Holds(ring, items, k);
      if itr.isSentinel {
        return None;
      }
      r := itr.data;
    }

    method ItrSet(itr: Node<T>, x: T, ghost k: nat) returns (r: Option<T>)
      requires Valid() && k <= |items| && itr == At(k)
      modifies this, ring
      ensures Valid() && ring == old(ring)
      ensures if k < |old(items)| then r == Some(old(items)[k]) && items == old(items)[k := x]
              else r == None && items == old(items)
    {
      assert k == |items| || Holds(ring, items, k);
      if itr.isSentinel {
        return None;
      }
      r := itr.data;
      itr.data := Some(x);
      items := items[k := x];
      forall i | 0 <= i < |ring| - 1 ensures Chained(ring, i) {
        assert old(Chained(ring, i));
      }
      forall i | 0 <= i < |items| ensures Holds(ring, items, i) {
        assert old(Holds(ring, items, i));
      }
    }

    /** Inserts before a position; all later positions shift by one. `ok` is whether the
        node could be allocated. */
    method ItrInsertBefore(itr: Node<T>, x: T, ok: bool, ghost k: nat) returns (r: Node?<T>)
      requires Valid() && k <= |items| && itr == At(k)
      modifies this, ring
      ensures Valid()
      ensures !ok ==> r == null && ring == old(ring) && items == old(items)
      ensures ok ==> r != null && fresh(r) && ring == Inserted(old(ring), k + 1, r) && items == Inserted(old(items), k, x)
    {
      if !ok {
        return null;
      }
      var n := new Node<T>(Some(x), false);
      NodeLinkBefore(itr, n, k + 1, x);
      return n;
    }

    /** Removes the element at a position; all later positions shift by one. */
    method ItrRemove(itr: Node<T>, ghost k: nat) returns (r: Option<T>)
      requires Valid() && k <= |items| && itr == At(k)
      modifies this, ring
      ensures Valid()
      ensures k == |old(items)| ==> r == None && ring == old(ring) && items == old(items)
      ensures k < |old(items)| ==>
                r == Some(old(items)[k]) && ring == Removed(old(ring), k + 1) && items == Removed(old(items), k)
    {
      assert k == |items| || Holds(ring, items, k);
      if itr.isSentinel {
        return None;
      }
      r := itr.data;
      NodeUnlink(itr, k + 1);
    }

    // ----- both ends

    method PushHead(x: T, ok: bool) returns (r: Node?<T>)
      requires Valid()
      modifies this, ring
      ensures Valid() && (ok <==> r != null) && (!ok ==> ring == old(ring))
      ensures ok ==> fresh(r) && ring == Inserted(old(ring), 1, r)
      ensures items == if ok then [x] + old(items) else old(items)
    {
      var first := ItrBegin();
      r := ItrInsertBefore(first, x, ok, 0);
    }

    method PushTail(x: T, ok: bool) returns (r: Node?<T>)
      requires Valid()
      modifies this, ring
      ensures Valid() && (ok <==> r != null) && (!ok ==> ring == old(ring))
      ensures ok ==> fresh(r) && ring == old(ring) + [r]
      ensures items == if ok then old(items) + [x] else old(items)
    {
      r := ItrInsertBefore(sentinel, x, ok, |items|);
    }

    method PopHead() returns (r: Option<T>)
      requires Valid()
      modifies this, ring
      ensures Valid()
      ensures if old(items) == [] then r == None && items == [] && ring == old(ring)
              else r == Some(old(items)[0]) && items == old(items)[1..] && ring == Removed(old(ring), 1)
    {
      var first := ItrBegin();
      if first == sentinel {
        return None;
      }
      r := ItrRemove(first, 0);
    }

    method PopTail() returns (r: Option<T>)
      requires Valid()
      modifies this, ring
      ensures Valid()
      ensures if old(items) == [] then r == None && items == [] && ring == old(ring)
              else && r == Some(old(items)[|old(items)| - 1]) && items == old(items)[..|old(items)| - 1]
                   && ring == Removed(old(ring), |old(ring)| - 1)
    {
      var last := sentinel.prev;
      if last == sentinel {
        return None;
      }
      r := ItrRemove(last, |items| - 1);
    }

    /** Walking `next` from the sentinel comes back to it after exactly |items| nodes. */
    method Size() returns (count: nat)
      requires Valid()
      ensures count == |items|
    {
      count := 0;
      var cur := ItrBegin();
      while cur != sentinel
        invariant count <= |items| && cur == At(count)
        decreases |items| - count
      {
        cur := ItrNext(cur, count);
        count := count + 1;
      }
    }
  }
}
