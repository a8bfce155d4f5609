/** Facts about quotient and remainder. */
module Division {
  lemma RemainderUnique(x: nat, size: nat, q: nat, r: nat)
    requires r < size && x == q * size + r
    ensures x % size == r
  {
    SameDivision(x / size, x % size, q, r, size);
  }

  lemma SameDivision(q': int, r': int, q: int, r: int, size: int)
    requires 0 <= r < size && 0 <= r' < size && size * q' + r' == size * q + r
    ensures r' == r
  {
    assert size * (q' - q) == size * q' - size * q;
    if q' > q {
      AtLeastOnce(q' - q, size);
    } else if q' < q {
      AtLeastOnce(q - q', size);
    }
  }

  lemma AtLeastOnce(k: int, size: int)
    requires k >= 1 && size > 0
    ensures size * k >= size
  {
    assert size * k == size * (k - 1) + size;
  }
}

/** The generic queue: a ring buffer that behaves as a bounded first-in first-out queue. */
module GenQueue {
  import opened ChatTypes
  import opened Division

  datatype QueueResult = QUEUE_SUCCESS | QUEUE_OVERFLOW_ERROR | QUEUE_DATA_NOT_FOUND_ERROR

  /** Where the i-th element from the head lies in a ring of `size` cells. */
  function Cell(head: nat, i: nat, size: nat): (c: nat)
    requires head < size && i <= size
    ensures c < size
  {
    if head + i < size then head + i else head + i - size
  }

  /** The wrap-around of the ring is the remainder the code computes. */
  lemma CellIsRemainder(head: nat, i: nat, size: nat)
    requires head < size && i <= size
    ensures Cell(head, i, size) == (head + i) % size
  {
    RemainderUnique(head + i, size, if head + i < size then 0 else 1, Cell(head, i, size));
  }

  /** The elements stored in `count` cells from `head` on, wrapping at the end. */
  function Ring<T>(cells: seq<T>, head: nat, count: nat): (q: seq<T>)
    requires head < |cells| && count <= |cells|
    ensures |q| == count && forall i :: 0 <= i < count ==> q[i] == cells[Cell(head, i, |cells|)]
  {
    seq(count, i requires 0 <= i < count => cells[Cell(head, i, |cells|)])
  }

  lemma RingPut<T>(cells: seq<T>, head: nat, count: nat, x: T)
    requires head < |cells| && count < |cells|
    ensures Ring(cells[Cell(head, count, |cells|) := x], head, count + 1) == Ring(cells, head, count) + [x]
  {
  }

  lemma RingTake<T>(cells: seq<T>, head: nat, count: nat)
    requires head < |cells| && 0 < count <= |cells|
    ensures Ring(cells, head, count)[0] == cells[head]
    ensures Ring(cells, Cell(head, 1, |cells|), count - 1) == Ring(cells, head, count)[1..]
    ensures Cell(Cell(head, 1, |cells|), count - 1, |cells|) == Cell(head, count, |cells|)
  {
  }

  class Queue<T(0)> {
    const items: array<T>
    const size: nat
    var head: nat
    var tail: nat
    var count: nat

    /** `tail` is (head + count) modulo the size, by CellIsRemainder. */
    ghost predicate Valid()
      reads this
    {
      && 0 < size == items.Length
      && head < size && count <= size
      && tail == Cell(head, count, size)
    }

    /** The queued elements, front first. */
    ghost function Contents(): (q: seq<T>)
      requires Valid()
      reads this, items
      ensures |q| == count
    {
      Ring(items[..], head, count)
    }

    constructor (capacity: nat)
      requires capacity > 0
      ensures Valid() && fresh(items) && size == capacity && Contents() == []
    {
      items := new T[capacity];
      size := capacity;
      head, tail, count := 0, 0, 0;
    }

    method Insert(item: T) returns (r: QueueResult)
      requires Valid()
      modifies this, items
      ensures Valid()
      ensures r == if old(count) == size then QUEUE_OVERFLOW_ERROR else QUEUE_SUCCESS
      ensures Contents() == if r == QUEUE_SUCCESS then old(Contents()) + [item] else old(Contents())
    {
      if count == size {
        return QUEUE_OVERFLOW_ERROR;
      }
      CellIsRemainder(tail, 1, size);
      RingPut(items[..], head, count, item);
      items[tail] := item;
      tail := (tail + 1) % size;
      count := count + 1;
      return QUEUE_SUCCESS;
    }

    method Remove() returns (r: QueueResult, item: Option<T>)
      requires Valid()
      modifies this
      ensures Valid()
      ensures r == if old(count) == 0 then QUEUE_DATA_NOT_FOUND_ERROR else QUEUE_SUCCESS
      ensures r == QUEUE_SUCCESS ==> item == Some(old(Contents())[0]) && Contents() == old(Contents())[1..]
      ensures r != QUEUE_SUCCESS ==> item == None && Contents() == old(Contents())
    {
      if count == 0 {
        return QUEUE_DATA_NOT_FOUND_ERROR, None;
      }
      item := Some(items[head]);
      CellIsRemainder(head, 1, size);
      RingTake(items[..], head, count);
      head := (head + 1) % size;
      count := count - 1;
      return QUEUE_SUCCESS, item;
    }

    /** Visits front to back and stops after the first element the action refuses. */
    method ForEach(action: T -> bool) returns (visits: nat)
      requires Valid()
      ensures visits <= count
      ensures forall i :: 0 <= i < visits - 1 ==> action(Contents()[i])
      ensures visits < count ==> visits > 0 && !action(Contents()[visits - 1])
    {
      var idx := head;
      visits := 0;
      var i := 0;
      while i < count
        invariant 0 <= i <= count && visits == i && (i < count ==> idx == Cell(head, i, size))
        invariant forall j :: 0 <= j < i ==> action(Contents()[j])
      {
        visits := visits + 1;
        assert Contents()[i] == items[idx];
        if !action(items[idx]) {
          return;
        }
        CellIsRemainder(idx, 1, size);
        idx := (idx + 1) % size;
        i := i + 1;
      }
    }
  }

  /** QueueCreate: null for a zero size or when memory runs out. */
  method QueueCreate<T(0)>(size: nat, ok: bool) returns (q: Queue?<T>)
    ensures q == null <==> size == 0 || !ok
    ensures q != null ==> fresh(q) && fresh(q.items) && q.Valid() && q.size == size && q.Contents() == []
  {
    if size == 0 || !ok {
      return null;
    }
    q := new Queue<T>(size);
  }

  // ----- first in, first out

  datatype Op<T> = Take | Put(item: T)

  datatype Trace<T> = Trace(queue: seq<T>, taken: seq<T>, accepted: seq<T>)

  /** A run of takes and puts on a queue of bounded capacity. */
  function RunOps<T>(q: seq<T>, capacity: nat, ops: seq<Op<T>>): Trace<T>
    decreases |ops|
  {
    if ops == [] then Trace(q, [], [])
    else if ops[0].Take? then
      if q == [] then RunOps(q, capacity, ops[1..])
      else
        var rest := RunOps(q[1..], capacity, ops[1..]);
        rest.(taken := [q[0]] + rest.taken)
    else if |q| >= capacity then RunOps(q, capacity, ops[1..])
    else
      var rest := RunOps(q + [ops[0].item], capacity, ops[1..]);
      rest.(accepted := [ops[0].item] + rest.accepted)
  }

  /** Conservation: what was taken followed by what remains is what was there followed
      by what was accepted. */
  lemma {:induction false} TakenInOrder<T>(q: seq<T>, capacity: nat, ops: seq<Op<T>>)
    ensures RunOps(q, capacity, ops).taken + RunOps(q, capacity, ops).queue == q + RunOps(q, capacity, ops).accepted
    decreases |ops|
  {
    if ops != [] {
      if ops[0].Take? {
        if q == [] {
          TakenInOrder(q, capacity, ops[1..]);
        } else {
          TakenInOrder(q[1..], capacity, ops[1..]);
          var rest := RunOps(q[1..], capacity, ops[1..]);
          calc {
            [q[0]] + rest.taken + rest.queue;
            [q[0]] + (rest.taken + rest.queue);
            [q[0]] + (q[1..] + rest.accepted);
            q + rest.accepted;
          }
        }
      } else if |q| >= capacity {
        TakenInOrder(q, capacity, ops[1..]);
      } else {
        TakenInOrder(q + [ops[0].item], capacity, ops[1..]);
        var rest := RunOps(q + [ops[0].item], capacity, ops[1..]);
        assert q + [ops[0].item] + rest.accepted == q + ([ops[0].item] + rest.accepted);
      }
    }
  }

  /** An element behind k others, wherever in the queue, is handed out by exactly the
      (k+1)-th later successful take, whatever else is put or taken in between. */
  lemma HandedOutInTurn<T>(q: seq<T>, ahead: seq<T>, x: T, capacity: nat, ops: seq<Op<T>>)
    requires ahead + [x] <= q
    ensures var t := RunOps(q, capacity, ops);
            if |t.taken| > |ahead| then t.taken[|ahead|] == x && t.taken[..|ahead|] == ahead
            else t.taken == ahead[..|t.taken|] && |t.queue| > |ahead| - |t.taken| && t.queue[|ahead| - |t.taken|] == x
  {
    var t := RunOps(q, capacity, ops);
    TakenInOrder(q, capacity, ops);
    var all := t.taken + t.queue;
    assert (ahead + [x])[..|ahead|] == ahead && q[..|ahead| + 1] == ahead + [x];
    assert all[..|ahead|] == q[..|ahead|] == ahead && all[|ahead|] == q[|ahead|] == x;
    if |t.taken| > |ahead| {
      assert t.taken[..|ahead|] == all[..|ahead|];
      assert t.taken[|ahead|] == all[|ahead|];
    } else {
      assert t.taken == all[..|t.taken|] == ahead[..|t.taken|];
    }
  }

  lemma {:induction false} RunOpsAppend<T>(q: seq<T>, capacity: nat, a: seq<Op<T>>, b: seq<Op<T>>)
    ensures var t1 := RunOps(q, capacity, a);
            var t2 := RunOps(t1.queue, capacity, b);
            RunOps(q, capacity, a + b) == Trace(t2.queue, t1.taken + t2.taken, t1.accepted + t2.accepted)
    decreases |a|
  {
    if a == [] {
      assert a + b == b;
    } else {
      assert (a + b)[1..] == a[1..] + b;
      if a[0].Take? && q != [] {
        RunOpsAppend(q[1..], capacity, a[1..], b);
      } else if a[0].Put? && |q| < capacity {
        RunOpsAppend(q + [a[0].item], capacity, a[1..], b);
      } else {
        RunOpsAppend(q, capacity, a[1..], b);
      }
    }
  }
}
