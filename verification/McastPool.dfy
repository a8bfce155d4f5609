/** The multicast addresses: `sprintf("239.1.1.%d", i)` for i in 1..255, port 6000. */
module McastAddresses {
  import opened ChatTypes

  const POOL_SIZE := 255

  /** "239.1.1." */
  const PREFIX: seq<byte> := [50, 51, 57, 46, 49, 46, 49, 46]

  /** `%d` of a non-negative number. */
  function Decimal(n: nat): (r: seq<byte>)
    ensures |r| > 0 && NulFree(r)
  {
    if n < 10 then [48 + n] else Decimal(n / 10) + [48 + n % 10]
  }

  /** Reading a decimal back, the inverse of printing it. */
  function ReadDecimal(s: seq<byte>): int {
    if s == [] then 0 else 10 * ReadDecimal(s[..|s| - 1]) + (s[|s| - 1] as int - 48)
  }

  lemma {:induction false} DecimalRoundTrip(n: nat)
    ensures ReadDecimal(Decimal(n)) == n
  {
    if n >= 10 {
      DecimalRoundTrip(n / 10);
      var d := Decimal(n);
      assert d[..|d| - 1] == Decimal(n / 10);
    } else {
      assert Decimal(n)[..0] == [];
    }
  }

  lemma {:induction false} DecimalWidth(n: nat, digits: nat)
    requires 1 <= digits && n < Pow10(digits)
    ensures |Decimal(n)| <= digits
  {
    if n >= 10 {
      DecimalWidth(n / 10, digits - 1);
    }
  }

  function Pow10(k: nat): nat {
    if k == 0 then 1 else 10 * Pow10(k - 1)
  }

  function Address(i: nat): Mcast {
    Mcast(PREFIX + Decimal(i), CHAT_MCAST_BASE_PORT)
  }

  /** Distinct pool entries are distinct addresses. */
  lemma AddressInjective(i: nat, j: nat)
    requires Address(i) == Address(j)
    ensures i == j
  {
    assert Decimal(i) == Address(i).ip[|PREFIX|..];
    assert Decimal(j) == Address(j).ip[|PREFIX|..];
    DecimalRoundTrip(i);
    DecimalRoundTrip(j);
  }

  /** The text of every pool address, byte by byte: "239.1.1." and the index in decimal
      without leading zeros; and its port. */
  lemma AddressText(i: nat)
    requires 1 <= i <= 255
    ensures Address(i).port == 6000
    ensures Address(i).ip == [50, 51, 57, 46, 49, 46, 49, 46] +
              (if i < 10 then [48 + i]
               else if i < 100 then [48 + i / 10, 48 + i % 10]
               else [48 + i / 100, 48 + i / 10 % 10, 48 + i % 10])
  {
    if i >= 10 {
      assert Decimal(i) == Decimal(i / 10) + [48 + i % 10];
    }
    if i >= 100 {
      assert i / 10 / 10 == i / 100;
      assert Decimal(i / 10) == Decimal(i / 100) + [48 + i / 10 % 10];
      assert Decimal(i / 100) == [48 + i / 100];
    }
  }

  /** Every pool address fits a reply: NUL-free and shorter than 16 bytes. */
  lemma AddressFits(i: nat)
    requires 1 <= i <= POOL_SIZE
    ensures |Address(i).ip| < CHAT_MAX_IP_STR_LEN && NulFree(Address(i).ip)
  {
    assert Pow10(3) == 1000 by { assert Pow10(1) == 10; assert Pow10(2) == 100; }
    DecimalWidth(i, 3);
  }

  ghost function AllAddresses(): set<Mcast> {
    set i: nat | 1 <= i <= POOL_SIZE :: Address(i)
  }

  /** The pool as filled at start-up: the addresses first..255 whose record could
      be allocated, in order. */
  function Filled(first: nat, made: nat -> bool): seq<Mcast>
    decreases POOL_SIZE + 1 - first
  {
    if first > POOL_SIZE then []
    else if made(first) then [Address(first)] + Filled(first + 1, made)
    else Filled(first + 1, made)
  }

  /** The initial pool lists exactly the allocated addresses, once each. */
  lemma {:induction false} FilledContents(first: nat, made: nat -> bool)
    requires 1 <= first <= POOL_SIZE + 1
    ensures NoDup(Filled(first, made)) && |Filled(first, made)| <= POOL_SIZE + 1 - first
    ensures forall a :: a in Filled(first, made) <==>
              exists i: nat :: first <= i <= POOL_SIZE && made(i) && a == Address(i)
    decreases POOL_SIZE + 1 - first
  {
    if first <= POOL_SIZE {
      FilledContents(first + 1, made);
      var rest := Filled(first + 1, made);
      if Address(first) in rest {
        var i: nat :| first + 1 <= i <= POOL_SIZE && Address(first) == Address(i);
        AddressInjective(first, i);
        assert false;
      }
    }
  }

  /** When every record can be allocated the pool is the whole range, in order. */
  lemma {:induction false} FilledComplete(first: nat, made: nat -> bool)
    requires 1 <= first <= 256
    requires forall i: nat :: made(i)
    ensures |Filled(first, made)| == 256 - first
    ensures forall k :: 0 <= k < 256 - first ==> Filled(first, made)[k] == Address(first + k)
    decreases 256 - first
  {
    if first <= 255 {
      FilledComplete(first + 1, made);
    }
  }

  /** Whatever records can be allocated, earlier places hold smaller indices. */
  lemma {:induction false} FilledAscends(first: nat, made: nat -> bool, a: nat, b: nat) returns (i: nat, j: nat)
    requires first >= 1 && a < b < |Filled(first, made)|
    ensures first <= i < j <= 255 && made(i) && made(j)
    ensures Filled(first, made)[a] == Address(i) && Filled(first, made)[b] == Address(j)
    decreases 256 - first
  {
    if !made(first) {
      i, j := FilledAscends(first + 1, made, a, b);
    } else if a > 0 {
      i, j := FilledAscends(first + 1, made, a - 1, b - 1);
    } else {
      i := first;
      FilledContents(first + 1, made);
      var later := Filled(first + 1, made)[b - 1];
      assert later in Filled(first + 1, made);
      j :| first + 1 <= j <= POOL_SIZE && made(j) && later == Address(j);
    }
  }
}

/** The pool of free addresses, a queue filled at start-up. */
module FreeMcQueue {
  import opened ChatTypes
  import opened GenQueue
  import opened McastAddresses
  import opened GroupState

  class FreeMcQueue {
    const pool: Queue<Mcast>

    ghost predicate Valid()
      reads pool
    {
      pool.Valid() && pool.size == POOL_CAPACITY
    }

    ghost function Free(): seq<Mcast>
      requires Valid()
      reads pool, pool.items
    {
      pool.Contents()
    }

    /** `made(i)` says whether the i-th record can be allocated; a record that cannot
        is left out of the pool. */
    constructor (made: nat -> bool)
      ensures Valid() && fresh(pool) && fresh(pool.items)
      ensures Free() == Filled(1, made)
      ensures (forall i: nat :: made(i)) ==>
                |Free()| == 255 && forall k :: 0 <= k < 255 ==> Free()[k] == Address(1 + k)
    {
      pool := new Queue<Mcast>(POOL_CAPACITY);
      new;
      var i := 1;
      ghost var goal := Filled(i, made);
      while i <= 255
        invariant 1 <= i <= 256 && Valid() && fresh(pool) && fresh(pool.items)
        invariant |Free()| < i
        invariant Free() + Filled(i, made) == goal == Filled(1, made)
      {
        if made(i) {
          var r := pool.Insert(Address(i));
        }
        i := i + 1;
      }
      if forall i: nat :: made(i) {
        FilledComplete(1, made);
      }
    }

    method Take() returns (r: int, pair: Option<Mcast>)
      requires Valid()
      modifies pool
      ensures Valid()
      ensures r == if old(Free()) == [] then 0 else 1
      ensures r == 1 ==> pair == Some(old(Free())[0]) && Free() == old(Free())[1..]
      ensures r == 0 ==> pair == None && Free() == old(Free())
    {
      var q, popped := pool.Remove();
      if q != QUEUE_SUCCESS {
        return 0, None;
      }
      return 1, popped;
    }

    method Return(pair: Mcast, stored: bool) returns (r: int)
      requires Valid()
      modifies pool, pool.items
      ensures Valid()
      ensures Free() == ReturnAddr(old(Free()), pair, stored)
      ensures r == if stored && |old(Free())| < POOL_CAPACITY then 1 else 0
    {
      if !stored {
        return 0;
      }
      var q := pool.Insert(pair);
      return if q != QUEUE_SUCCESS then 0 else 1;
    }
  }
}
