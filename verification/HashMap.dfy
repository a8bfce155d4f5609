/** A chained hash table as a value: where every pair lies and which map it stands for. */
module Chains {
  import opened ChatTypes
  import opened GenDlist

  /** Equal keys hash equally, and equality is an equivalence: what the table asks of
      the two functions it is given. */
  ghost predicate Lawful<K(!new)>(hash: K -> nat, eq: (K, K) -> bool) {
    && (forall a :: eq(a, a))
    && (forall a, b :: eq(a, b) ==> eq(b, a) && hash(a) == hash(b))
    && (forall a, b, c :: eq(a, b) && eq(b, c) ==> eq(a, c))
  }

  function Bucket<K>(hash: K -> nat, key: K, capacity: nat): (i: nat)
    requires capacity > 0
    ensures i < capacity
  {
    hash(key) % capacity
  }

  /** Every pair lies in the bucket its key hashes to. */
  ghost predicate Placed<K, V>(chains: seq<seq<(K, V)>>, hash: K -> nat) {
    |chains| > 0 && forall i, p :: 0 <= i < |chains| && p in chains[i] ==> Bucket(hash, p.0, |chains|) == i
  }

  /** No chain holds two equal keys; with Placed and Lawful, neither does the table. */
  ghost predicate Distinct<K, V>(chain: seq<(K, V)>, eq: (K, K) -> bool) {
    forall a, b :: 0 <= a < b < |chain| ==> !eq(chain[a].0, chain[b].0)
  }

  ghost predicate AllDistinct<K, V>(chains: seq<seq<(K, V)>>, eq: (K, K) -> bool) {
    forall i :: 0 <= i < |chains| ==> Distinct(chains[i], eq)
  }

  ghost predicate Represents<K(!new), V>(chains: seq<seq<(K, V)>>, hash: K -> nat, m: map<K, V>) {
    && |chains| > 0
    && (forall k :: k in m ==> (k, m[k]) in chains[Bucket(hash, k, |chains|)])
    && (forall i, p :: 0 <= i < |chains| && p in chains[i] ==> p.0 in m && m[p.0] == p.1)
  }

  ghost predicate Sound<K(!new), V>(chains: seq<seq<(K, V)>>, hash: K -> nat, eq: (K, K) -> bool, m: map<K, V>) {
    && Lawful(hash, eq)
    && Placed(chains, hash)
    && AllDistinct(chains, eq)
    && Represents(chains, hash, m)
    && Total(chains) == |m|
  }

  /** Some key of the map equals `key`. */
  ghost predicate HasKey<K(!new), V>(m: map<K, V>, eq: (K, K) -> bool, key: K) {
    exists k :: k in m && eq(key, k)
  }

  /** The number of pairs in all chains. */
  function Total<X>(chains: seq<seq<X>>): nat {
    if chains == [] then 0 else |chains[0]| + Total(chains[1..])
  }

  lemma {:induction false} TotalUpdate<X>(chains: seq<seq<X>>, i: nat, chain: seq<X>)
    requires i < |chains|
    ensures Total(chains[i := chain]) == Total(chains) - |chains[i]| + |chain|
  {
    if i == 0 {
      assert chains[0 := chain][1..] == chains[1..];
    } else {
      TotalUpdate(chains[1..], i - 1, chain);
      assert chains[i := chain][1..] == chains[1..][i - 1 := chain];
    }
  }

  /** Searching one bucket decides membership in the whole table. */
  lemma AbsentFromTable<K(!new), V>(chains: seq<seq<(K, V)>>, hash: K -> nat, eq: (K, K) -> bool, m: map<K, V>, key: K)
    requires Sound(chains, hash, eq, m)
    requires forall p :: p in chains[Bucket(hash, key, |chains|)] ==> !eq(key, p.0)
    ensures !HasKey(m, eq, key)
  {
    forall k | k in m ensures !eq(key, k) {
      assert (k, m[k]) in chains[Bucket(hash, k, |chains|)];
    }
  }

  lemma InsertSound<K(!new), V>(chains: seq<seq<(K, V)>>, hash: K -> nat, eq: (K, K) -> bool, m: map<K, V>, key: K, value: V)
    requires Sound(chains, hash, eq, m) && !HasKey(m, eq, key)
    ensures var i := Bucket(hash, key, |chains|);
            Sound(chains[i := chains[i] + [(key, value)]], hash, eq, m[key := value])
    ensures key !in m
  {
    var i := Bucket(hash, key, |chains|);
    var chains' := chains[i := chains[i] + [(key, value)]];
    assert eq(key, key);
    TotalUpdate(chains, i, chains[i] + [(key, value)]);
    InsertDistinct(chains[i], eq, key, value);
    assert Represents(chains', hash, m[key := value]) by { InsertRepresents(chains, hash, m, key, value); }
  }

  lemma InsertDistinct<K(!new), V>(chain: seq<(K, V)>, eq: (K, K) -> bool, key: K, value: V)
    requires Distinct(chain, eq) && (forall p :: p in chain ==> !eq(key, p.0)) && forall a, b :: eq(a, b) ==> eq(b, a)
    ensures Distinct(chain + [(key, value)], eq)
  {
    forall a, b | 0 <= a < b < |chain| + 1
      ensures !eq((chain + [(key, value)])[a].0, (chain + [(key, value)])[b].0)
    {
      if b == |chain| {
        assert chain[a] in chain;
      }
    }
  }

  lemma InsertRepresents<K(!new), V>(chains: seq<seq<(K, V)>>, hash: K -> nat, m: map<K, V>, key: K, value: V)
    requires Represents(chains, hash, m) && key !in m
    ensures var i := Bucket(hash, key, |chains|);
            Represents(chains[i := chains[i] + [(key, value)]], hash, m[key := value])
  {
    var i := Bucket(hash, key, |chains|);
    var chains' := chains[i := chains[i] + [(key, value)]];
    forall j, p: (K, V) | 0 <= j < |chains'| && p in chains'[j] ensures p.0 in m[key := value] && m[key := value][p.0] == p.1 {
      if p != (key, value) {
        assert p in chains[j];
      }
    }
  }

  lemma RemoveSound<K(!new), V>(chains: seq<seq<(K, V)>>, hash: K -> nat, eq: (K, K) -> bool, m: map<K, V>, i: nat, j: nat)
    requires Sound(chains, hash, eq, m) && i < |chains| && j < |chains[i]|
    ensures Sound(chains[i := Removed(chains[i], j)], hash, eq, m - {chains[i][j].0})
    ensures chains[i][j].0 in m && m[chains[i][j].0] == chains[i][j].1
  {
    assert chains[i][j] in chains[i];
    RemoveRepresents(chains, hash, eq, m, i, j);
    RemovePlaced(chains, hash, eq, i, j);
    TotalUpdate(chains, i, Removed(chains[i], j));
    KeyRemoved(m, chains[i][j].0);
  }

  lemma KeyRemoved<K, V>(m: map<K, V>, key: K)
    requires key in m
    ensures |m - {key}| == |m| - 1
  {
    assert m.Keys == (m - {key}).Keys + {key};
  }

  lemma RemovePlaced<K(!new), V>(chains: seq<seq<(K, V)>>, hash: K -> nat, eq: (K, K) -> bool, i: nat, j: nat)
    requires Placed(chains, hash) && AllDistinct(chains, eq)
    requires i < |chains| && j < |chains[i]|
    ensures Placed(chains[i := Removed(chains[i], j)], hash)
    ensures AllDistinct(chains[i := Removed(chains[i], j)], eq)
  {
    assert forall p :: p in Removed(chains[i], j) ==> p in chains[i];
    assert Distinct(chains[i], eq);
  }

  lemma RemoveRepresents<K(!new), V>(chains: seq<seq<(K, V)>>, hash: K -> nat, eq: (K, K) -> bool, m: map<K, V>, i: nat, j: nat)
    requires Represents(chains, hash, m) && Placed(chains, hash) && i < |chains| && j < |chains[i]|
    requires Distinct(chains[i], eq) && forall a :: eq(a, a)
    ensures Represents(chains[i := Removed(chains[i], j)], hash, m - {chains[i][j].0})
  {
    var key := chains[i][j].0;
    var chains' := chains[i := Removed(chains[i], j)];
    forall b, p: (K, V) | 0 <= b < |chains'| && p in chains'[b] ensures p.0 in m - {key} && m[p.0] == p.1 {
      RemainsOther(chains, hash, eq, m, i, j, b, p);
    }
    forall k | k in m - {key} ensures (k, m[k]) in chains'[Bucket(hash, k, |chains|)] {
      OtherRemains(chains[i], j, chains[Bucket(hash, k, |chains|)], (k, m[k]));
    }
  }

  /** What remains has another key than the pair taken out. */
  lemma RemainsOther<K(!new), V>(chains: seq<seq<(K, V)>>, hash: K -> nat, eq: (K, K) -> bool, m: map<K, V>, i: nat, j: nat, b: nat, p: (K, V))
    requires Represents(chains, hash, m) && Placed(chains, hash) && i < |chains| && j < |chains[i]|
    requires Distinct(chains[i], eq) && forall a :: eq(a, a)
    requires b < |chains| && p in chains[i := Removed(chains[i], j)][b]
    ensures p in chains[b] && p.0 in m && m[p.0] == p.1 && p.0 != chains[i][j].0
  {
    if b == i {
      var rest := Removed(chains[i], j);
      var a :| 0 <= a < |rest| && rest[a] == p;
      assert p == chains[i][if a < j then a else a + 1];
    } else {
      assert chains[i][j] in chains[i];
    }
  }

  /** A pair with another key remains. */
  lemma OtherRemains<K, V>(chain: seq<(K, V)>, j: nat, home: seq<(K, V)>, p: (K, V))
    requires j < |chain| && p in home && p.0 != chain[j].0
    ensures home == chain ==> p in Removed(chain, j)
  {
    if home == chain {
      var a :| 0 <= a < |chain| && chain[a] == p;
      assert Removed(chain, j)[if a < j then a else a - 1] == p;
    }
  }

  // ----- the operations on chains

  datatype MapResult = MAP_SUCCESS | MAP_KEY_DUPLICATE_ERROR | MAP_KEY_NOT_FOUND_ERROR | MAP_ALLOCATION_ERROR

  /** The position of the first pair with an equal key, or the chain's length. */
  function FindIn<K, V>(chain: seq<(K, V)>, eq: (K, K) -> bool, key: K): (j: nat)
    ensures j <= |chain| && (j < |chain| ==> eq(key, chain[j].0))
    ensures forall i :: 0 <= i < j ==> !eq(key, chain[i].0)
  {
    if chain == [] || eq(key, chain[0].0) then 0 else 1 + FindIn(chain[1..], eq, key)
  }

  function TableFind<K, V>(chains: seq<seq<(K, V)>>, hash: K -> nat, eq: (K, K) -> bool, key: K): (MapResult, Option<V>)
    requires |chains| > 0
  {
    var chain := chains[Bucket(hash, key, |chains|)];
    var j := FindIn(chain, eq, key);
    if j < |chain| then (MAP_SUCCESS, Some(chain[j].1)) else (MAP_KEY_NOT_FOUND_ERROR, None)
  }

  function TableInsert<K, V>(chains: seq<seq<(K, V)>>, hash: K -> nat, eq: (K, K) -> bool, key: K, value: V, stored: bool)
    : (seq<seq<(K, V)>>, MapResult)
    requires |chains| > 0
  {
    var i := Bucket(hash, key, |chains|);
    if FindIn(chains[i], eq, key) < |chains[i]| then (chains, MAP_KEY_DUPLICATE_ERROR)
    else if !stored then (chains, MAP_ALLOCATION_ERROR)
    else (chains[i := chains[i] + [(key, value)]], MAP_SUCCESS)
  }

  function TableRemove<K, V>(chains: seq<seq<(K, V)>>, hash: K -> nat, eq: (K, K) -> bool, key: K)
    : (seq<seq<(K, V)>>, MapResult, Option<(K, V)>)
    requires |chains| > 0
  {
    var i := Bucket(hash, key, |chains|);
    var j := FindIn(chains[i], eq, key);
    if j < |chains[i]| then (chains[i := Removed(chains[i], j)], MAP_SUCCESS, Some(chains[i][j]))
    else (chains, MAP_KEY_NOT_FOUND_ERROR, None)
  }

  // ----- and on the map they stand for

  /** The pair stored under a key equal to `key`. */
  ghost predicate IsPair<K, V>(m: map<K, V>, eq: (K, K) -> bool, key: K, pair: (K, V)) {
    pair.0 in m && eq(key, pair.0) && m[pair.0] == pair.1
  }

  /** Searching one bucket finds the one pair of the whole map, or shows there is none. */
  lemma FindRefines<K(!new), V>(chains: seq<seq<(K, V)>>, hash: K -> nat, eq: (K, K) -> bool, m: map<K, V>, key: K)
    requires Sound(chains, hash, eq, m)
    ensures var chain := chains[Bucket(hash, key, |chains|)];
            var j := FindIn(chain, eq, key);
            if j < |chain| then IsPair(m, eq, key, chain[j]) else !HasKey(m, eq, key)
  {
    var chain := chains[Bucket(hash, key, |chains|)];
    var j := FindIn(chain, eq, key);
    if j < |chain| {
      assert chain[j] in chain;
    } else {
      forall p | p in chain ensures !eq(key, p.0) {
        var a :| 0 <= a < |chain| && chain[a] == p;
      }
      AbsentFromTable(chains, hash, eq, m, key);
    }
  }

  /** The hash of its key decides where a pair lies: in the chain numbered hash modulo the
      number of chains, and in no other. */
  lemma HashDecides<K(!new), V>(chains: seq<seq<(K, V)>>, hash: K -> nat, eq: (K, K) -> bool, m: map<K, V>, i: nat, key: K, value: V)
    requires Sound(chains, hash, eq, m) && i < |chains|
    ensures (key, value) in chains[i] <==> key in m && m[key] == value && i == hash(key) % |chains|
  {
    if (key, value) in chains[i] {
      assert Bucket(hash, (key, value).0, |chains|) == i;
    }
  }

  /** No two keys of the map are equal, so at most one pair answers a search. */
  lemma PairUnique<K(!new), V>(chains: seq<seq<(K, V)>>, hash: K -> nat, eq: (K, K) -> bool, m: map<K, V>, key: K, p: (K, V), q: (K, V))
    requires Sound(chains, hash, eq, m) && IsPair(m, eq, key, p) && IsPair(m, eq, key, q)
    ensures p == q
  {
    var i := Bucket(hash, key, |chains|);
    assert p in chains[i] && q in chains[i] by {
      assert (p.0, m[p.0]) in chains[Bucket(hash, p.0, |chains|)];
      assert (q.0, m[q.0]) in chains[Bucket(hash, q.0, |chains|)];
    }
    var a :| 0 <= a < |chains[i]| && chains[i][a] == p;
    var b :| 0 <= b < |chains[i]| && chains[i][b] == q;
    assert eq(p.0, q.0) && eq(q.0, p.0);
    assert Distinct(chains[i], eq);
  }

  datatype MapOp<K, V> = Find(key: K) | Insert(key: K, value: V, stored: bool) | Remove(key: K)

  /** What one operation returns: its result code and the value found or removed. */
  datatype MapAnswer<K, V> = MapAnswer(result: MapResult, value: Option<V>)

  function TableStep<K, V>(chains: seq<seq<(K, V)>>, hash: K -> nat, eq: (K, K) -> bool, op: MapOp<K, V>)
    : (r: (seq<seq<(K, V)>>, MapAnswer<K, V>))
    requires |chains| > 0
    ensures |r.0| == |chains|
  {
    match op
    case Find(key) =>
      var (r, v) := TableFind(chains, hash, eq, key);
      (chains, MapAnswer(r, v))
    case Insert(key, value, stored) =>
      var (chains', r) := TableInsert(chains, hash, eq, key, value, stored);
      (chains', MapAnswer(r, None))
    case Remove(key) =>
      var (chains', r, p) := TableRemove(chains, hash, eq, key);
      (chains', MapAnswer(r, if p == None then None else Some(p.value.1)))
  }

  /** The same operation on a finite map, as a relation. */
  ghost predicate MapStep<K(!new), V>(m: map<K, V>, eq: (K, K) -> bool, op: MapOp<K, V>, m': map<K, V>, a: MapAnswer<K, V>) {
    match op
    case Find(key) =>
      m' == m && if HasKey(m, eq, key) then a.result == MAP_SUCCESS && exists k :: k in m && eq(key, k) && a.value == Some(m[k])
                 else a == MapAnswer(MAP_KEY_NOT_FOUND_ERROR, None)
    case Insert(key, value, stored) =>
      if HasKey(m, eq, key) then m' == m && a == MapAnswer(MAP_KEY_DUPLICATE_ERROR, None)
      else if !stored then m' == m && a == MapAnswer(MAP_ALLOCATION_ERROR, None)
      else m' == m[key := value] && a == MapAnswer(MAP_SUCCESS, None)
    case Remove(key) =>
      if HasKey(m, eq, key) then
        a.result == MAP_SUCCESS && exists k :: k in m && eq(key, k) && a.value == Some(m[k]) && m' == m - {k}
      else m' == m && a == MapAnswer(MAP_KEY_NOT_FOUND_ERROR, None)
  }

  /** One operation on a sound table is that operation on the map it stands for. */
  lemma StepRefines<K(!new), V>(chains: seq<seq<(K, V)>>, hash: K -> nat, eq: (K, K) -> bool, m: map<K, V>, op: MapOp<K, V>)
    returns (m': map<K, V>)
    requires Sound(chains, hash, eq, m)
    ensures Sound(TableStep(chains, hash, eq, op).0, hash, eq, m')
    ensures MapStep(m, eq, op, m', TableStep(chains, hash, eq, op).1)
  {
    m' := m;
    FindRefines(chains, hash, eq, m, op.key);
    var i := Bucket(hash, op.key, |chains|);
    var j := FindIn(chains[i], eq, op.key);
    if j < |chains[i]| {
      assert IsPair(m, eq, op.key, chains[i][j]);
      assert HasKey(m, eq, op.key);
      if op.Remove? {
        RemoveSound(chains, hash, eq, m, i, j);
        m' := m - {chains[i][j].0};
      }
    } else if op.Insert? && op.stored {
      InsertSound(chains, hash, eq, m, op.key, op.value);
      m' := m[op.key := op.value];
    }
  }

  /** The answers of a run of operations on the table and on the map agree, for ever. */
  ghost predicate RunAgrees<K(!new), V(!new)>(chains: seq<seq<(K, V)>>, hash: K -> nat, eq: (K, K) -> bool, m: map<K, V>, ops: seq<MapOp<K, V>>)
    requires |chains| > 0
    decreases |ops|
  {
    Sound(chains, hash, eq, m) &&
    (ops != [] ==>
      var (chains', a) := TableStep(chains, hash, eq, ops[0]);
      exists m' :: MapStep(m, eq, ops[0], m', a) && RunAgrees(chains', hash, eq, m', ops[1..]))
  }

  lemma {:induction false} RunRefines<K(!new), V(!new)>(chains: seq<seq<(K, V)>>, hash: K -> nat, eq: (K, K) -> bool, m: map<K, V>, ops: seq<MapOp<K, V>>)
    requires Sound(chains, hash, eq, m)
    ensures RunAgrees(chains, hash, eq, m, ops)
    decreases |ops|
  {
    if ops != [] {
      var m' := StepRefines(chains, hash, eq, m, ops[0]);
      RunRefines(TableStep(chains, hash, eq, ops[0]).0, hash, eq, m', ops[1..]);
    }
  }

  lemma {:induction false} EmptyTotal<X>(chains: seq<seq<X>>)
    requires forall i :: 0 <= i < |chains| ==> chains[i] == []
    ensures Total(chains) == 0
  {
    if chains != [] {
      EmptyTotal(chains[1..]);
    }
  }

  // ----- visiting every pair

  function Flat<X>(chains: seq<seq<X>>): seq<X> {
    if chains == [] then [] else chains[0] + Flat(chains[1..])
  }

  lemma {:induction false} FlatAppend<X>(chains: seq<seq<X>>, chain: seq<X>)
    ensures Flat(chains + [chain]) == Flat(chains) + chain
  {
    if chains == [] {
      assert [chain][1..] == [];
    } else {
      FlatAppend(chains[1..], chain);
      assert (chains + [chain])[1..] == chains[1..] + [chain];
    }
  }

  lemma {:induction false} FlatMembers<X>(chains: seq<seq<X>>, x: X)
    ensures x in Flat(chains) <==> exists i :: 0 <= i < |chains| && x in chains[i]
    ensures |Flat(chains)| == Total(chains)
  {
    if chains != [] {
      FlatMembers(chains[1..], x);
      if x in chains[0] {
      } else if i :| 0 <= i < |chains| && x in chains[i] {
        assert x in chains[1..][i - 1];
      }
      if i :| 0 <= i < |chains[1..]| && x in chains[1..][i] {
        assert x in chains[i + 1];
      }
    }
  }

  lemma {:induction false} FlatKeysDistinct<K(!new), V>(chains: seq<seq<(K, V)>>, hash: K -> nat, eq: (K, K) -> bool, from: nat, n: nat)
    requires Lawful(hash, eq) && n > 0
    requires AllDistinct(chains, eq)
    requires forall i, p :: 0 <= i < |chains| && p in chains[i] ==> Bucket(hash, p.0, n) == from + i
    ensures Distinct(Flat(chains), eq)
  {
    if chains != [] {
      FlatKeysDistinct(chains[1..], hash, eq, from + 1, n);
      var flat, head, rest := Flat(chains), chains[0], Flat(chains[1..]);
      forall a, b | 0 <= a < b < |flat| ensures !eq(flat[a].0, flat[b].0) {
        if a < |head| && b >= |head| {
          assert flat[b] == rest[b - |head|] && flat[b] in rest;
          FlatMembers(chains[1..], flat[b]);
          var i :| 0 <= i < |chains[1..]| && flat[b] in chains[1..][i];
          assert flat[b] in chains[i + 1] && flat[a] in chains[0];
        } else if b < |head| {
          assert Distinct(head, eq);
        } else {
          assert flat[a] == rest[a - |head|] && flat[b] == rest[b - |head|];
        }
      }
    }
  }

  /** A listing of a map without repeated keys is as long as the map is large. */
  lemma {:induction false} ListingLength<K(!new), V>(flat: seq<(K, V)>, m: map<K, V>)
    requires forall a, b :: 0 <= a < b < |flat| ==> flat[a].0 != flat[b].0
    requires forall p :: p in flat <==> p.0 in m && m[p.0] == p.1
    ensures |flat| == |m|
    decreases |flat|
  {
    if flat == [] {
      assert forall k :: k in m ==> (k, m[k]) in flat;
      assert m == map[];
    } else {
      var last, front := flat[|flat| - 1], flat[..|flat| - 1];
      assert last in flat;
      KeyRemoved(m, last.0);
      forall p ensures p in front <==> p.0 in m - {last.0} && (m - {last.0})[p.0] == p.1 {
        if p in front { assert p in flat; }
        if p in flat && p.0 != last.0 { var a :| 0 <= a < |flat| && flat[a] == p; assert front[a] == p; }
      }
      ListingLength(front, m - {last.0});
    }
  }

  /** A walk over all buckets meets every pair of the map exactly once; so the number of
      pairs stored is the size of the map. */
  lemma WalkMeetsEachOnce<K(!new), V>(chains: seq<seq<(K, V)>>, hash: K -> nat, eq: (K, K) -> bool, m: map<K, V>)
    requires Lawful(hash, eq) && Placed(chains, hash) && AllDistinct(chains, eq) && Represents(chains, hash, m)
    ensures Total(chains) == |m|
    ensures |Flat(chains)| == |m| && Distinct(Flat(chains), eq)
    ensures forall k, v :: (k, v) in Flat(chains) <==> k in m && m[k] == v
  {
    FlatKeysDistinct(chains, hash, eq, 0, |chains|);
    forall k, v ensures (k, v) in Flat(chains) <==> k in m && m[k] == v {
      FlatMembers(chains, (k, v));
      if k in m && m[k] == v {
        assert (k, v) in chains[Bucket(hash, k, |chains|)];
      }
    }
    FlatLength(chains);
    ListingLength(Flat(chains), m);
  }

  lemma {:induction false} FlatLength<X>(chains: seq<seq<X>>)
    ensures |Flat(chains)| == Total(chains)
  {
    if chains != [] {
      FlatLength(chains[1..]);
    }
  }
}

/** The hash table over sentinel lists. */
module HashTable {
  import opened ChatTypes
  import opened GenDlist
  import opened Chains
  import opened Primes

  class HashMap<K(!new), V> {
    const buckets: array<List?<(K, V)>>
    const hashFunc: K -> nat
    const keysEqual: (K, K) -> bool
    var size: nat

    /** The chains as values. `owner` tells which bucket a list or node belongs to, so that
        no two buckets share one. */
    ghost var chains: seq<seq<(K, V)>>
    ghost var owner: map<object?, int>
    ghost var Repr: set<object>

    /** A bucket not yet used is null and stands for the empty chain. */
    ghost predicate BucketValid(i: int)
      requires 0 <= i < buckets.Length == |chains|
      reads this, buckets, Repr
    {
      if buckets[i] == null then chains[i] == []
      else
        && buckets[i] in Repr && buckets[i] in owner && owner[buckets[i]] == i
        && (forall n :: n in buckets[i].ring ==> n in Repr && n in owner && owner[n] == i)
        && buckets[i].Valid() && buckets[i].items == chains[i]
    }

    /** The heap is laid out as the chains say. */
    ghost predicate Shape()
      reads this, Repr
      ensures Shape() ==> this in Repr
    {
      && this in Repr && buckets in Repr && 0 < buckets.Length == |chains|
      && this !in owner && buckets !in owner
      && (forall i :: 0 <= i < buckets.Length ==> BucketValid(i))
    }

    ghost predicate Valid()
      reads this, Repr
      ensures Valid() ==> this in Repr
    {
      Shape() && size == Total(chains)
    }

    constructor (capacity: nat, hashFunc: K -> nat, keysEqual: (K, K) -> bool)
      requires 0 < capacity < SIZE_MODULUS
      ensures Valid() && fresh(Repr) && this.hashFunc == hashFunc && this.keysEqual == keysEqual
      ensures forall i :: 0 <= i < |chains| ==> chains[i] == []
      ensures Prime(buckets.Length)
      ensures PrimeInReach(capacity, SIZE_MODULUS) ==>
                buckets.Length >= capacity && forall q :: capacity <= q < buckets.Length ==> !Prime(q)
      ensures PrimeInReach(capacity, SIZE_MODULUS) ==> (buckets.Length > capacity <==> !Prime(capacity))
    {
      var primeCapacity := GetNextPrime(capacity, SIZE_MODULUS);
      buckets := new List?<(K, V)>[primeCapacity](_ => null);
      this.hashFunc := hashFunc;
      this.keysEqual := keysEqual;
      size := 0;
      chains := seq(primeCapacity, _ => []);
      owner := map[];
      new;
      Repr := {this, buckets};
      EmptyTotal(chains);
    }

    /** FindInList: the first pair with an equal key, by walking the chain. */
    method FindInList(list: List<(K, V)>, key: K) returns (itr: Node<(K, V)>, pair: Option<(K, V)>, ghost k: nat)
      requires list.Valid()
      ensures k <= |list.items| && itr == list.At(k)
      ensures pair == if k < |list.items| then Some(list.items[k]) else None
      ensures forall j :: 0 <= j < k ==> !keysEqual(key, list.items[j].0)
      ensures pair.Some? ==> keysEqual(key, pair.value.0)
    {
      itr := list.ItrBegin();
      var end := list.ItrEnd();
      k := 0;
      while itr != end
        invariant k <= |list.items| && itr == list.At(k)
        invariant forall j :: 0 <= j < k ==> !keysEqual(key, list.items[j].0)
        decreases |list.items| - k
      {
        pair := list.ItrGet(itr, k);
        if keysEqual(key, pair.value.0) {
          return;
        }
        itr := list.ItrNext(itr, k);
        k := k + 1;
      }
      pair := None;
    }

    method Find(key: K) returns (r: MapResult, value: Option<V>)
      requires Valid()
      ensures (r, value) == TableFind(chains, hashFunc, keysEqual, key)
    {
      var index := Bucket(hashFunc, key, buckets.Length);
      assert BucketValid(index);
      if buckets[index] == null {
        return MAP_KEY_NOT_FOUND_ERROR, None;
      }
      ghost var k;
      var itr, pair;
      itr, pair, k := FindInList(buckets[index], key);
      if pair == None {
        return MAP_KEY_NOT_FOUND_ERROR, None;
      }
      return MAP_SUCCESS, Some(pair.value.1);
    }

    /** The first use of a bucket creates its list. */
    method CreateBucket(index: nat)
      requires Shape() && index < buckets.Length && buckets[index] == null
      modifies this`Repr, this`owner, buckets
      ensures Shape() && fresh(Repr - old(Repr)) && buckets[index] != null
    {
      assert BucketValid(index);
      var list := new List<(K, V)>();
      buckets[index] := list;
      Repr := Repr + {list, list.sentinel};
      owner := owner[list := index][list.sentinel := index];
      forall i | 0 <= i < buckets.Length ensures BucketValid(i) {
        assert old(BucketValid(i));
      }
    }

    /** Appends a pair to a bucket's list; the other buckets are untouched. */
    method AppendPair(index: nat, pair: (K, V))
      requires Shape() && index < buckets.Length && buckets[index] != null
      modifies this`chains, this`size, this`Repr, this`owner, buckets[index], buckets[index].ring
      ensures Shape() && fresh(Repr - old(Repr)) && size == old(size) + 1
      ensures chains == old(chains)[index := old(chains)[index] + [pair]]
    {
      var list := buckets[index];
      assert BucketValid(index);
      var node := list.PushTail(pair, true);
      chains := chains[index := chains[index] + [pair]];
      size := size + 1;
      Repr := Repr + {node};
      owner := owner[node := index];
      forall i | 0 <= i < buckets.Length ensures BucketValid(i) {
        assert old(BucketValid(i));
        if i != index && buckets[i] != null {
          forall n | n in buckets[i].ring ensures unchanged(n) {
            assert n !in old(list.ring);
          }
          buckets[i].StillValid();
        }
      }
    }

    /** Unlinks the k-th pair of a bucket's list; the other buckets are untouched. */
    method UnlinkPair(index: nat, itr: Node<(K, V)>, ghost k: nat)
      requires Shape() && index < buckets.Length && buckets[index] != null && size > 0
      requires buckets[index].Valid() && k < |buckets[index].items| == |chains[index]| && itr == buckets[index].At(k)
      modifies this`chains, this`size, buckets[index], buckets[index].ring
      ensures Shape() && size == old(size) - 1 && chains == old(chains)[index := Removed(old(chains)[index], k)]
    {
      var list := buckets[index];
      assert BucketValid(index);
      var _ := list.ItrRemove(itr, k);
      chains := chains[index := Removed(chains[index], k)];
      size := size - 1;
      forall i | 0 <= i < buckets.Length ensures BucketValid(i) {
        assert old(BucketValid(i));
        if i != index && buckets[i] != null {
          forall n | n in buckets[i].ring ensures unchanged(n) {
            assert n !in old(list.ring);
          }
          buckets[i].StillValid();
        }
      }
    }

    /** `listOk`, `pairOk` and `nodeOk` are the outcomes of the three allocations; the list
        is only needed the first time a bucket is used. */
    method Insert(key: K, value: V, listOk: bool, pairOk: bool, nodeOk: bool) returns (r: MapResult)
      requires Valid()
      modifies Repr
      ensures Valid() && fresh(Repr - old(Repr))
      ensures var unused := old(buckets[Bucket(hashFunc, key, buckets.Length)]) == null;
              (chains, r) == TableInsert(old(chains), hashFunc, keysEqual, key, value, (!unused || listOk) && pairOk && nodeOk)
      ensures size == if r == MAP_SUCCESS then old(size) + 1 else old(size)
    {
      var index := Bucket(hashFunc, key, buckets.Length);
      assert BucketValid(index);
      if buckets[index] == null {
        if !listOk {
          return MAP_ALLOCATION_ERROR;
        }
        CreateBucket(index);
      } else {
        var itr, pair, _ := FindInList(buckets[index], key);
        if pair.Some? {
          return MAP_KEY_DUPLICATE_ERROR;
        }
      }
      if !pairOk || !nodeOk {
        return MAP_ALLOCATION_ERROR;
      }
      TotalUpdate(chains, index, chains[index] + [(key, value)]);
      assert BucketValid(index);
      AppendPair(index, (key, value));
      return MAP_SUCCESS;
    }

    method Remove(key: K) returns (r: MapResult, removed: Option<(K, V)>)
      requires Valid()
      modifies Repr
      ensures Valid() && Repr == old(Repr)
      ensures (chains, r, removed) == TableRemove(old(chains), hashFunc, keysEqual, key)
      ensures size == if r == MAP_SUCCESS then old(size) - 1 else old(size)
    {
      var index := Bucket(hashFunc, key, buckets.Length);
      assert BucketValid(index);
      if buckets[index] == null {
        return MAP_KEY_NOT_FOUND_ERROR, None;
      }
      ghost var k;
      var itr;
      itr, removed, k := FindInList(buckets[index], key);
      if removed == None {
        return MAP_KEY_NOT_FOUND_ERROR, None;
      }
      TotalUpdate(chains, index, Removed(chains[index], k));
      UnlinkPair(index, itr, k);
      return MAP_SUCCESS, removed;
    }

    /** Visits the pairs bucket by bucket and stops after the first one the action refuses.
        `visited` is the sequence of pairs the action was called with. */
    method ForEach(action: (K, V) -> bool) returns (count: nat, visited: seq<(K, V)>)
      requires Valid()
      ensures |Flat(chains)| == size && count == |visited| <= size && visited == Flat(chains)[..count]
      ensures forall i :: 0 <= i < count - 1 ==> action(visited[i].0, visited[i].1)
      ensures count < size ==> count > 0 && !action(visited[count - 1].0, visited[count - 1].1)
    {
      FlatLength(chains);
      count, visited := 0, [];
      var i := 0;
      while i < buckets.Length
        invariant 0 <= i <= buckets.Length && count == |visited| && visited == Flat(chains[..i])
        invariant count <= |Flat(chains)| && visited == Flat(chains)[..count]
        invariant forall j :: 0 <= j < count ==> action(visited[j].0, visited[j].1)
      {
        var more, go := VisitBucket(i, action);
        FlatPrefix(chains, i, |more|);
        visited := visited + more;
        count := count + |more|;
        if !go {
          return;
        }
        assert more == chains[i][..|chains[i]|];
        i := i + 1;
      }
      assert chains[..i] == chains;
    }

    /** One bucket of the walk: the pairs visited, and whether to go on. */
    method VisitBucket(i: nat, action: (K, V) -> bool) returns (visited: seq<(K, V)>, go: bool)
      requires Shape() && i < buckets.Length
      ensures |visited| <= |chains[i]| && visited == chains[i][..|visited|]
      ensures go ==> visited == chains[i] && forall j :: 0 <= j < |visited| ==> action(visited[j].0, visited[j].1)
      ensures !go ==> visited != [] && !action(visited[|visited| - 1].0, visited[|visited| - 1].1)
      ensures forall j :: 0 <= j < |visited| - 1 ==> action(visited[j].0, visited[j].1)
    {
      visited := [];
      assert BucketValid(i);
      if buckets[i] == null {
        return visited, true;
      }
      var list := buckets[i];
      var itr := list.ItrBegin();
      var end := list.ItrEnd();
      while itr != end
        invariant |visited| <= |chains[i]| && visited == chains[i][..|visited|] && itr == list.At(|visited|)
        invariant forall j :: 0 <= j < |visited| ==> action(visited[j].0, visited[j].1)
        decreases |chains[i]| - |visited|
      {
        var pair := list.ItrGet(itr, |visited|);
        var next := list.ItrNext(itr, |visited|);
        visited := visited + [pair.value];
        if !action(pair.value.0, pair.value.1) {
          return visited, false;
        }
        itr := next;
      }
      return visited, true;
    }
  }

  /** HashMap_Create: null for a zero capacity or when memory runs out. */
  method HashMapCreate<K(!new), V>(capacity: nat, hashFunc: K -> nat, keysEqual: (K, K) -> bool, ok: bool)
    returns (m: HashMap?<K, V>)
    requires capacity < SIZE_MODULUS
    ensures m == null <==> capacity == 0 || !ok
    ensures m != null ==> m.Valid() && fresh(m.Repr) && m.size == 0 && Prime(m.buckets.Length)
    ensures m != null && PrimeInReach(capacity, SIZE_MODULUS) ==>
              m.buckets.Length >= capacity && forall q :: capacity <= q < m.buckets.Length ==> !Prime(q)
    ensures m != null && PrimeInReach(capacity, SIZE_MODULUS) ==> (m.buckets.Length > capacity <==> !Prime(capacity))
    ensures m != null && Lawful(hashFunc, keysEqual) ==> Sound(m.chains, hashFunc, keysEqual, map[])
    ensures m != null ==> m.hashFunc == hashFunc && m.keysEqual == keysEqual
  {
    if capacity == 0 || !ok {
      return null;
    }
    m := new HashMap<K, V>(capacity, hashFunc, keysEqual);
    EmptyTotal(m.chains);
  }

  lemma FlatPrefix<X>(chains: seq<seq<X>>, i: nat, k: nat)
    requires i < |chains| && k <= |chains[i]|
    ensures Flat(chains[..i + 1]) == Flat(chains[..i]) + chains[i]
    ensures |Flat(chains[..i])| + k <= |Flat(chains)|
    ensures Flat(chains)[..|Flat(chains[..i])| + k] == Flat(chains[..i]) + chains[i][..k]
  {
    assert chains[..i + 1] == chains[..i] + [chains[i]];
    FlatAppend(chains[..i], chains[i]);
    FlatSplit(chains, i + 1);
  }

  lemma {:induction false} FlatSplit<X>(chains: seq<seq<X>>, i: nat)
    requires i <= |chains|
    ensures Flat(chains) == Flat(chains[..i]) + Flat(chains[i..])
  {
    if i == 0 {
      assert chains[..0] == [] && chains[0..] == chains;
    } else {
      FlatSplit(chains[1..], i - 1);
      assert chains[..i][1..] == chains[1..][..i - 1] && chains[1..][i - 1..] == chains[i..];
    }
  }
}

/** The tables of the server: keyed by C strings, hashed with djb2. */
module ServerTables {
  import opened ChatTypes
  import opened Chains
  import opened HashTable
  import opened Primes
  import opened HashUtils

  function HashName(s: Name): nat {
    Djb2(s)
  }

  predicate SameName(a: Name, b: Name) {
    a == b
  }

  /** On such a table the three operations are lookup, insertion and deletion of the
      ordinary finite map. */
  lemma FindIsLookup<V>(chains: seq<seq<(Name, V)>>, m: map<Name, V>, name: Name)
    requires Sound(chains, HashName, SameName, m)
    ensures TableFind(chains, HashName, SameName, name)
         == if name in m then (MAP_SUCCESS, Some(m[name])) else (MAP_KEY_NOT_FOUND_ERROR, None)
    ensures var chain := chains[Bucket(HashName, name, |chains|)];
            var j := FindIn(chain, SameName, name);
            if name in m then j < |chain| && chain[j] == (name, m[name]) else j == |chain| && !HasKey(m, SameName, name)
  {
    FindRefines(chains, HashName, SameName, m, name);
    assert name in m ==> HasKey(m, SameName, name) by { assert SameName(name, name); }
  }

  lemma InsertIsExtension<V>(chains: seq<seq<(Name, V)>>, m: map<Name, V>, name: Name, value: V, stored: bool)
    requires Sound(chains, HashName, SameName, m)
    ensures var (chains', r) := TableInsert(chains, HashName, SameName, name, value, stored);
            if name in m then r == MAP_KEY_DUPLICATE_ERROR && chains' == chains
            else if !stored then r == MAP_ALLOCATION_ERROR && chains' == chains
            else r == MAP_SUCCESS && Sound(chains', HashName, SameName, m[name := value])
  {
    FindIsLookup(chains, m, name);
    if name !in m {
      InsertSound(chains, HashName, SameName, m, name, value);
    }
  }

  lemma NothingDeleted<V>(m: map<Name, V>, name: Name)
    requires name !in m
    ensures m - {name} == m
  {
  }

  lemma RemoveIsDeletion<V>(chains: seq<seq<(Name, V)>>, m: map<Name, V>, name: Name)
    requires Sound(chains, HashName, SameName, m)
    ensures var (chains', r, p) := TableRemove(chains, HashName, SameName, name);
            if name in m then r == MAP_SUCCESS && p == Some((name, m[name])) && Sound(chains', HashName, SameName, m - {name})
            else r == MAP_KEY_NOT_FOUND_ERROR && p == None && chains' == chains && m - {name} == m
  {
    FindIsLookup(chains, m, name);
    if name !in m {
      NothingDeleted(m, name);
    } else {
      var i := Bucket(HashName, name, |chains|);
      RemoveSound(chains, HashName, SameName, m, i, FindIn(chains[i], SameName, name));
    }
  }

  /** The pair of functions the server passes satisfies what the table asks for. */
  lemma NamesLawful()
    ensures Lawful(HashName, SameName)
  {
  }

  // ----- the calls the managers make, in terms of that map

  /** Bucket i holds its part of the map: pairs that hash there, no name twice, and every
      name of the map that hashes there. */
  ghost predicate BucketStands<V>(chains: seq<seq<(Name, V)>>, m: map<Name, V>, i: int)
    requires 0 <= i < |chains|
  {
    && (forall p :: p in chains[i] ==> p.0 in m && m[p.0] == p.1 && Bucket(HashName, p.0, |chains|) == i)
    && Distinct(chains[i], SameName)
    && (forall k :: k in m && Bucket(HashName, k, |chains|) == i ==> (k, m[k]) in chains[i])
  }

  /** The table stands for the map, bucket by bucket. */
  ghost predicate Stands<V>(t: HashMap<Name, V>, m: map<Name, V>)
    reads t
  {
    && t.hashFunc == HashName && t.keysEqual == SameName
    && forall i {:trigger BucketStands(t.chains, m, i)} :: 0 <= i < |t.chains| ==> BucketStands(t.chains, m, i)
  }

  lemma StandsIsSound<V>(t: HashMap<Name, V>, m: map<Name, V>)
    requires t.Valid() && t.hashFunc == HashName && t.keysEqual == SameName
    ensures Stands(t, m) <==> Sound(t.chains, HashName, SameName, m)
  {
    NamesLawful();
    if Stands(t, m) {
      forall i, p | 0 <= i < |t.chains| && p in t.chains[i]
        ensures p.0 in m && m[p.0] == p.1 && Bucket(HashName, p.0, |t.chains|) == i
      {
        assert BucketStands(t.chains, m, i);
      }
      forall i | 0 <= i < |t.chains| ensures Distinct(t.chains[i], SameName) {
        assert BucketStands(t.chains, m, i);
      }
      forall k | k in m ensures (k, m[k]) in t.chains[Bucket(HashName, k, |t.chains|)] {
        assert BucketStands(t.chains, m, Bucket(HashName, k, |t.chains|));
      }
      WalkMeetsEachOnce(t.chains, HashName, SameName, m);
    }
    if Sound(t.chains, HashName, SameName, m) {
      forall i | 0 <= i < |t.chains| ensures BucketStands(t.chains, m, i) {
      }
    }
  }

  /** Where the record of a name lies in such a table. */
  lemma NamePlace<V>(t: HashMap<Name, V>, m: map<Name, V>, i: nat, name: Name, value: V)
    requires t.Valid() && Stands(t, m) && i < |t.chains|
    ensures (name, value) in t.chains[i] <==>
              && name in m && m[name] == value
              && i == (5381 * Power(33, |name|) + Weighted(name)) % 0x1_0000_0000_0000_0000 % |t.chains|
  {
    StandsIsSound(t, m);
    HashDecides(t.chains, HashName, SameName, m, i, name, value);
    Djb2Closed(name);
  }

  /** The capacity both managers ask for. */
  const TABLE_CAPACITY := 100

  method CreateTable<V>() returns (t: HashMap<Name, V>)
    ensures t.Valid() && fresh(t.Repr) && Stands(t, map[]) && t.buckets.Length == 101
  {
    NamesLawful();
    NextAfterHundred();
    var m := HashMapCreate<Name, V>(TABLE_CAPACITY, HashName, SameName, true);
    t := m;
    StandsIsSound(t, map[]);
  }

  method FindEntry<V>(t: HashMap<Name, V>, ghost m: map<Name, V>, name: Name) returns (r: MapResult, value: Option<V>)
    requires t.Valid() && Stands(t, m)
    ensures r == MAP_SUCCESS <==> name in m
    ensures value == if name in m then Some(m[name]) else None
  {
    StandsIsSound(t, m);
    FindIsLookup(t.chains, m, name);
    r, value := t.Find(name);
  }

  /** `ok` is whether memory holds for the pair and its node; the list of a bucket used for
      the first time may be made even if they then fail. */
  method InsertEntry<V>(t: HashMap<Name, V>, ghost m: map<Name, V>, name: Name, value: V, ok: bool) returns (r: MapResult)
    requires t.Valid() && Stands(t, m)
    modifies t.Repr
    ensures t.Valid() && fresh(t.Repr - old(t.Repr))
    ensures r == MAP_SUCCESS <==> name !in m && ok
    ensures Stands(t, if r == MAP_SUCCESS then m[name := value] else m)
  {
    var listOk :| ok ==> listOk;
    StandsIsSound(t, m);
    InsertIsExtension(t.chains, m, name, value, ok);
    r := t.Insert(name, value, listOk, ok, ok);
    StandsIsSound(t, if r == MAP_SUCCESS then m[name := value] else m);
  }

  method RemoveEntry<V>(t: HashMap<Name, V>, ghost m: map<Name, V>, name: Name) returns (r: MapResult)
    requires t.Valid() && Stands(t, m)
    modifies t.Repr
    ensures t.Valid() && t.Repr == old(t.Repr)
    ensures r == MAP_SUCCESS <==> name in m
    ensures Stands(t, m - {name})
  {
    StandsIsSound(t, m);
    RemoveIsDeletion(t.chains, m, name);
    var removed;
    r, removed := t.Remove(name);
    StandsIsSound(t, m - {name});
  }
}
