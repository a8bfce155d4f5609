/** Lists of names: the scan and the removal that the managers and the client perform
    with iterators. */
module NameLists {
  import opened ChatTypes
  import opened GenDlist
  import opened UserState

  /** The iterator to the first occurrence of the name, or the end. */
  method FindName(list: List<Name>, name: Name) returns (itr: Node<Name>, ghost k: nat)
    requires list.Valid()
    ensures k <= |list.items| && itr == list.At(k)
    ensures name !in list.items[..k] && (k < |list.items| ==> list.items[k] == name)
    ensures itr == list.sentinel <==> name !in list.items
  {
    itr := list.ItrBegin();
    var end := list.ItrEnd();
    k := 0;
    while itr != end
      invariant k <= |list.items| && itr == list.At(k) && name !in list.items[..k]
      decreases |list.items| - k
    {
      var current := list.ItrGet(itr, k);
      if current == Some(name) {
        return;
      }
      itr := list.ItrNext(itr, k);
      k := k + 1;
    }
    assert k == |list.items|;
    assert list.items[..k] == list.items;
  }

  /** Unlinks the first occurrence of the name; the other nodes stay. */
  method RemoveName(list: List<Name>, name: Name) returns (found: bool)
    requires list.Valid()
    modifies list, list.ring
    ensures list.Valid() && (forall n :: n in list.ring ==> n in old(list.ring))
    ensures found <==> name in old(list.items)
    ensures list.items == RemoveFirst(old(list.items), name)
  {
    ghost var k;
    var itr;
    itr, k := FindName(list, name);
    var end := list.ItrEnd();
    if itr == end {
      RemoveAbsent(list.items, name);
      return false;
    }
    RemoveFirstAt(list.items, name, k);
    var _ := list.ItrRemove(itr, k);
    return true;
  }

  /** Unlinking the first match is removing the first occurrence. */
  lemma {:induction false} RemoveFirstAt(s: seq<Name>, x: Name, i: nat)
    requires i < |s| && s[i] == x && x !in s[..i]
    ensures RemoveFirst(s, x) == s[..i] + s[i + 1..]
  {
    if i > 0 {
      assert s[0] == s[..i][0] && s[1..][..i - 1] == s[..i][1..];
      RemoveFirstAt(s[1..], x, i - 1);
    }
  }

  lemma {:induction false} RemoveAbsent(s: seq<Name>, x: Name)
    requires x !in s
    ensures RemoveFirst(s, x) == s
  {
    if s != [] {
      RemoveAbsent(s[1..], x);
    }
  }
}
