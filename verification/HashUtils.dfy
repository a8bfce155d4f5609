/** Hashing and comparing C strings held in memory. */
module HashUtils {
  import opened ChatTypes
  import opened Protocol

  /** The djb2 hash of a string's content, as a polynomial in 33. */
  function Djb2(s: Name): (h: nat)
    ensures h < SIZE_MODULUS
  {
    if s == [] then 5381 else (33 * Djb2(s[..|s| - 1]) + s[|s| - 1] as nat) % SIZE_MODULUS
  }

  function Power(base: nat, k: nat): nat {
    if k == 0 then 1 else base * Power(base, k - 1)
  }

  /** The bytes of a string as the digits of a number in base 33, the first one weighing most. */
  function Weighted(s: Name): nat {
    if s == [] then 0 else s[0] as nat * Power(33, |s| - 1) + Weighted(s[1..])
  }

  lemma {:induction false} WeightedLast(s: Name)
    requires s != []
    ensures Weighted(s) == 33 * Weighted(s[..|s| - 1]) + s[|s| - 1] as nat
  {
    var front := s[..|s| - 1];
    if |s| == 1 {
      assert front == [] && s[1..] == [];
      assert Power(33, 0) == 1;
    } else {
      WeightedLast(s[1..]);
      assert front[1..] == s[1..][..|s[1..]| - 1];
      calc {
        Weighted(s);
        s[0] as nat * Power(33, |s| - 1) + 33 * Weighted(front[1..]) + s[|s| - 1] as nat;
        { assert Power(33, |s| - 1) == 33 * Power(33, |s| - 2); }
        s[0] as nat * (33 * Power(33, |s| - 2)) + 33 * Weighted(front[1..]) + s[|s| - 1] as nat;
        { Scaled(s[0] as nat, Power(33, |s| - 2), Weighted(front[1..])); }
        33 * (s[0] as nat * Power(33, |s| - 2) + Weighted(front[1..])) + s[|s| - 1] as nat;
        33 * Weighted(front) + s[|s| - 1] as nat;
      }
    }
  }

  lemma Scaled(x: nat, p: nat, w: nat)
    ensures x * (33 * p) + 33 * w == 33 * (x * p + w)
  {
  }

  lemma ModStep(x: nat, c: nat)
    ensures (33 * (x % SIZE_MODULUS) + c) % SIZE_MODULUS == (33 * x + c) % SIZE_MODULUS
  {
    var q := x / SIZE_MODULUS;
    assert 33 * x + c == (33 * q) * SIZE_MODULUS + (33 * (x % SIZE_MODULUS) + c);
  }

  /** djb2 in closed form: 5381 and then the bytes as digits in base 33, modulo the word. */
  lemma {:induction false} Djb2Closed(s: Name)
    ensures Djb2(s) == (5381 * Power(33, |s|) + Weighted(s)) % 0x1_0000_0000_0000_0000
  {
    if s != [] {
      var front, c := s[..|s| - 1], s[|s| - 1] as nat;
      Djb2Closed(front);
      WeightedLast(s);
      ModStep(5381 * Power(33, |front|) + Weighted(front), c);
      assert Power(33, |s|) == 33 * Power(33, |front|);
      Scaled(5381, Power(33, |front|), Weighted(front));
    }
  }

  /** The hash of "ab". */
  lemma Djb2OfAb()
    ensures Djb2([97, 98]) == 5863208
  {
    assert [97, 98][..1] == [97] && [97][..0] == [];
  }

  /** A string in memory: bytes with a terminating NUL somewhere. */
  ghost predicate Terminated(str: array<byte>)
    reads str
  {
    exists i :: 0 <= i < str.Length && str[i] == 0
  }

  /** The shift-and-add of the loop, wrapping at each step, is multiplication by 33. */
  lemma ShiftAdd(hash: nat, c: nat)
    ensures ((hash * 32) % SIZE_MODULUS + hash + c) % SIZE_MODULUS == (33 * hash + c) % SIZE_MODULUS
  {
    var q := (hash * 32) / SIZE_MODULUS;
    assert hash * 32 == q * SIZE_MODULUS + (hash * 32) % SIZE_MODULUS;
  }

  lemma CStrPrefix(s: seq<byte>, i: nat)
    requires i < |s| && s[i] == 0 && NulFree(s[..i])
    ensures CStr(s) == s[..i]
  {
    assert s == s[..i] + [0] + s[i + 1..];
    CStrStops(s[..i], s[i + 1..]);
    CStrOfNulFree(s[..i]);
  }

  /** The loop hashes exactly the bytes before the terminator. */
  method HashStringDjb2(str: array<byte>) returns (hash: nat)
    requires Terminated(str)
    ensures hash == Djb2(CStr(str[..]))
    ensures hash == (5381 * Power(33, |CStr(str[..])|) + Weighted(CStr(str[..]))) % 0x1_0000_0000_0000_0000
  {
    hash := 5381;
    var i := 0;
    ghost var end :| 0 <= end < str.Length && str[end] == 0;
    while str[i] != 0
      invariant 0 <= i <= end && NulFree(str[..i]) && hash == Djb2(str[..i])
      decreases end - i
    {
      ShiftAdd(hash, str[i] as nat);
      hash := ((hash * 32) % SIZE_MODULUS + hash + str[i] as nat) % SIZE_MODULUS;
      assert str[..i + 1][..i] == str[..i];
      i := i + 1;
    }
    CStrPrefix(str[..], i);
    Djb2Closed(str[..i]);
  }

  /** strcmp as a byte-by-byte comparison up to the first NUL. */
  method StringKeysEqual(a: array<byte>, b: array<byte>) returns (r: bool)
    requires Terminated(a) && Terminated(b)
    ensures r <==> CStr(a[..]) == CStr(b[..])
  {
    var i := 0;
    ghost var end :| 0 <= end < a.Length && a[end] == 0;
    ghost var end' :| 0 <= end' < b.Length && b[end'] == 0;
    while a[i] != 0 && a[i] == b[i]
      invariant 0 <= i <= end && i <= end' && NulFree(a[..i]) && a[..i] == b[..i]
      decreases end - i
    {
      i := i + 1;
    }
    r := a[i] == b[i];
    if r {
      CStrPrefix(a[..], i);
      CStrPrefix(b[..], i);
    } else {
      DifferAt(a[..], b[..], i);
    }
  }

  lemma {:induction false} DifferAt(s: seq<byte>, t: seq<byte>, i: nat)
    requires i < |s| && i < |t| && s[..i] == t[..i] && NulFree(s[..i]) && s[i] != t[i]
    ensures CStr(s) != CStr(t)
  {
    if i > 0 {
      assert s[0] == s[..i][0] && t[0] == t[..i][0];
      assert s[1..][..i - 1] == s[..i][1..] && t[1..][..i - 1] == t[..i][1..];
      DifferAt(s[1..], t[1..], i - 1);
      assert CStr(s)[1..] == CStr(s[1..]) && CStr(t)[1..] == CStr(t[1..]);
    }
  }
}
