/** The prime search behind the hash table's capacity. */
module Primes {
  import opened ChatTypes
  import opened Division

  predicate Divides(d: nat, n: nat)
    requires d > 0
  {
    n % d == 0
  }

  ghost predicate Prime(n: nat) {
    n >= 2 && forall d :: 2 <= d < n ==> !Divides(d, n)
  }

  lemma MultipleDivides(d: nat, k: nat)
    requires d > 0
    ensures Divides(d, d * k)
  {
    RemainderUnique(d * k, d, k, 0);
  }

  lemma Quotient(d: nat, n: nat) returns (k: nat)
    requires d > 0 && Divides(d, n)
    ensures n == d * k
  {
    k := n / d;
  }

  lemma DividesTransitive(d: nat, m: nat, n: nat)
    requires d > 0 && m > 0 && Divides(d, m) && Divides(m, n)
    ensures Divides(d, n)
  {
    var a := Quotient(d, m);
    var b := Quotient(m, n);
    assert n == d * (a * b);
    MultipleDivides(d, a * b);
  }

  lemma DividesSuccessor(d: nat, n: nat)
    requires d >= 2 && Divides(d, n)
    ensures !Divides(d, n + 1)
  {
    var k := Quotient(d, n);
    RemainderUnique(n + 1, d, k, 1);
  }

  // ----- the 6k+-1 trial division

  /** Among six consecutive candidates from one that is 5 modulo 6, only the first and
      the third can divide a number that 2 and 3 do not divide. */
  lemma SkippedCandidates(n: nat, i: nat, d: nat)
    requires !Divides(2, n) && !Divides(3, n) && i % 6 == 5 && i <= d < i + 6
    requires !Divides(i, n) && !Divides(i + 2, n)
    ensures !Divides(d, n)
  {
    if d != i && d != i + 2 && Divides(d, n) {
      if d == i + 4 {
        assert Divides(3, d);
        DividesTransitive(3, d, n);
      } else {
        assert Divides(2, d);
        DividesTransitive(2, d, n);
      }
      assert false;
    }
  }

  ghost predicate NoDivisorBelow(n: nat, i: nat) {
    forall d :: 2 <= d < i && d < n ==> !Divides(d, n)
  }

  lemma NextSix(n: nat, i: nat)
    requires !Divides(2, n) && !Divides(3, n) && i % 6 == 5 && NoDivisorBelow(n, i)
    requires !Divides(i, n) && !Divides(i + 2, n)
    ensures (i + 6) % 6 == 5 && NoDivisorBelow(n, i + 6)
  {
    forall d | 2 <= d < i + 6 && d < n ensures !Divides(d, n) {
      if d >= i {
        SkippedCandidates(n, i, d);
      }
    }
  }

  /** A number without divisors below i, and smaller than i squared, has none at all. */
  lemma TrialDivisionSuffices(n: nat, i: nat)
    requires n >= 2 && i * i > n && NoDivisorBelow(n, i)
    ensures Prime(n)
  {
    forall d | 2 <= d < n ensures !Divides(d, n) {
      if d >= i && Divides(d, n) {
        var e := Quotient(d, n);
        Cofactor(d, e, n, i);
        assert n == e * d;
        MultipleDivides(e, d);
        assert false;
      }
    }
  }

  lemma Cofactor(d: nat, e: nat, n: nat, i: nat)
    requires n == d * e && 2 <= d < n && i <= d && i * i > n
    ensures 2 <= e < i && e < n
  {
    if e >= i {
      MulMonotone(i, d, i, e);
    } else if e >= 2 {
      MulMonotone(2, d, e, e);
    }
  }

  lemma MulMonotone(a: nat, a': nat, b: nat, b': nat)
    requires a <= a' && b <= b'
    ensures a * b <= a' * b'
  {
    assert a' * b' - a * b == a' * (b' - b) + (a' - a) * b;
  }

  // ----- the same loop in machine arithmetic
  // `word` is the number of values of size_t; squares are computed modulo it.

  function SquareMod(i: nat, word: nat): nat
    requires word > 0
  {
    (i * i) % word
  }

  /** Some candidate whose reduced square exceeds the number ends the loop. */
  ghost predicate LoopEnds(num: nat, word: nat)
    requires word > 0
  {
    num <= 3 || exists i :: 5 <= i <= num && i % 6 == 5 && SquareMod(i, word) > num
  }

  /** The loop has gone past every candidate below i. */
  ghost predicate Passed(num: nat, i: nat, word: nat)
    requires word > 0
  {
    forall j :: 5 <= j < i && j % 6 == 5 ==> SquareMod(j, word) <= num
  }

  lemma PassedNext(num: nat, i: nat, word: nat)
    requires word > 0 && i % 6 == 5 && Passed(num, i, word) && SquareMod(i, word) <= num
    ensures Passed(num, i + 6, word)
    ensures num > 3 && num < i + 6 ==> !LoopEnds(num, word)
  {
  }

  /** The square of a candidate lies above the number and still fits a word. */
  ghost predicate WrapFree(num: nat, word: nat) {
    exists c: nat :: c % 6 == 5 && Between(num, c * c, word)
  }

  predicate Between(a: int, b: int, c: int) {
    a < b < c
  }

  lemma SmallSquare(i: nat, c: nat, word: nat)
    requires i <= c && c * c < word
    ensures SquareMod(i, word) == i * i
  {
    MulMonotone(i, c, i, c);
    RemainderUnique(i * i, word, 0, i * i);
  }

  lemma SquareGrows(i: nat, num: nat)
    requires i >= 5 && num <= i + 2
    ensures i * i > num
  {
    MulMonotone(5, i, i, i);
  }

  /** The loop is left by its guard, with a correct answer, whenever no square it needs wraps. */
  lemma WrapFreeEnds(num: nat, word: nat)
    requires word > 0 && Prime(num) && WrapFree(num, word)
    ensures LoopEnds(num, word)
  {
    if num > 3 {
      var c: nat :| c % 6 == 5 && Between(num, c * c, word);
      PrimeModSix(num);
      var i := LastCandidate(num, c);
      SmallSquare(i, c, word);
      assert SquareMod(i, word) > num;
    }
  }

  /** A candidate not above the number or `c` whose square exceeds the number. */
  lemma LastCandidate(num: nat, c: nat) returns (i: nat)
    requires num > 3 && (num % 6 == 5 || num % 6 == 1) && c % 6 == 5 && c * c > num
    ensures 5 <= i <= num && i % 6 == 5 && i <= c && i * i > num
  {
    i := c;
    if c > num {
      i := if num % 6 == 5 then num else num - 2;
      SquareGrows(i, num);
    }
  }

  lemma PrimeModSix(num: nat)
    requires Prime(num) && num > 3
    ensures num % 6 == 5 || num % 6 == 1
  {
    assert !Divides(2, num) && !Divides(3, num);
  }

  /** For 64-bit words the condition is a bound on the argument. */
  lemma WrapFree64(num: nat)
    ensures WrapFree(num, SIZE_MODULUS) <==> num < 0xFFFF_FFFB * 0xFFFF_FFFB
  {
    if c: nat :| c % 6 == 5 && Between(num, c * c, SIZE_MODULUS) {
      if c >= 0x1_0000_0000 { MulMonotone(0x1_0000_0000, c, 0x1_0000_0000, c); }
      assert c <= 0xFFFF_FFFB;
      MulMonotone(c, 0xFFFF_FFFB, c, 0xFFFF_FFFB);
    }
    var c: nat := 0xFFFF_FFFB;
    assert c % 6 == 5 && c * c < SIZE_MODULUS;
    assert num < c * c ==> Between(num, c * c, SIZE_MODULUS);
  }

  /** What the loop accepts, for every argument a word can hold: a number it calls prime
      is prime, and it misses a prime exactly when no reduced square ever exceeds it. */
  method IsPrime(num: nat, word: nat) returns (r: bool)
    requires num < word
    ensures r <==> Prime(num) && LoopEnds(num, word)
  {
    if num <= 1 {
      return false;
    }
    if 2 == num || 3 == num {
      return true;
    }
    if 0 == num % 2 || 0 == num % 3 {
      assert Divides(2, num) || Divides(3, num);
      return false;
    }
    r := TrialDivision(num, word);
  }

  method TrialDivision(num: nat, word: nat) returns (r: bool)
    requires 5 <= num < word && !Divides(2, num) && !Divides(3, num)
    ensures r <==> Prime(num) && LoopEnds(num, word)
  {
    var i := 5;
    assert NoDivisorBelow(num, i) by {
      if Divides(4, num) { DividesTransitive(2, 4, num); }
    }
    while SquareMod(i, word) <= num
      invariant i % 6 == 5 && 5 <= i <= num && NoDivisorBelow(num, i) && Passed(num, i, word)
      decreases num - i
    {
      PassedNext(num, i, word);
      if 0 == num % i || 0 == num % (i + 2) {
        Rejected(num, i);
        return false;
      }
      NextSix(num, i);
      MultipleDivides(i, 1);
      MultipleDivides(i + 2, 1);
      Onward(num, i);
      i := i + 6;
    }
    assert LoopEnds(num, word);
    SquareAbove(num, i, word);
    TrialDivisionSuffices(num, i);
    return true;
  }

  lemma Rejected(num: nat, i: nat)
    requires 5 <= i <= num && (Divides(i, num) || Divides(i + 2, num))
    ensures Prime(num) ==> num < i + 6
  {
  }

  /** Candidates never step over a number that 2 and 3 do not divide. */
  lemma Onward(num: nat, i: nat)
    requires num % 2 != 0 && num % 3 != 0 && i % 6 == 5 && i <= num && num != i && num != i + 2
    ensures i + 6 <= num
  {
  }

  lemma SquareAbove(num: nat, i: nat, word: nat)
    requires word > 0 && SquareMod(i, word) > num
    ensures i * i > num
  {
    if i * i < word { RemainderUnique(i * i, word, 0, i * i); }
  }

  // ----- there is always a next prime

  function Factorial(n: nat): (f: nat)
    ensures f >= 1
  {
    if n == 0 then 1 else n * Factorial(n - 1)
  }

  lemma {:induction false} FactorialDivisible(n: nat, d: nat)
    requires 1 <= d <= n
    ensures Divides(d, Factorial(n))
  {
    if d == n {
      MultipleDivides(n, Factorial(n - 1));
    } else {
      FactorialDivisible(n - 1, d);
      var k := Quotient(d, Factorial(n - 1));
      assert Factorial(n) == d * (n * k);
      MultipleDivides(d, n * k);
    }
  }

  lemma {:induction false} PrimeDivisor(n: nat) returns (p: nat)
    requires n >= 2
    ensures Prime(p) && Divides(p, n) && p <= n
    decreases n
  {
    if Prime(n) {
      p := n;
    } else {
      var d :| 2 <= d < n && Divides(d, n);
      p := PrimeDivisor(d);
      DividesTransitive(p, d, n);
    }
  }

  /** Euclid: a prime divisor of n! + 1 exceeds n. */
  lemma PrimeBeyond(n: nat) returns (p: nat)
    ensures Prime(p) && p > n
  {
    p := PrimeDivisor(Factorial(n) + 1);
    if p <= n {
      FactorialDivisible(n, p);
      DividesSuccessor(p, Factorial(n));
      assert false;
    }
  }

  /** What IsPrime accepts. */
  ghost predicate Accepted(q: nat, word: nat)
    requires word > 0
  {
    Prime(q) && LoopEnds(q, word)
  }

  /** A prime from `num` on whose test is free of wrap-around. */
  ghost predicate PrimeInReach(num: nat, word: nat) {
    exists p :: num <= p < word && Prime(p) && WrapFree(p, word)
  }

  /** Since primes do not end, for every argument all words wide enough have a prime in reach. */
  lemma WideEnough(num: nat) returns (limit: nat)
    ensures forall word :: word > limit ==> PrimeInReach(num, word)
  {
    var p := PrimeBeyond(num);
    var c := 6 * p + 5;
    limit := c * c;
    MulMonotone(1, c, c, c);
    forall word | word > limit ensures PrimeInReach(num, word) {
      assert c % 6 == 5 && Between(p, c * c, word);
      assert WrapFree(p, word);
    }
  }

  /** The search always ends, at the first number from `num` on that IsPrime accepts; if
      there is none up to the largest word it starts again at zero and meets 2. With a
      prime in reach that is the least prime not below `num`, and above it exactly if
      `num` is not prime. */
  method GetNextPrime(num: nat, word: nat) returns (prime: nat)
    requires num < word && 3 <= word
    ensures Prime(prime) && prime < word && Accepted(prime, word)
    ensures if exists q :: num <= q < word && Accepted(q, word) then prime >= num && forall q :: num <= q < prime ==> !Accepted(q, word)
            else prime == 2
    ensures PrimeInReach(num, word) ==> prime >= num && forall q :: num <= q < prime ==> !Prime(q)
    ensures prime > num <==> !Accepted(num, word) && exists q :: num <= q < word && Accepted(q, word)
    ensures PrimeInReach(num, word) ==> (prime > num <==> !Prime(num))
  {
    prime := num;
    ghost var wrapped := false;
    var r := IsPrime(prime, word);
    while !r
      invariant prime < word && (r <==> Accepted(prime, word))
      invariant if wrapped then prime <= 2 else prime >= num
      invariant forall q :: num <= q < (if wrapped then word else prime) ==> !Accepted(q, word)
      decreases !wrapped, word - prime
    {
      assert prime != 2;
      wrapped := wrapped || prime + 1 == word;
      prime := if prime + 1 == word then 0 else prime + 1;
      r := IsPrime(prime, word);
    }
    if PrimeInReach(num, word) { FirstAccepted(num, prime, if wrapped then word else prime, word); }
  }

  lemma FirstAccepted(num: nat, prime: nat, end: nat, word: nat)
    requires PrimeInReach(num, word) && num < word && prime <= end && (end == word || end == prime)
    requires forall q :: num <= q < end ==> !Accepted(q, word)
    ensures end == prime && forall q :: num <= q < prime ==> !Prime(q)
  {
    var p :| num <= p < word && Prime(p) && WrapFree(p, word);
    assert Accepted(p, word) by { WrapFreeEnds(p, word); }
    forall q | num <= q < prime ensures !Prime(q) {
      if Prime(q) {
        assert Accepted(q, word) by { WrapFreeBelow(q, p, word); WrapFreeEnds(q, word); }
      }
    }
  }

  lemma WrapFreeBelow(q: nat, p: nat, word: nat)
    requires q <= p && WrapFree(p, word)
    ensures WrapFree(q, word)
  {
    var c: nat :| c % 6 == 5 && Between(p, c * c, word);
    assert Between(q, c * c, word);
  }

  /** The capacity the server asks for: 101 is the next prime after 100. Asked for 101,
      the search stays there. */
  lemma NextAfterHundred()
    ensures Prime(101) && !Prime(100) && PrimeInReach(100, SIZE_MODULUS) && PrimeInReach(101, SIZE_MODULUS)
  {
    assert Divides(2, 100);
    assert NoDivisorBelow(101, 11);
    TrialDivisionSuffices(101, 11);
    WrapFree64(101);
  }
}
