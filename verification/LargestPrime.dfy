/** The largest prime below a bound, by odd trial division with unsigned 64-bit squares. */
module LargestPrime {
  import opened Arithmetic

  ghost predicate IsPrime(n: nat) {
    n >= 2 && forall d | 2 <= d < n :: n % d != 0
  }

  lemma FactorBounds(a: nat, b: nat)
    requires a > 1 && b > 1
    ensures 2 <= a < a * b && (a * b) % a == 0
  {
    MulMono(2, b, a);
    assert b * a == a * b;
    DivModUnique(a * b, b, 0, a);
  }

  lemma CofactorBounds(n: nat, a: nat)
    requires 2 <= a < n && n % a == 0
    ensures n / a > 1 && a * (n / a) == n
  {
    Euclid(n, a);
    if n / a <= 1 {
      MulMono(n / a, 1, a);
      assert false;
    }
    assert (n / a) * a == a * (n / a);
  }

  /** The primes are the numbers above 1 that are no product of two numbers above 1. */
  lemma PrimesAreIrreducible(n: nat)
    ensures IsPrime(n) <==> n > 1 && forall a: nat, b: nat | a > 1 && b > 1 :: a * b != n
  {
    forall a: nat, b: nat | a > 1 && b > 1 && a * b == n
      ensures !IsPrime(n)
    {
      FactorBounds(a, b);
    }
    if n > 1 && !IsPrime(n) {
      var d :| 2 <= d < n && n % d == 0;
      CofactorBounds(n, d);
    }
  }

  /** No odd divisor from 3 up to below d. */
  ghost predicate NoOddDivisorBelow(n: nat, d: nat) {
    forall e | 3 <= e < d && e % 2 == 1 :: n % e != 0
  }

  lemma ParityOfProduct(f: nat, e: nat)
    ensures (f * e) % 2 == (f % 2) * (e % 2)
  {
    var i, j := f / 2, e / 2;
    Distribute(i, 2, f % 2, e);
    Distribute(j, 2, e % 2, f % 2);
    assert (f % 2) * e == (j * 2 + e % 2) * (f % 2);
    ModDifference(f * e, (f % 2) * (e % 2), i * e + j * (f % 2), 2);
    DivModUnique((f % 2) * (e % 2), 0, (f % 2) * (e % 2), 2);
  }

  lemma ProductAtLeast(e: nat, f: nat, d: nat)
    requires e >= d && f >= d
    ensures f * e >= d * d
  {
    MulMono(d, e, d);
    MulMono(d, f, e);
    assert d * e == e * d;
  }

  /** An odd composite number has an odd factor below any d whose square exceeds it. */
  lemma SmallFactor(n: nat, e: nat, d: nat) returns (k: nat)
    requires n % 2 == 1 && 2 <= e < n && n % e == 0 && d * d > n
    ensures 3 <= k < d && k % 2 == 1 && n % k == 0
  {
    var f := n / e;
    Euclid(n, e);
    ParityOfProduct(f, e);
    assert f % 2 == 1 && e % 2 == 1;
    DivModUnique(n, e, 0, f) by { assert n == e * f; }
    k := if e < d then e else f;
    if e >= d && f >= d {
      ProductAtLeast(e, f, d);
      assert false;
    }
  }

  /** Trial division up to the square root decides the primality of an odd number. */
  lemma TrialDivision(n: nat, d: nat)
    requires n >= 3 && n % 2 == 1 && d * d > n && NoOddDivisorBelow(n, d)
    ensures IsPrime(n)
  {
    forall e | 2 <= e < n
      ensures n % e != 0
    {
      if n % e == 0 {
        var k := SmallFactor(n, e, d);
        assert false;
      }
    }
  }

  // ----- Wrapped squares -------------------------------------------------------------------------

  /** The largest odd word whose square fits 64 bits. */
  const LAST_EXACT: nat := 0xFFFF_FFFF
  /** A square root of -7 modulo 2^64: here at the latest a wrapped square exceeds the number. */
  const ROOT: nat := 0x19B4_BB63_9C98_C0B5

  lemma RootSquared()
    ensures (ROOT * ROOT) % U64 == U64 - 7
  {
  }

  /** The four odd words above -7 are divisible by 3, 11 or 13. */
  lemma TopWordsComposite(n: nat)
    requires U64 - 7 <= n < U64 && n % 2 == 1
    ensures n % 3 == 0 || n % 11 == 0 || n % 13 == 0
  {
    assert n in [U64 - 7, U64 - 5, U64 - 3, U64 - 1];
    assert (U64 - 7) % 3 == 0 && (U64 - 5) % 11 == 0 && (U64 - 3) % 13 == 0 && (U64 - 1) % 3 == 0;
  }

  /** No run of the trial division goes beyond this divisor. */
  function LastDivisor(n: nat): (d: nat)
    ensures d >= 13
  {
    if n < LAST_EXACT * LAST_EXACT then LAST_EXACT else if n < U64 - 7 then ROOT else 13
  }

  /** The square as the unsigned 64-bit product. */
  function Square64(d: nat): nat {
    (d * d) % U64
  }

  lemma ExactSquare(d: nat)
    requires d <= LAST_EXACT
    ensures Square64(d) == d * d <= LAST_EXACT * LAST_EXACT
  {
    MulMono(d, LAST_EXACT, d);
    MulMono(d, LAST_EXACT, LAST_EXACT);
    DivModUnique(d * d, 0, d * d, U64);
  }

  /** When neither the guard nor the division ends the loop, the divisor is still below the last one. */
  lemma LoopGoesOn(n: nat, d: nat)
    requires 3 <= n < U64 && n % 2 == 1 && 3 <= d <= LastDivisor(n) && d % 2 == 1
    requires Square64(d) <= n && NoOddDivisorBelow(n, d)
    ensures d < n && (n % d != 0 ==> d + 2 <= LastDivisor(n))
  {
    if n >= U64 - 7 {
      TopWordsComposite(n);
    }
    if d <= LAST_EXACT {
      ExactSquare(d);
      MulMono(3, d, d);
    } else {
      RootSquared();
    }
  }

  /** When the guard ends the loop, the true square exceeds the number, wrapped or not. */
  lemma LoopEnds(n: nat, d: nat)
    requires n < U64 && n < Square64(d) && d % 2 == 1
    ensures d * d > n
  {
    if d <= LAST_EXACT {
      ExactSquare(d);
    } else {
      MulMono(0x1_0000_0001, d, d);
      MulMono(0x1_0000_0001, d, 0x1_0000_0001);
    }
  }

  method IsOddPrime(number: nat) returns (r: bool)
    requires 3 <= number < U64 && number % 2 == 1
    ensures r <==> IsPrime(number)
  {
    hide LastDivisor, Square64;
    var d := 3;
    while Square64(d) <= number
      invariant 3 <= d <= LastDivisor(number) && d % 2 == 1 && NoOddDivisorBelow(number, d)
      decreases LastDivisor(number) - d
    {
      LoopGoesOn(number, d);
      if number % d == 0 {
        return false;
      }
      d := d + 2;
    }
    LoopEnds(number, d);
    TrialDivision(number, d);
    return true;
  }

  lemma SmallPrimes()
    ensures IsPrime(2) && IsPrime(3)
  {
  }

  lemma EvenNotPrime(n: nat)
    requires n > 2 && n % 2 == 0
    ensures !IsPrime(n)
  {
  }

  /** For every 64-bit number from 2 on, although squares of divisors wrap for the largest ones. */
  method Largest(number: nat) returns (p: nat)
    requires number < U64
    ensures number < 2 ==> p == 0
    ensures number >= 2 ==> IsPrime(p) && p <= number && forall q | p < q <= number :: !IsPrime(q)
  {
    SmallPrimes();
    hide IsPrime;
    if 2 > number {
      return 0;
    }
    if 2 == number {
      return 2;
    }
    p := number;
    if p % 2 == 0 {
      EvenNotPrime(p);
      p := p - 1;
    }
    var found := IsOddPrime(p);
    while !found
      invariant 3 <= p <= number && p % 2 == 1
      invariant forall q | p < q <= number :: !IsPrime(q)
      invariant found <==> IsPrime(p)
      decreases p, !found
    {
      EvenNotPrime(p - 1);
      p := p - 2;
      found := IsOddPrime(p);
    }
  }
}
