/** Integer facts shared by the modules below: powers, division with remainder, and products. */
module Arithmetic {
  const U32: nat := 0x1_0000_0000
  const U64: nat := 0x1_0000_0000_0000_0000

  function Pow(base: nat, n: nat): (p: nat)
    ensures base > 0 ==> p > 0
  {
    if n == 0 then 1 else base * Pow(base, n - 1)
  }

  function Pow2(n: nat): (p: nat)
    ensures p > 0
  {
    Pow(2, n)
  }

  lemma MulAssoc(a: int, b: int, c: int)
    ensures a * (b * c) == (a * b) * c
  {
  }

  lemma {:induction false} PowAdd(base: nat, m: nat, n: nat)
    ensures Pow(base, m + n) == Pow(base, m) * Pow(base, n)
  {
    if m > 0 {
      PowAdd(base, m - 1, n);
      MulAssoc(base, Pow(base, m - 1), Pow(base, n));
    }
  }

  lemma {:induction false} PowOfPow(base: nat, w: nat, n: nat)
    ensures w * n >= 0 && Pow(Pow(base, w), n) == Pow(base, w * n)
  {
    if n == 0 {
      assert w * n == 0;
    } else {
      PowOfPow(base, w, n - 1);
      PowAdd(base, w, w * (n - 1));
      assert w * n == w + w * (n - 1);
    }
  }

  lemma PowSquare(base: nat, n: nat, p: nat)
    requires Pow(base, n) == p
    ensures Pow(base, 2 * n) == p * p
  {
    PowAdd(base, n, n);
  }

  lemma Pow2Words()
    ensures Pow2(16) == 65536 && Pow2(32) == U32 && Pow2(64) == U64
  {
    assert Pow(2, 8) == 256;
    PowSquare(2, 8, 256);
    PowSquare(2, 16, 65536);
    PowSquare(2, 32, U32);
  }

  lemma MulMono(a: int, b: int, c: nat)
    requires a <= b
    ensures a * c <= b * c
  {
  }

  lemma Euclid(x: int, m: int)
    requires m > 0
    ensures x == (x / m) * m + x % m
  {
  }

  lemma MulDifference(a: int, b: int, c: int)
    ensures a * c - b * c == (a - b) * c
  {
  }

  /** Quotient and remainder are determined by their defining equation. */
  lemma DivModUnique(x: int, q: int, r: int, m: int)
    requires m > 0 && 0 <= r < m && x == q * m + r
    ensures x / m == q && x % m == r
  {
    var d := x / m - q;
    Euclid(x, m);
    MulDifference(x / m, q, m);
    if d >= 1 {
      MulMono(1, d, m);
      assert false;
    }
    if d <= -1 {
      MulMono(d, -1, m);
      assert false;
    }
  }

  lemma ModAddMultiple(x: int, k: int, m: int)
    requires m > 0
    ensures (x + k * m) % m == x % m
  {
    Euclid(x, m);
    MulDifference(x / m, -k, m);
    assert -k * m == -(k * m);
    DivModUnique(x + k * m, x / m + k, x % m, m);
  }

  /** Remainders agree exactly when the difference is a multiple. */
  lemma ModDifference(x: int, y: int, k: int, m: int)
    requires m > 0 && x == y + k * m
    ensures x % m == y % m
  {
    ModAddMultiple(y, k, m);
  }

  lemma Distribute(q: int, m: int, r: int, y: int)
    ensures (q * m + r) * y == r * y + (q * y) * m
  {
    assert (q * m + r) * y == q * m * y + r * y;
    assert q * m * y == (q * y) * m;
  }

  /** Congruent numbers have congruent multiples. */
  lemma ModMul(x: int, y: int, m: int)
    requires m > 0
    ensures ((x % m) * y) % m == (x * y) % m
  {
    Distribute(x / m, m, x % m, y);
    Euclid(x, m);
    ModAddMultiple((x % m) * y, (x / m) * y, m);
  }

  lemma ModMod(x: int, m: int, k: int)
    requires m > 0 && k > 0
    ensures (x % (k * m)) % m == x % m
  {
    var q := x / (k * m);
    Euclid(x, k * m);
    MulAssoc(q, k, m);
    ModAddMultiple(x % (k * m), q * k, m);
  }

  /** Equal remainders stay equal when the same number is subtracted. */
  lemma ModShift(x: int, y: int, d: int, m: int)
    requires m > 0 && x % m == y % m
    ensures (x - d) % m == (y - d) % m
  {
    Euclid(x, m);
    Euclid(y, m);
    MulDifference(x / m, y / m, m);
    ModAddMultiple(y - d, x / m - y / m, m);
  }

  lemma QuotientBound(n: nat, q: nat, m: nat)
    requires m > 0 && n < q * m
    ensures n / m < q
  {
    Euclid(n, m);
    if n / m >= q {
      MulMono(q, n / m, m);
      assert false;
    }
  }
}
