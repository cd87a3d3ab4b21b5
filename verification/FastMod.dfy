/** Remainder by a precomputed reciprocal with a correction loop, on unsigned 32-bit words. */
module FastMod {
  import opened Arithmetic

  datatype FastDivisor = FastDivisor(divisor: nat, magic: nat, shift: nat)

  /** The divisors for which the reciprocal is computed without shifting by the word size. */
  const MAX_DIVISOR: nat := 0x8000_0000

  /** The reciprocal keeps only its low 32 bits; it is rounded up, and 2^31 bounds the divisor. */
  ghost predicate IsReciprocal(f: FastDivisor) {
    && 1 <= f.divisor <= MAX_DIVISOR && f.magic < U32
    && (f.divisor == 1 ==> f.magic == 0 && f.shift == 0)
    && (f.divisor > 1 ==> f.shift == 31 && f.magic == ((Pow2(63) + f.divisor - 1) / f.divisor) % U32)
  }

  lemma Pow2Values()
    ensures Pow2(31) == MAX_DIVISOR && Pow2(32) == U32 && Pow2(63) == U64 / 2
  {
    Pow2Words();
    PowAdd(2, 1, 31);
    PowAdd(2, 1, 63);
    assert Pow(2, 1) == 2;
  }

  /**
   Above 2^31 the code shifts a 64-bit one by 64, which C++ leaves undefined; the power is then
   arbitrary and nothing is promised about the reciprocal.
   */
  method InitFastMod(d: nat) returns (out: FastDivisor)
    requires d < U32
    ensures out.divisor == d
    ensures d == 0 ==> out.magic == out.shift == 0
    ensures 1 <= d <= MAX_DIVISOR ==> IsReciprocal(out)
  {
    Pow2Values();
    hide Pow, Pow2;
    if 0 == d || 1 == d {
      return FastDivisor(d, 0, 0);
    }
    var p := 31;
    while Pow2(p) < d
      invariant 31 <= p <= 32 && (d <= MAX_DIVISOR ==> p == 31)
      decreases 32 - p
    {
      p := p + 1;
    }
    var power: nat := *;
    if p + 32 < 64 {
      power := Pow2(p + 32);
    }
    var m := ((power + d - 1) % U64) / d;
    out := FastDivisor(d, m % U32, p);
  }

  /** The quotient estimate: the product with the reciprocal, shifted down. */
  function Estimate(f: FastDivisor, value: nat): nat {
    ((value * f.magic) / Pow2(32 + f.shift)) % U32
  }

  lemma ProductBound(value: nat, magic: nat, bound: nat)
    requires value < bound && magic < U32
    ensures value * magic <= (bound - 1) * (U32 - 1)
  {
    MulMono(value, bound - 1, magic);
    MulMono(magic, U32 - 1, bound - 1);
    assert magic * (bound - 1) == (bound - 1) * magic;
  }

  /** Bit 63 of a product of two words is set only when the first factor has its top bit. */
  lemma TopBit(value: nat, magic: nat, mul: nat)
    requires value < U32 && magic < U32 && mul == value * magic
    ensures mul / (U64 / 2) <= if value < MAX_DIVISOR then 0 else 1
  {
    ProductBound(value, magic, U32);
    if value < MAX_DIVISOR {
      ProductBound(value, magic, MAX_DIVISOR);
    }
  }

  lemma SmallEstimate(f: FastDivisor, value: nat)
    requires 1 <= f.divisor <= MAX_DIVISOR && f.magic < U32 && value < U32
    requires f.divisor == 1 ==> f.magic == 0
    requires f.divisor > 1 ==> f.shift == 31
    ensures Estimate(f, value) <= if value < f.divisor || f.divisor == 1 then 0 else 1
    ensures Estimate(f, value) == if value * f.magic >= U64 / 2 then 1 else 0
    ensures value * f.magic < U64
  {
    Pow2Values();
    hide Pow;
    ProductBound(value, f.magic, U32);
    if f.divisor == 1 {
      assert value * 0 == 0;
      DivModUnique(0, 0, 0, Pow2(32 + f.shift));
    } else {
      TopBit(value, f.magic, value * f.magic);
    }
  }

  /** The estimate never exceeds the true quotient; having lost its high bits it is 0 or 1. */
  lemma EstimateTooLow(f: FastDivisor, value: nat)
    requires IsReciprocal(f) && value < U32
    ensures Estimate(f, value) * f.divisor <= value
    ensures Estimate(f, value) == if value * f.magic >= 0x8000_0000_0000_0000 then 1 else 0
    ensures value * f.magic < U64
  {
    SmallEstimate(f, value);
  }

  /** Subtracting a multiple that is not too large does not wrap and keeps the remainder. */
  lemma SameClass(value: nat, multiple: nat, q: nat, d: nat)
    requires multiple == q * d && multiple <= value < U32 && d > 0
    ensures ((value - multiple) % U32) % d == value % d
  {
    DivModUnique(value - multiple, 0, value - multiple, U32);
    ModAddMultiple(value - multiple, q, d);
  }

  /** The correction loop. */
  method SubtractDown(start: nat, d: nat) returns (r: nat)
    requires d > 0
    ensures r == start % d
  {
    r := start;
    while r >= d
      invariant r % d == start % d
    {
      r := r - d;
      ModAddMultiple(r, 1, d);
    }
    DivModUnique(r, 0, r, d);
  }

  method Mod(f: FastDivisor, value: nat) returns (r: nat)
    requires IsReciprocal(f) && value < U32
    ensures r == value % f.divisor
  {
    EstimateTooLow(f, value);
    var d, m, s := f.divisor, f.magic, f.shift;
    var mul := value * m;
    var q := (mul / Pow2(32 + s)) % U32;
    assert q == Estimate(f, value);
    hide IsReciprocal, Estimate;
    SameClass(value, q * d, q, d);
    r := SubtractDown((value - q * d) % U32, d);
  }

  /** Reciprocal and correction loop together compute the remainder. */
  method Remainder(d: nat, value: nat) returns (r: nat)
    requires 1 <= d <= MAX_DIVISOR && value < U32
    ensures r == value % d
  {
    var f := InitFastMod(d);
    r := Mod(f, value);
  }
}
