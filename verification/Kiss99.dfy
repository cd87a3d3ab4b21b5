/** The generator KISS99 and the hash FNV-1a on 32-bit words. */
module Kiss99 {
  import opened Arithmetic
  import opened Words

  type Word32 = x: nat | x < U32

  function Xor32(a: Word32, b: Word32): Word32 {
    Pow2Words();
    XorBound(a, b, 32);
    Xor(a, b)
  }

  function ShiftLeft(x: Word32, n: nat): Word32 {
    (x * Pow2(n)) % U32
  }

  lemma QuotientShrinks(x: nat, m: nat)
    requires m > 0
    ensures 0 <= x / m <= x
  {
    Euclid(x, m);
    if x / m > x {
      MulMono(1, m, x / m);
      assert false;
    }
  }

  function ShiftRight(x: Word32, n: nat): Word32 {
    QuotientShrinks(x, Pow2(n));
    x / Pow2(n)
  }

  datatype State = State(z: Word32, w: Word32, jsr: Word32, jcong: Word32)

  lemma CarryFits(x: Word32, factor: nat)
    requires factor < 0x10000
    ensures factor * (x % 0x10000) + x / 0x10000 < U32
  {
    MulMono(factor, 0xffff, x % 0x10000);
  }

  /** Multiply with carry on 16-bit digits: the sum always fits a word. */
  function MultiplyWithCarry(x: Word32, factor: nat): (y: Word32)
    requires factor < 0x10000
  {
    CarryFits(x, factor);
    factor * (x % 0x10000) + x / 0x10000
  }

  lemma NeverWraps(x: Word32, factor: nat)
    requires factor < 0x10000
    ensures (factor * (x % 0x10000) + x / 0x10000) % U32 == MultiplyWithCarry(x, factor)
  {
    CarryFits(x, factor);
  }

  /** Three shifts: 17 to the left, 13 to the right, 5 to the left. */
  function XorShift(x: Word32): Word32 {
    var x := Xor32(x, ShiftLeft(x, 17));
    var x := Xor32(x, ShiftRight(x, 13));
    Xor32(x, ShiftLeft(x, 5))
  }

  function Step(s: State): State {
    State(MultiplyWithCarry(s.z, 36969), MultiplyWithCarry(s.w, 18000), XorShift(s.jsr),
          (69069 * s.jcong + 1234567) % U32)
  }

  function Output(s: State): Word32 {
    (Xor32((ShiftLeft(s.z, 16) + s.w) % U32, s.jcong) + s.jsr) % U32
  }

  /** The next state and the number drawn. */
  function Next(s: State): (State, Word32) {
    (Step(s), Output(Step(s)))
  }

  class Generator {
    var z: Word32
    var w: Word32
    var jsr: Word32
    var jcong: Word32

    function Current(): State
      reads this
    {
      State(z, w, jsr, jcong)
    }

    constructor (s: State)
      ensures Current() == s
    {
      z, w, jsr, jcong := s.z, s.w, s.jsr, s.jcong;
    }

    method Draw() returns (r: Word32)
      modifies this
      ensures (Current(), r) == Next(old(Current()))
    {
      hide Xor32, ShiftLeft, ShiftRight, MultiplyWithCarry;
      NeverWraps(z, 36969);
      NeverWraps(w, 18000);
      z := (36969 * (z % 0x10000) + z / 0x10000) % U32;
      w := (18000 * (w % 0x10000) + w / 0x10000) % U32;
      var mwc := (ShiftLeft(z, 16) + w) % U32;
      jsr := Xor32(jsr, ShiftLeft(jsr, 17));
      jsr := Xor32(jsr, ShiftRight(jsr, 13));
      jsr := Xor32(jsr, ShiftLeft(jsr, 5));
      jcong := (69069 * jcong + 1234567) % U32;
      r := (Xor32(mwc, jcong) + jsr) % U32;
    }
  }

  const FNV_PRIME: nat := 0x01000193
  const FNV_OFFSET: nat := 0x811c9dc5

  function Fnv1a(u: Word32, v: Word32): Word32 {
    (Xor32(u, v) * FNV_PRIME) % U32
  }

  lemma XorUndone(u: Word32, v: Word32)
    ensures Xor32(Xor32(u, v), u) == v
  {
    XorCommutes(u, v);
    XorCancel(v, u);
  }

  /** The prime has an inverse modulo 2^32: a hash and its first operand determine the second. */
  lemma Fnv1aUndone(u: Word32, v: Word32)
    ensures Xor32((Fnv1a(u, v) * 0x359c449b) % U32, u) == v
  {
    hide Xor, Xor32;
    var x := Xor32(u, v);
    ModMul(x * FNV_PRIME, 0x359c449b, U32);
    MulAssoc(x, FNV_PRIME, 0x359c449b);
    ModDifference(x * (FNV_PRIME * 0x359c449b), x, x * 0x359c99, U32);
    XorUndone(u, v);
  }

  /** Hashing is symmetric in its operands. */
  lemma Fnv1aCommutes(u: Word32, v: Word32)
    ensures Fnv1a(u, v) == Fnv1a(v, u)
  {
    XorCommutes(u, v);
  }

  /** The generator of a period: its four words are hashes of the period's halves, each chained to the one before. */
  function Seeded(period: Word): State {
    var low, high := period % U32, period / U32;
    var z := Fnv1a(FNV_OFFSET, low);
    var w := Fnv1a(z, high);
    var jsr := Fnv1a(w, low);
    State(z, w, jsr, Fnv1a(jsr, high))
  }

  /** Undoing the hashes gives the halves of the period: the low one from z and jsr, the high one from w and jcong. */
  lemma SeedDeterminesPeriod(period: Word)
    ensures var s := Seeded(period);
            && Xor32((s.z * 0x359c449b) % U32, 0x811c9dc5) == period % 0x1_0000_0000
            && Xor32((s.w * 0x359c449b) % U32, s.z) == period / 0x1_0000_0000
            && Xor32((s.jsr * 0x359c449b) % U32, s.w) == period % 0x1_0000_0000
            && Xor32((s.jcong * 0x359c449b) % U32, s.jsr) == period / 0x1_0000_0000
  {
    hide Xor32, Fnv1a;
    var s, low, high := Seeded(period), period % U32, period / U32;
    Fnv1aUndone(FNV_OFFSET, low);
    Fnv1aUndone(s.z, high);
    Fnv1aUndone(s.w, low);
    Fnv1aUndone(s.jsr, high);
  }
}
