/**
 Unsigned integers and the bitwise operators of the sources that compute on plain integers
 behind a mask (Python) or need the numeric value of a word.
 */
module Words {
  import opened Arithmetic

  type Word = x: nat | x < U64
  type Byte = x: nat | x < 256

  /** Four words mixed together. */
  datatype Quad = Quad(a: Word, b: Word, c: Word, d: Word)

  /** Bitwise exclusive or of two non-negative integers. */
  function Xor(a: nat, b: nat): nat
    decreases a + b
  {
    if a == 0 && b == 0 then 0 else (a % 2 + b % 2) % 2 + 2 * Xor(a / 2, b / 2)
  }

  /** Bitwise or of two non-negative integers. */
  function Or(a: nat, b: nat): nat
    decreases a + b
  {
    if a == 0 && b == 0 then 0
    else (if a % 2 == 1 || b % 2 == 1 then 1 else 0) + 2 * Or(a / 2, b / 2)
  }

  lemma {:induction false} XorBound(a: nat, b: nat, n: nat)
    requires a < Pow2(n) && b < Pow2(n)
    ensures Xor(a, b) < Pow2(n)
  {
    if n > 0 {
      XorBound(a / 2, b / 2, n - 1);
    }
  }

  lemma XorBits(a: nat, b: nat)
    ensures Xor(a, b) / 2 == Xor(a / 2, b / 2)
    ensures Xor(a, b) % 2 == (a % 2 + b % 2) % 2
  {
    DivModUnique(Xor(a, b), Xor(a / 2, b / 2), (a % 2 + b % 2) % 2, 2);
  }

  lemma BitParity(p: nat, q: nat)
    requires p < 2 && q < 2
    ensures ((p + q) % 2 + q) % 2 == p
  {
  }

  lemma SameHalves(x: nat, y: nat)
    requires x / 2 == y / 2 && x % 2 == y % 2
    ensures x == y
  {
  }

  lemma LowBitCancels(a: nat, b: nat)
    ensures Xor(Xor(a, b), b) % 2 == a % 2
  {
    hide Xor;
    XorBits(a, b);
    XorBits(Xor(a, b), b);
    BitParity(a % 2, b % 2);
  }

  /** Xor with the same operand twice is the identity. */
  lemma {:induction false} XorCancel(a: nat, b: nat)
    ensures Xor(Xor(a, b), b) == a
    decreases a + b
  {
    if a == 0 && b == 0 {
    } else {
      hide Xor;
      var x := Xor(a, b);
      XorCancel(a / 2, b / 2);
      XorBits(a, b);
      XorBits(x, b);
      LowBitCancels(a, b);
      SameHalves(Xor(x, b), a);
    }
  }

  lemma {:induction false} XorCommutes(a: nat, b: nat)
    ensures Xor(a, b) == Xor(b, a)
    decreases a + b
  {
    if a == 0 && b == 0 {
    } else {
      XorCommutes(a / 2, b / 2);
    }
  }

  lemma {:induction false} OrZero(b: nat)
    ensures Or(0, b) == b
  {
    if b > 0 {
      OrZero(b / 2);
    }
  }

  /** Or of numbers without a common bit is their sum. */
  lemma {:induction false} OrIsSum(a: nat, b: nat, n: nat)
    requires a < Pow2(n)
    ensures Or(a, b * Pow2(n)) == a + b * Pow2(n)
    decreases n, b
  {
    if n == 0 {
      OrZero(b);
    } else {
      assert b * Pow2(n) == 2 * (b * Pow2(n - 1));
      DivModUnique(b * Pow2(n), b * Pow2(n - 1), 0, 2);
      OrIsSum(a / 2, b, n - 1);
    }
  }

  lemma {:induction false} OrCommutes(a: nat, b: nat)
    ensures Or(a, b) == Or(b, a)
    decreases a + b
  {
    if a > 0 || b > 0 {
      OrCommutes(a / 2, b / 2);
    }
  }

  function XorWord(a: Word, b: Word): Word {
    Pow2Words();
    XorBound(a, b, 64);
    Xor(a, b)
  }

  lemma XorWordCancels(a: Word, b: Word)
    ensures XorWord(XorWord(a, b), b) == a
  {
    XorCancel(a, b);
  }

  /** The 64-bit right rotation as written in the Python sources: shift, shift, or, mask. */
  function Rotr64(x: Word, n: nat): Word
    requires 0 < n < 64
  {
    Or(x / Pow2(n), x * Pow2(64 - n)) % U64
  }

  /** Multiplying by q modulo p * q keeps the low part and puts it on top. */
  lemma ShiftSplit(x: Word, hi: nat, lo: nat, p: nat, q: nat)
    requires lo < p && p * q == U64 && x == hi * p + lo
    ensures hi < q
    ensures (hi + x * q) % U64 == hi + lo * q
  {
    if hi >= q {
      MulMono(q, hi, p);
      assert false;
    }
    Distribute(hi, p, lo, q);
    MulAssoc(hi, q, p);
    assert q * p == p * q;
    MulMono(lo + 1, p, q);
    MulDifference(lo, -1, q);
    DivModUnique(hi + x * q, hi, hi + lo * q, U64);
  }

  /** The low n bits move to the top, the others down. */
  lemma RotrMovesBits(x: Word, n: nat)
    requires 0 < n < 64
    ensures x / Pow2(n) < Pow2(64 - n)
    ensures Rotr64(x, n) == x / Pow2(n) + (x % Pow2(n)) * Pow2(64 - n)
  {
    var p, q := Pow2(n), Pow2(64 - n);
    assert p * q == U64 by {
      Pow2Words();
      PowAdd(2, n, 64 - n);
    }
    hide Or, Pow;
    Euclid(x, p);
    ShiftSplit(x, x / p, x % p, p, q);
    OrIsSum(x / p, x, 64 - n);
  }

  lemma SwapHalves(x: nat, y: nat, p: nat, q: nat)
    requires p > 0 && q > 0 && x / p < q && y == x / p + (x % p) * q
    ensures y / q + (y % q) * p == x
  {
    DivModUnique(y, x % p, x / p, q);
  }

  /** Rotating by n and then by 64 - n gives the word back. */
  lemma RotrInverse(x: Word, n: nat)
    requires 0 < n < 64
    ensures Rotr64(Rotr64(x, n), 64 - n) == x
  {
    var y, m := Rotr64(x, n), 64 - n;
    RotrMovesBits(x, n);
    RotrMovesBits(y, m);
    assert 64 - m == n;
    SwapHalves(x, y, Pow2(n), Pow2(m));
  }

  // ----- Algebra of the exclusive or -----------------------------------------------------------------

  lemma {:induction false} XorZero(a: nat)
    ensures Xor(a, 0) == a
  {
    if a > 0 {
      XorZero(a / 2);
    }
  }

  lemma BitsAssociate(p: nat, q: nat, r: nat)
    requires p < 2 && q < 2 && r < 2
    ensures ((p + q) % 2 + r) % 2 == (p + (q + r) % 2) % 2
  {
  }

  lemma LowBits(a: nat, b: nat, c: nat)
    ensures Xor(Xor(a, b), c) % 2 == Xor(a, Xor(b, c)) % 2
  {
    hide Xor;
    XorBits(a, b);
    XorBits(b, c);
    XorBits(Xor(a, b), c);
    XorBits(a, Xor(b, c));
    BitsAssociate(a % 2, b % 2, c % 2);
  }

  lemma {:induction false} XorAssociates(a: nat, b: nat, c: nat)
    ensures Xor(Xor(a, b), c) == Xor(a, Xor(b, c))
    decreases a + b + c
  {
    if a == 0 && b == 0 && c == 0 {
      assert Xor(0, 0) == 0;
    } else {
      hide Xor;
      XorAssociates(a / 2, b / 2, c / 2);
      XorBits(a, b);
      XorBits(b, c);
      XorBits(Xor(a, b), c);
      XorBits(a, Xor(b, c));
      LowBits(a, b, c);
      SameHalves(Xor(Xor(a, b), c), Xor(a, Xor(b, c)));
    }
  }

  lemma Doubled(b: nat, n: nat)
    requires n > 0
    ensures Pow2(n) == 2 * Pow2(n - 1) && b * Pow2(n) == 2 * (b * Pow2(n - 1))
  {
  }

  lemma Doubles(a: nat, c: nat, x: nat)
    requires x / 2 == a / 2 + c && x % 2 == (a % 2 + (2 * c) % 2) % 2
    ensures x == a + 2 * c
  {
  }

  /** Exclusive or of numbers without a common bit is their sum. */
  lemma {:induction false} XorIsSum(a: nat, b: nat, n: nat)
    requires a < Pow2(n)
    ensures Xor(a, b * Pow2(n)) == a + b * Pow2(n)
    decreases n
  {
    if n == 0 {
      XorZero(b);
      XorCommutes(0, b);
    } else {
      hide Xor, Pow2;
      var c := b * Pow2(n - 1);
      Doubled(b, n);
      XorIsSum(a / 2, b, n - 1);
      XorBits(a, 2 * c);
      DivModUnique(2 * c, c, 0, 2);
      Doubles(a, c, Xor(a, 2 * c));
    }
  }

  lemma XorOnesBits(a: nat, p: nat)
    requires p > 0
    ensures Xor(a, 2 * p - 1) / 2 == Xor(a / 2, p - 1)
    ensures Xor(a, 2 * p - 1) % 2 == (a % 2 + 1) % 2
  {
    hide Xor;
    XorBits(a, 2 * p - 1);
    DivModUnique(2 * p - 1, p - 1, 1, 2);
  }

  lemma ComplementHalves(a: nat, p: nat, x: nat)
    requires p > 0 && x / 2 == p - 1 - a / 2 && x % 2 == (a % 2 + 1) % 2
    ensures x == 2 * p - 1 - a
  {
  }

  /** Exclusive or with n ones is the complement on n bits. */
  lemma {:induction false} XorOnes(a: nat, n: nat)
    requires a < Pow2(n)
    ensures Xor(a, Pow2(n) - 1) == Pow2(n) - 1 - a
  {
    if n == 0 {
      XorZero(a);
      assert Pow2(0) == 1;
    } else {
      hide Xor, Pow2;
      var p := Pow2(n - 1);
      Doubled(0, n);
      XorOnes(a / 2, n - 1);
      XorOnesBits(a, p);
      ComplementHalves(a, p, Xor(a, 2 * p - 1));
    }
  }

  // ----- Single bits ---------------------------------------------------------------------------------

  /** Binary digit i, from the least significant. */
  predicate BitAt(x: nat, i: nat) {
    (x / Pow2(i)) % 2 == 1
  }

  lemma DoubleMultiple(q: int, p: int)
    ensures q * (2 * p) == 2 * (q * p)
  {
  }

  lemma HalfThenQuotient(x: nat, p: nat)
    requires p > 0
    ensures x / (2 * p) == x / 2 / p
  {
    var q, r := x / 2 / p, x / 2 % p;
    Euclid(x / 2, p);
    MulAssoc(2, q, p);
    DoubleMultiple(q, p);
    DivModUnique(x, q, 2 * r + x % 2, 2 * p);
  }

  lemma LowestBit(x: nat)
    ensures BitAt(x, 0) == (x % 2 == 1)
  {
    assert Pow2(0) == 1;
  }

  lemma NextBit(x: nat, i: nat)
    requires i > 0
    ensures BitAt(x, i) == BitAt(x / 2, i - 1)
  {
    assert Pow2(i) == 2 * Pow2(i - 1);
    hide Pow2;
    HalfThenQuotient(x, Pow2(i - 1));
  }

  /** Exclusive or, bit by bit. */
  lemma {:induction false} XorAt(a: nat, b: nat, i: nat)
    ensures BitAt(Xor(a, b), i) == (BitAt(a, i) != BitAt(b, i))
    decreases i
  {
    hide BitAt, Xor;
    XorBits(a, b);
    if i == 0 {
      LowestBit(a);
      LowestBit(b);
      LowestBit(Xor(a, b));
    } else {
      NextBit(a, i);
      NextBit(b, i);
      NextBit(Xor(a, b), i);
      XorAt(a / 2, b / 2, i - 1);
    }
  }

  lemma OrBits(a: nat, b: nat)
    ensures Or(a, b) / 2 == Or(a / 2, b / 2)
    ensures Or(a, b) % 2 == if a % 2 == 1 || b % 2 == 1 then 1 else 0
  {
    DivModUnique(Or(a, b), Or(a / 2, b / 2), if a % 2 == 1 || b % 2 == 1 then 1 else 0, 2);
  }

  /** Or, bit by bit. */
  lemma {:induction false} OrAt(a: nat, b: nat, i: nat)
    ensures BitAt(Or(a, b), i) == (BitAt(a, i) || BitAt(b, i))
    decreases i
  {
    hide BitAt, Or;
    OrBits(a, b);
    if i == 0 {
      LowestBit(a);
      LowestBit(b);
      LowestBit(Or(a, b));
    } else {
      NextBit(a, i);
      NextBit(b, i);
      NextBit(Or(a, b), i);
      OrAt(a / 2, b / 2, i - 1);
    }
  }

  // ----- Hexadecimal digits --------------------------------------------------------------------------

  /** The character code of an upper-case hexadecimal digit. */
  function HexCode(d: nat): (c: Byte)
    requires d < 16
  {
    if d <= 9 then d + '0' as int else d + 'A' as int - 0xA
  }

  /** The digits in order, as they are written. */
  lemma HexCodeTable(d: nat)
    requires d < 16
    ensures HexCode(d) == "0123456789ABCDEF"[d] as int
  {
  }

  /** The value that the parsers give to a character code. */
  function Nibble(c: nat): (d: nat)
    ensures d < 16
  {
    (if c >= 'A' as int then c - 'A' as int + 0xA else c - '0' as int) % 16
  }

  lemma NibbleOfHexCode(d: nat)
    requires d < 16
    ensures Nibble(HexCode(d)) == d
  {
  }
}
