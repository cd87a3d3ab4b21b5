/**
 The kHeavyHash share target: a pool difficulty quantised to 16 fractional bits, a 256-bit by 32-bit
 long division, and the comparison of a hash with the target.
 */
module KHeavyTarget {
  import opened Arithmetic
  import opened LittleEndian
  import opened Words

  const MAX_TARGET: seq<nat> :=
    [0xFFFFFFFF, 0xFFFFFFFF, 0xFFFFFFFF, 0xFFFFFFFF, 0xFFFFFFFF, 0xFFFFFFFF, 0xFFFFFFFF, 0]

  /** 2^224 - 1 in units of 2^-16: the target of a quantised divisor of one. */
  const NUMERATOR: nat := 0xFFFFFFFF_FFFFFFFF_FFFFFFFF_FFFFFFFF_FFFFFFFF_FFFFFFFF_FFFFFFFF_0000

  lemma NumeratorMeaning()
    ensures NUMERATOR == (Pow2(224) - 1) * Pow2(16)
  {
    hide Pow;
    Pow2Words();
    PowSquare(2, 64, U64);
    PowAdd(2, 128, 64);
    PowAdd(2, 192, 32);
  }

  /** A limb shifted left by 16 with the top half of the limb below moved in. */
  function ShiftedLimb(limb: nat, below: nat): nat {
    Or((limb * 65536) % U32, below / 65536)
  }

  lemma ShiftedLimbValues()
    ensures ShiftedLimb(0xFFFFFFFF, 0) == 0xFFFF0000
    ensures ShiftedLimb(0xFFFFFFFF, 0xFFFFFFFF) == 0xFFFFFFFF
    ensures ShiftedLimb(0, 0xFFFFFFFF) == 0xFFFF
  {
    hide Or;
    Pow2Words();
    OrCommutes(0, 0xFFFF0000);
    OrZero(0xFFFF0000);
    OrCommutes(0xFFFF0000, 0xFFFF);
    OrIsSum(0xFFFF, 0xFFFF, 16);
    OrZero(0xFFFF);
  }

  lemma LiteralLimbs(num: seq<nat>)
    requires num == [0xFFFF0000, 0xFFFFFFFF, 0xFFFFFFFF, 0xFFFFFFFF, 0xFFFFFFFF, 0xFFFFFFFF, 0xFFFFFFFF, 0xFFFF]
    ensures Value(num, U32) == NUMERATOR
  {
    assert num[7..][1..] == [];
    assert Value(num[7..], U32) == 0xFFFF;
    assert Value(num[6..], U32) == 0xFFFF_FFFFFFFF by { assert num[6..][1..] == num[7..]; }
    assert Value(num[5..], U32) == 0xFFFF_FFFFFFFF_FFFFFFFF by { assert num[5..][1..] == num[6..]; }
    assert Value(num[4..], U32) == 0xFFFF_FFFFFFFF_FFFFFFFF_FFFFFFFF by { assert num[4..][1..] == num[5..]; }
    assert Value(num[3..], U32) == 0xFFFF_FFFFFFFF_FFFFFFFF_FFFFFFFF_FFFFFFFF by {
      assert num[3..][1..] == num[4..];
    }
    assert Value(num[2..], U32) == 0xFFFF_FFFFFFFF_FFFFFFFF_FFFFFFFF_FFFFFFFF_FFFFFFFF by {
      assert num[2..][1..] == num[3..];
    }
    assert num[1..][1..] == num[2..];
  }

  /** What the shift loop makes of the largest target. */
  function ShiftedLimbs(): (num: seq<nat>)
    ensures |num| == 8
  {
    seq(8, i requires 0 <= i < 8 => ShiftedLimb(MAX_TARGET[i], if i == 0 then 0 else MAX_TARGET[i - 1]))
  }

  /** The limbs the shift loop produces denote the numerator. */
  lemma NumeratorLimbs()
    ensures Digits(ShiftedLimbs(), U32) && Value(ShiftedLimbs(), U32) == NUMERATOR
  {
    ShiftedLimbValues();
    hide ShiftedLimb, Pow;
    var num := ShiftedLimbs();
    assert num == [0xFFFF0000, 0xFFFFFFFF, 0xFFFFFFFF, 0xFFFFFFFF, 0xFFFFFFFF, 0xFFFFFFFF, 0xFFFFFFFF, 0xFFFF];
    LiteralLimbs(num);
  }

  /** Dividing the limbs num leaves these quotient limbs and this remainder. */
  ghost predicate Divided(num: seq<nat>, q: seq<nat>, divisor: nat, remainder: nat) {
    remainder < divisor && Value(num, U32) == Value(q, U32) * divisor + remainder
  }

  lemma NothingDivided(divisor: nat)
    requires divisor > 0
    ensures Divided([], [], divisor, 0)
  {
  }

  lemma AllDivided(num: seq<nat>, q: seq<nat>, divisor: nat, remainder: nat)
    requires Divided(num, q, divisor, remainder)
    ensures Value(q, U32) == Value(num, U32) / divisor
  {
    hide Value;
    DivModUnique(Value(num, U32), Value(q, U32), remainder, divisor);
  }

  /** A quotient limb fits 32 bits. */
  lemma LimbQuotient(cur: nat, remainder: nat, limb: nat, divisor: nat)
    requires 0 < divisor < U32 && remainder < divisor && limb < U32 && cur == remainder * U32 + limb
    ensures 0 <= cur / divisor < U32
  {
    QuotientBound(cur, U32, divisor);
  }

  lemma DivisionStep(numAbove: nat, qAbove: nat, divisor: nat, cur: nat, limb: nat)
    requires divisor > 0 && cur >= limb && cur - limb == (numAbove - qAbove * divisor) * U32
    ensures limb + U32 * numAbove == (cur / divisor + U32 * qAbove) * divisor + cur % divisor
  {
    Euclid(cur, divisor);
    Distribute(U32, qAbove, cur / divisor, divisor);
    assert (U32 * divisor) * qAbove == U32 * (qAbove * divisor);
  }

  /** One more limb below the ones divided so far. */
  lemma DivideStep(num: seq<nat>, q: seq<nat>, limb: nat, divisor: nat, remainder: nat)
    requires Divided(num, q, divisor, remainder) && divisor < U32 && limb < U32
    ensures var cur := remainder * U32 + limb;
            && 0 <= cur / divisor == (cur / divisor) % U32 && 0 <= cur % divisor < divisor
            && Divided([limb] + num, [cur / divisor] + q, divisor, cur % divisor)
  {
    hide Value;
    var cur := remainder * U32 + limb;
    LimbQuotient(cur, remainder, limb, divisor);
    ValueCons(limb, num, U32);
    ValueCons(cur / divisor, q, U32);
    DivisionStep(Value(num, U32), Value(q, U32), divisor, cur, limb);
  }

  lemma NothingMovedIn(limb: nat)
    ensures ShiftedLimb(limb, 0) == (limb * 65536) % U32
  {
    OrCommutes((limb * 65536) % U32, 0);
    OrZero((limb * 65536) % U32);
    hide Or;
  }

  /** The loop that shifts the largest target left by 16 bits. */
  method ShiftTarget() returns (num: seq<nat>)
    ensures num == ShiftedLimbs()
  {
    hide Or;
    var limbs := new nat[8](_ => 0);
    limbs[0] := (MAX_TARGET[0] * 65536) % U32;
    NothingMovedIn(MAX_TARGET[0]);
    for i := 1 to 8
      invariant limbs[..i] == ShiftedLimbs()[..i]
    {
      limbs[i] := Or((MAX_TARGET[i] * 65536) % U32, MAX_TARGET[i - 1] / 65536);
    }
    num := limbs[..];
  }

  /** Schoolbook division of eight 32-bit limbs by one word, high limb first. */
  method DivideLimbs(num: seq<nat>, divisor: nat) returns (quotient: seq<nat>)
    requires Digits(num, U32) && 0 < divisor < U32
    ensures |quotient| == |num| && Digits(quotient, U32)
    ensures Value(quotient, U32) == Value(num, U32) / divisor
  {
    hide Divided, Value;
    var n := |num|;
    var q := new nat[n](_ => 0);
    var remainder := 0;
    assert q[n..] == [] && num[n..] == [];
    NothingDivided(divisor);
    for i := n downto 0
      invariant Digits(q[i..], U32) && 0 <= remainder < divisor
      invariant Divided(num[i..], q[i..], divisor, remainder)
    {
      ghost var above := q[i + 1..];
      var cur := remainder * U32 + num[i];
      DivideStep(num[i + 1..], above, num[i], divisor, remainder);
      var limb, rest := (cur / divisor) % U32, cur % divisor;
      q[i] := limb;
      remainder := rest;
      assert q[i..] == [limb] + above && num[i..] == [num[i]] + num[i + 1..];
    }
    quotient := q[..];
    assert q[0..] == quotient && num[0..] == num;
    AllDivided(num, quotient, divisor, remainder);
  }

  method WriteWord(word: nat, width: nat) returns (bytes: seq<nat>)
    requires word < Pow(256, width)
    ensures |bytes| == width && Digits(bytes, 256) && Value(bytes, 256) == word
  {
    bytes := [];
    for b := 0 to width
      invariant bytes == BytesOf(word, width)[..b]
    {
      BytesOfShift(word, width, b);
      bytes := bytes + [(word / Pow(256, b)) % 256];
    }
    assert bytes == BytesOf(word, width);
    BytesOfValue(word, width);
  }

  lemma AppendWord(out: seq<nat>, bytes: seq<nat>, words: seq<nat>, i: nat, width: nat)
    requires i < |words| && |out| == width * i && Value(out, 256) == Value(words[..i], Pow(256, width))
    requires |bytes| == width && Value(bytes, 256) == words[i]
    ensures |out + bytes| == width * (i + 1)
    ensures Value(out + bytes, 256) == Value(words[..i + 1], Pow(256, width))
  {
    hide Value, Pow;
    ValueConcat(out, bytes, 256);
    assert words[..i + 1] == words[..i] + [words[i]];
    ValueAppend(words[..i], words[i], Pow(256, width));
    PowOfPow(256, width, i);
    assert width * (i + 1) == width * i + width;
  }

  /** Words as bytes, least significant first: the loops of difficultyToTargetLe and prePowFromWords. */
  method WriteWords(words: seq<nat>, width: nat) returns (out: seq<nat>)
    requires Digits(words, Pow(256, width))
    ensures |out| == width * |words| && Digits(out, 256)
    ensures Value(out, 256) == Value(words, Pow(256, width))
  {
    out := [];
    assert words[..0] == [] && Value([], 256) == Value([], Pow(256, width)) == 0;
    hide Value, Pow;
    for i := 0 to |words|
      invariant |out| == width * i && Digits(out, 256)
      invariant Value(out, 256) == Value(words[..i], Pow(256, width))
    {
      var bytes := WriteWord(words[i], width);
      AppendWord(out, bytes, words, i, width);
      out := out + bytes;
    }
    assert words[..|words|] == words;
  }

  /** std::round of the scaled difficulty, halves away from zero. */
  function Round(x: real): int {
    if x >= 0.0 then (x + 0.5).Floor else -((-x + 0.5).Floor)
  }

  /** The nearest integer, from either side the one further from zero. */
  lemma RoundIsNearest(x: real)
    ensures x >= 0.0 ==> -0.5 <= x - Round(x) as real < 0.5
    ensures x <= 0.0 ==> -0.5 < x - Round(x) as real <= 0.5
  {
  }

  /** The divisor of a difficulty; none when the difficulty is too small for a target. */
  function Divisor(diff: real): (d: nat)
    ensures d < U32
  {
    if diff <= 0.0 then 0
    else
      var scaled := Round(diff * 65536.0);
      if scaled < 1 then 0 else if scaled > 0xFFFFFFFF then 0xFFFFFFFF else scaled
  }

  /**
   The divisor is the difficulty in units of 2^-16, rounded to the nearest and halves up, between two limits: it is
   none below half a unit and 2^32 - 1 from half a unit below that on.
   */
  lemma DivisorIsNearest(diff: real)
    ensures Divisor(diff) == 0 <==> diff * 65536.0 < 0.5
    ensures Divisor(diff) == U32 - 1 <==> diff * 65536.0 >= 4294967294.5
    ensures 0.5 <= diff * 65536.0 < 4294967295.5 ==>
              -0.5 <= diff * 65536.0 - Divisor(diff) as real < 0.5
  {
  }

  lemma FourBytes()
    ensures Pow(256, 4) == U32
  {
  }

  method DifficultyToTarget(diff: real) returns (target: seq<nat>)
    ensures |target| == 32 && Digits(target, 256)
    ensures Value(target, 256) == if Divisor(diff) == 0 then 0 else NUMERATOR / Divisor(diff)
  {
    target := seq(32, _ => 0);
    ValueZeros(target, 256);
    if diff <= 0.0 {
      return;
    }
    var scaled := Round(diff * 65536.0);
    if scaled < 1 {
      return;
    }
    var divisor := scaled;
    if divisor > 0xFFFFFFFF {
      divisor := 0xFFFFFFFF;
    }
    hide Value, ShiftedLimbs, Pow;
    var num := ShiftTarget();
    NumeratorLimbs();
    var quotient := DivideLimbs(num, divisor);
    FourBytes();
    target := WriteWords(quotient, 4);
  }

  // ----- Comparison ------------------------------------------------------------------------------

  method IsLowerOrEqualLE(value: seq<nat>, target: seq<nat>) returns (r: bool)
    requires |value| == |target| && Digits(value, 256) && Digits(target, 256)
    ensures r <==> Value(value, 256) <= Value(target, 256)
  {
    hide Value;
    for i := |value| downto 0
      invariant value[i..] == target[i..]
    {
      if value[i] != target[i] {
        if value[i] < target[i] {
          HigherDigitDecides(value, target, i, 256);
        } else {
          HigherDigitDecides(target, value, i, 256);
        }
        return value[i] < target[i];
      }
      assert value[i..] == [value[i]] + value[i + 1..] && target[i..] == [target[i]] + target[i + 1..];
    }
    assert value[0..] == value && target[0..] == target;
    return true;
  }

  /** A hash meets the target of a difficulty exactly when hash times divisor stays within the numerator. */
  lemma MeetsTarget(hash: nat, divisor: nat)
    requires divisor > 0
    ensures hash <= NUMERATOR / divisor <==> hash * divisor <= NUMERATOR
  {
    var n, q := NUMERATOR, NUMERATOR / divisor;
    Euclid(n, divisor);
    if hash <= q {
      MulMono(hash, q, divisor);
    } else {
      MulMono(q + 1, hash, divisor);
      Distribute(q, 1, 1, divisor);
    }
  }

  lemma ScaleBound(h: real, x: real, y: real)
    requires h >= 0.0 && x <= y
    ensures h * x <= h * y
  {
  }

  lemma ProductAsReal(m: nat, n: nat)
    ensures (m * n) as real == m as real * n as real
  {
  }

  lemma AboveProduct(hash: nat, divisor: nat, x: real, bound: nat)
    requires x <= divisor as real && hash * divisor <= bound
    ensures hash as real * x <= bound as real
  {
    ProductAsReal(hash, divisor);
    ScaleBound(hash as real, x, divisor as real);
  }

  lemma BelowProduct(hash: nat, divisor: nat, x: real, bound: nat)
    requires divisor as real <= x && hash as real * x <= bound as real
    ensures hash * divisor <= bound
  {
    ProductAsReal(hash, divisor);
    ScaleBound(hash as real, divisor as real, x);
  }

  /**
   The verdict in terms of the difficulty, hash * difficulty against 2^224 - 1: half a unit of 2^-16 below the
   difficulty every share is within it, half a unit above everything within it is a share.
   */
  lemma ShareOfDifficulty(hash: nat, diff: real)
    requires 0.5 <= diff * 65536.0 < 4294967295.5
    ensures hash * Divisor(diff) <= NUMERATOR ==>
              hash as real * (diff * 65536.0 - 0.5) <= NUMERATOR as real
    ensures hash as real * (diff * 65536.0 + 0.5) <= NUMERATOR as real ==>
              hash * Divisor(diff) <= NUMERATOR
  {
    DivisorIsNearest(diff);
    hide Divisor;
    var x, d, n := diff * 65536.0, Divisor(diff), NUMERATOR;
    if hash * d <= n {
      AboveProduct(hash, d, x - 0.5, n);
    }
    if hash as real * (x + 0.5) <= n as real {
      BelowProduct(hash, d, x + 0.5, n);
    }
  }

  /** The share test from the pool difficulty to the verdict. */
  method IsShare(hash: seq<nat>, diff: real) returns (r: bool)
    requires |hash| == 32 && Digits(hash, 256)
    ensures Divisor(diff) > 0 ==> (r <==> Value(hash, 256) * Divisor(diff) <= NUMERATOR)
    ensures Divisor(diff) == 0 ==> (r <==> Value(hash, 256) == 0)
  {
    var target := DifficultyToTarget(diff);
    r := IsLowerOrEqualLE(hash, target);
    if Divisor(diff) > 0 {
      MeetsTarget(Value(hash, 256), Divisor(diff));
    }
  }
}
