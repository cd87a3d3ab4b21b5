/**
 The decimal boundary of an Autolykos job: decimal text to base-16 limbs with carry chains, to
 upper-case hexadecimal text, to little-endian bytes.
 */
module DecimalHash {
  import opened Arithmetic
  import opened LittleEndian
  import opened Words

  const HASH_SIZE: nat := 64
  const SPARE: nat := 10
  const LIMBS: nat := HASH_SIZE + SPARE
  /** The bound below which the limbs stay while a carry chain is pending. */
  const PENDING: nat := 150

  predicate IsDecimal(c: char) { '0' <= c <= '9' }

  ghost predicate AllDecimal(s: string) {
    forall k | 0 <= k < |s| :: IsDecimal(s[k])
  }

  function Digit(c: char): (d: nat)
    requires IsDecimal(c)
    ensures d < 10
  {
    c as int - '0' as int
  }

  /** The digits in order, as they are written. */
  lemma DigitTable(d: nat)
    requires d < 10
    ensures IsDecimal("0123456789"[d]) && Digit("0123456789"[d]) == d
  {
  }

  /** The number a decimal string denotes. */
  ghost function DecimalValue(s: string): nat
    requires AllDecimal(s)
  {
    if s == "" then 0 else 10 * DecimalValue(s[..|s| - 1]) + Digit(s[|s| - 1])
  }

  lemma {:induction false} DecimalValueFront(s: string)
    requires AllDecimal(s) && s != ""
    ensures DecimalValue(s) == Digit(s[0]) * Pow(10, |s| - 1) + DecimalValue(s[1..])
  {
    if |s| == 1 {
      assert s[..0] == "" && s[1..] == "";
    } else {
      var t := s[..|s| - 1];
      DecimalValueFront(t);
      assert t[1..] == s[1..][..|s| - 2];
      ScaleSum(10, DecimalValue(t[1..]), Digit(s[0]), Pow(10, |s| - 2));
    }
  }

  ghost predicate SmallLimbs(a: seq<nat>, bound: nat) {
    |a| == LIMBS && a[LIMBS - 1] < U32 && forall k | 0 <= k < LIMBS - 1 :: a[k] < bound
  }

  /** The number that the limbs denote, up to what the 64 limbs of the result can hold. */
  ghost predicate Denotes(a: seq<nat>, v: int) {
    |a| >= SPARE && Value(a, 16) % Pow(16, |a| - SPARE) == v % Pow(16, |a| - SPARE)
  }

  /** A carry hands 16 units of limb ip to its neighbour as one. */
  lemma CarryExact(a: seq<nat>, ip: nat, rem: nat)
    requires ip + 1 < |a| && 16 * rem <= a[ip]
    ensures Value(a[ip := a[ip] - 16 * rem][ip + 1 := a[ip + 1] + rem], 16) == Value(a, 16)
  {
    ValueUpdate(a, ip, a[ip] - 16 * rem, 16);
    ValueUpdate(a[ip := a[ip] - 16 * rem], ip + 1, a[ip + 1] + rem, 16);
    hide Value;
    MulAssoc(rem, 16, Pow(16, ip));
    assert (-(16 * rem)) * Pow(16, ip) == -(rem * 16 * Pow(16, ip));
  }

  /** Whatever the topmost limb holds is beyond the result. */
  lemma TopLimbFree(a: seq<nat>, x: nat, v: int)
    requires |a| == LIMBS && Denotes(a, v)
    ensures Denotes(a[LIMBS - 1 := x], v)
  {
    hide Value, Pow;
    var c, m := x - a[LIMBS - 1], Pow(16, |a| - SPARE);
    ValueUpdate(a, |a| - 1, x, 16);
    PowAdd(16, SPARE - 1, |a| - SPARE);
    MulAssoc(c, Pow(16, SPARE - 1), m);
    ModAddMultiple(Value(a, 16), c * Pow(16, SPARE - 1), m);
  }

  /** One step of the carry loop, with the unsigned 32-bit addition. */
  function Carried(a: seq<nat>, ip: nat): seq<nat>
    requires ip + 1 < |a|
  {
    var rem := a[ip] / 16;
    a[ip := a[ip] - 16 * rem][ip + 1 := (a[ip + 1] + rem) % U32]
  }

  lemma CarryKeepsValue(a: seq<nat>, ip: nat, v: int)
    requires |a| == LIMBS && ip + 1 < LIMBS && Denotes(a, v)
    requires ip + 1 < LIMBS - 1 ==> a[ip + 1] + a[ip] / 16 < U32
    ensures Denotes(Carried(a, ip), v)
  {
    hide Value, Pow;
    var rem := a[ip] / 16;
    var c := a[ip := a[ip] - 16 * rem][ip + 1 := a[ip + 1] + rem];
    CarryExact(a, ip, rem);
    if ip + 1 == LIMBS - 1 {
      TopLimbFree(c, (a[ip + 1] + rem) % U32, v);
      assert c[ip + 1 := (a[ip + 1] + rem) % U32] == Carried(a, ip);
    } else {
      assert c == Carried(a, ip);
    }
  }

  method CarryOne(a: array<nat>, ip: nat, ghost v: int)
    requires a.Length == LIMBS && ip + 1 < LIMBS && Denotes(a[..], v)
    requires ip + 1 < LIMBS - 1 ==> a[ip + 1] + a[ip] / 16 < U32
    modifies a
    ensures Denotes(a[..], v)
    ensures a[ip] == old(a[ip]) % 16 && a[ip + 1] == (old(a[ip + 1]) + old(a[ip]) / 16) % U32
    ensures forall k | 0 <= k < LIMBS && k != ip && k != ip + 1 :: a[k] == old(a[k])
  {
    hide Denotes;
    ghost var before := a[..];
    CarryKeepsValue(before, ip, v);
    var rem := a[ip] / 16;
    a[ip] := a[ip] - 16 * rem;
    a[ip + 1] := (a[ip + 1] + rem) % U32;
    assert a[..] == Carried(before, ip);
  }

  /** The do-while carry loop starting at limb j. */
  method CarryFrom(a: array<nat>, j: nat, ghost v: int)
    requires a.Length == LIMBS && j < HASH_SIZE
    requires SmallLimbs(a[..], PENDING + 1) && Denotes(a[..], v)
    modifies a
    ensures SmallLimbs(a[..], PENDING + 1) && Denotes(a[..], v)
    ensures a[..j] == old(a[..j]) && a[j] < 16
    ensures forall k | 0 <= k < LIMBS - 1 && old(a[k]) < 16 :: a[k] < 16
  {
    hide Denotes;
    var tmp, ip, more := a[j], j, true;
    while more
      invariant j <= ip < LIMBS && tmp == a[ip]
      invariant Denotes(a[..], v) && a[LIMBS - 1] < U32 && (ip < LIMBS - 1 ==> tmp <= PENDING + 10)
      invariant forall k | 0 <= k < LIMBS - 1 && k != ip :: a[k] <= PENDING
      invariant forall k | 0 <= k < LIMBS - 1 && k != ip && old(a[k]) < 16 :: a[k] < 16
      invariant ip > j ==> a[j] < 16
      invariant !more ==> tmp < 16 && ip > j
      invariant forall k | 0 <= k < j :: a[k] == old(a[k])
      decreases LIMBS - ip, more
    {
      if ip + 1 >= LIMBS {
        break;
      }
      CarryOne(a, ip, v);
      ip := ip + 1;
      tmp := a[ip];
      more := tmp >= 16;
    }
  }

  lemma AddBoth(x: int, y: int, d: int, m: nat)
    requires m > 0 && x % m == y % m
    ensures (x + d) % m == (y + d) % m
  {
    ModShift(x, y, -d, m);
  }

  lemma AddAt(a: seq<nat>, j: nat, d: nat, v: int)
    requires j < |a| && Denotes(a, v)
    ensures Denotes(a[j := a[j] + d], v + d * Pow(16, j))
  {
    hide Value, Pow;
    ValueUpdate(a, j, a[j] + d, 16);
    AddBoth(Value(a, 16), v, d * Pow(16, j), Pow(16, |a| - SPARE));
  }

  /** accs[j] += x, then the carry chain from j. */
  method AddToLimb(accs: array<nat>, j: nat, x: nat, ghost v: int)
    requires accs.Length == LIMBS && j < HASH_SIZE && x <= 135
    requires SmallLimbs(accs[..], 16) && Denotes(accs[..], v)
    modifies accs
    ensures SmallLimbs(accs[..], 16) && Denotes(accs[..], v + x * Pow(16, j))
  {
    hide Denotes, Value, Pow;
    ghost var before := accs[..];
    accs[j] := (accs[j] + x) % U32;
    assert accs[..] == before[j := before[j] + x];
    AddAt(before, j, x, v);
    CarryFrom(accs, j, v + x * Pow(16, j));
  }

  lemma ValueOfNothing(base: nat)
    ensures Value([], base) == 0
  {
  }

  lemma ScaledDigit(f: int, v: int, p: int, d: int)
    ensures f * (v + p * d) == f * v + d * f * p
  {
  }

  lemma NextDigit(t: seq<nat>, j: nat, f: nat)
    requires j < |t|
    ensures f * Value(t[..j + 1], 16) == f * Value(t[..j], 16) + t[j] * f * Pow(16, j)
  {
    assert t[..j + 1] == t[..j] + [t[j]];
    ValueAppend(t[..j], t[j], 16);
    hide Value, Pow;
    ScaledDigit(f, Value(t[..j], 16), Pow(16, j), t[j]);
  }

  lemma DigitProduct(limb: nat, f: nat)
    requires limb < 16 && f < 10
    ensures 0 <= limb * f <= 135
  {
    MulMono(limb, 15, f);
  }

  /** accs += fs[i] * ts, limb by limb with a carry chain after each. */
  method AddMultiple(accs: array<nat>, ts: array<nat>, f: nat, ghost v: int)
    requires accs.Length == ts.Length == LIMBS && accs != ts && f < 10
    requires SmallLimbs(accs[..], 16) && SmallLimbs(ts[..], 16) && Denotes(accs[..], v)
    modifies accs
    ensures SmallLimbs(accs[..], 16) && Denotes(accs[..], v + f * Value(ts[..HASH_SIZE], 16))
  {
    hide Denotes, Value, Pow;
    ghost var t := ts[..];
    assert t[..0] == [] && f * Value([], 16) == 0 by { ValueOfNothing(16); }
    for j := 0 to HASH_SIZE
      invariant SmallLimbs(accs[..], 16) && ts[..] == t
      invariant Denotes(accs[..], v + f * Value(t[..j], 16))
    {
      DigitProduct(ts[j], f);
      NextDigit(t, j, f);
      AddToLimb(accs, j, ts[j] * f, v + f * Value(t[..j], 16));
    }
    assert t[..HASH_SIZE] == ts[..HASH_SIZE];
  }

  lemma LowTimesTen(lo: nat, hi: nat, m: nat, v: int)
    requires m > 0 && (lo + m * hi) % m == v % m
    ensures (10 * lo + m * hi) % m == (10 * v) % m
  {
    ModAddMultiple(lo, hi, m);
    ModAddMultiple(10 * lo, hi, m);
    assert m * hi == hi * m;
    ModMul(lo, 10, m);
    ModMul(v, 10, m);
  }

  lemma TimesTenDenotes(a: seq<nat>, b: seq<nat>, v: int)
    requires |a| == |b| == LIMBS && Denotes(a, v)
    requires forall k | 0 <= k < LIMBS :: b[k] == if k < HASH_SIZE then 10 * a[k] else a[k]
    ensures Denotes(b, 10 * v)
  {
    hide Value, Pow;
    var lo, hi := a[..HASH_SIZE], a[HASH_SIZE..];
    ValueScale(lo, b[..HASH_SIZE], 10, 16);
    assert a == lo + hi && b == b[..HASH_SIZE] + hi;
    ValueConcat(lo, hi, 16);
    ValueConcat(b[..HASH_SIZE], hi, 16);
    LowTimesTen(Value(lo, 16), Value(hi, 16), Pow(16, |a| - SPARE), v);
  }

  lemma SmallMod(x: nat)
    requires x < U32
    ensures x % U32 == x
  {
  }

  method ScaleLimbs(ts: array<nat>, ghost v: int)
    requires ts.Length == LIMBS && SmallLimbs(ts[..], 16) && Denotes(ts[..], v)
    modifies ts
    ensures SmallLimbs(ts[..], PENDING + 1) && Denotes(ts[..], 10 * v)
    ensures forall k | HASH_SIZE <= k < LIMBS - 1 :: ts[k] < 16
  {
    ghost var before := ts[..];
    hide Denotes, Value, Pow;
    for j := 0 to HASH_SIZE
      invariant forall k | 0 <= k < LIMBS :: ts[k] == if k < j then 10 * before[k] else before[k]
    {
      SmallMod(10 * before[j]);
      ts[j] := (ts[j] * 10) % U32;
    }
    TimesTenDenotes(before, ts[..], v);
  }

  /** ts *= 10, first every limb, then the carry chains. */
  method TimesTen(ts: array<nat>, ghost v: int)
    requires ts.Length == LIMBS && SmallLimbs(ts[..], 16) && Denotes(ts[..], v)
    modifies ts
    ensures SmallLimbs(ts[..], 16) && Denotes(ts[..], 10 * v)
  {
    hide Denotes;
    ScaleLimbs(ts, v);
    for j := 0 to HASH_SIZE
      invariant SmallLimbs(ts[..], PENDING + 1) && Denotes(ts[..], 10 * v)
      invariant forall k | 0 <= k < LIMBS - 1 && (k < j || k >= HASH_SIZE) :: ts[k] < 16
    {
      CarryFrom(ts, j, 10 * v);
    }
  }

  lemma SameMultiple(v: int, sum: int, f: int, low: int, power: int, m: nat)
    requires m > 0 && power % m == low && v % m == (sum + f * low) % m
    ensures v % m == (sum + f * power) % m
  {
    var q := power / m;
    Euclid(power, m);
    assert f * power == f * low + (f * q) * m by {
      assert f * (q * m + low) == f * low + (f * q) * m;
    }
    ModAddMultiple(sum + f * low, f * q, m);
  }

  lemma LowLimbsDenote(a: seq<nat>, t: seq<nat>, f: nat, sum: nat, power: nat)
    requires |a| == LIMBS && SmallLimbs(t, 16) && Denotes(t, power)
    requires Denotes(a, sum + f * Value(t[..HASH_SIZE], 16))
    ensures Denotes(a, sum + f * power)
  {
    hide Value, Pow;
    assert Digits(t[..HASH_SIZE], 16);
    LowDigits(t, |t| - SPARE, 16);
    SameMultiple(Value(a, 16), sum, f, Value(t[..HASH_SIZE], 16), power, Pow(16, |t| - SPARE));
  }

  /** One decimal digit: the partial sum grows by the digit times the power of ten, and the power by ten. */
  method TakeDigit(accs: array<nat>, ts: array<nat>, f: nat, ghost sum: nat, ghost power: nat)
    requires accs.Length == ts.Length == LIMBS && accs != ts && f < 10
    requires SmallLimbs(accs[..], 16) && Denotes(accs[..], sum)
    requires SmallLimbs(ts[..], 16) && Denotes(ts[..], power)
    modifies accs, ts
    ensures SmallLimbs(accs[..], 16) && Denotes(accs[..], sum + f * power)
    ensures SmallLimbs(ts[..], 16) && Denotes(ts[..], 10 * power)
  {
    ghost var low := Value(ts[..HASH_SIZE], 16);
    AddMultiple(accs, ts, f, sum);
    LowLimbsDenote(accs[..], ts[..], f, sum, power);
    TimesTen(ts, power);
  }

  // ----- The three conversions ---------------------------------------------------------------------

  /** The nibbles of a 64-byte hexadecimal text, least significant (that is, last) first. */
  ghost function Nibbles(text: seq<Byte>): (ns: seq<nat>)
    ensures |ns| == |text| && Digits(ns, 16)
  {
    seq(|text|, i requires 0 <= i < |text| => Nibble(text[|text| - 1 - i]))
  }

  lemma NibblesOfText(text: seq<Byte>, ns: seq<nat>)
    requires |text| == |ns| && Digits(ns, 16)
    requires forall k | 0 <= k < |ns| :: text[|ns| - 1 - k] == HexCode(ns[k])
    ensures Nibbles(text) == ns
    ensures forall i | 0 <= i < |text| :: text[i] == HexCode(Nibble(text[i]))
  {
    forall d: nat | d < 16
      ensures Nibble(HexCode(d)) == d
    {
      NibbleOfHexCode(d);
    }
    forall i | 0 <= i < |text|
      ensures text[i] == HexCode(Nibble(text[i]))
    {
      var k := |ns| - 1 - i;
      assert text[|ns| - 1 - k] == HexCode(ns[k]);
    }
  }

  /** The digits as numbers, the last one first. */
  ghost predicate ReversedDigits(fs: seq<nat>, input: string) {
    AllDecimal(input) && |fs| == |input|
    && forall i | 0 <= i < |fs| :: fs[i] == Digit(input[|input| - 1 - i])
  }

  lemma NextTail(input: string, k: nat)
    requires AllDecimal(input) && k < |input|
    ensures DecimalValue(input[k..])
         == DecimalValue(input[k + 1..]) + Digit(input[k]) * Pow(10, |input| - k - 1)
    ensures Pow(10, |input| - k) == 10 * Pow(10, |input| - k - 1)
  {
    DecimalValueFront(input[k..]);
    assert input[k..][1..] == input[k + 1..];
  }

  /** The loop over the digits. */
  method AddDigits(input: string, fs: array<nat>, accs: array<nat>, ts: array<nat>)
    requires accs.Length == ts.Length == LIMBS && accs != ts && fs != accs && fs != ts
    requires ReversedDigits(fs[..], input)
    requires SmallLimbs(accs[..], 16) && Denotes(accs[..], DecimalValue(input[|input|..]))
    requires SmallLimbs(ts[..], 16) && Denotes(ts[..], Pow(10, 0))
    modifies accs, ts
    ensures SmallLimbs(accs[..], 16) && Denotes(accs[..], DecimalValue(input))
  {
    hide Denotes, SmallLimbs, Pow, DecimalValue;
    ghost var digits, k := fs[..], |input|;
    for i := 0 to fs.Length
      invariant fs[..] == digits && k == |input| - i
      invariant SmallLimbs(accs[..], 16) && Denotes(accs[..], DecimalValue(input[k..]))
      invariant SmallLimbs(ts[..], 16) && Denotes(ts[..], Pow(10, i))
    {
      ghost var sum := DecimalValue(input[k..]);
      k := k - 1;
      NextTail(input, k);
      assert fs[i] == digits[i];
      TakeDigit(accs, ts, fs[i], sum, Pow(10, i));
    }
    assert input[0..] == input;
  }

  lemma ReadLimbs(a: seq<nat>, limbs: seq<nat>, v: int)
    requires SmallLimbs(a, 16) && Denotes(a, v) && limbs == a[..HASH_SIZE]
    ensures Digits(limbs, 16) && Value(limbs, 16) == v % Pow(16, |limbs|)
  {
    hide Value, Pow;
    LowDigits(a, |limbs|, 16);
  }

  lemma InitialValues(accs: seq<nat>, ts: seq<nat>, sum: nat)
    requires sum == 0
    requires |accs| == |ts| == LIMBS && forall k | 0 <= k < LIMBS :: accs[k] == 0 && ts[k] == if k == 0 then 1 else 0
    ensures Denotes(accs, sum) && Denotes(ts, Pow(10, 0))
  {
    ValueZeros(accs, 16);
    ValueZeros(ts[1..], 16);
    assert Value(ts, 16) == 1;
  }

  /** The base-16 limbs of a decimal string. */
  method SumDigits(input: string) returns (limbs: seq<nat>)
    requires AllDecimal(input)
    ensures |limbs| == HASH_SIZE && Digits(limbs, 16)
    ensures Value(limbs, 16) == DecimalValue(input) % Pow(16, |limbs|)
  {
    hide Denotes, Value, Pow;
    var fs := new nat[|input|](k requires 0 <= k < |input| => input[|input| - 1 - k] as int - '0' as int);
    var ts := new nat[LIMBS](k => if k == 0 then 1 else 0);
    var accs := new nat[LIMBS](_ => 0);
    InitialValues(accs[..], ts[..], DecimalValue(input[|input|..]));
    AddDigits(input, fs, accs, ts);
    limbs := accs[..HASH_SIZE];
    ReadLimbs(accs[..], limbs, DecimalValue(input));
  }

  method DecimalToHash(input: string) returns (hash: seq<Byte>)
    ensures |hash| == HASH_SIZE
    ensures AllDecimal(input) ==> forall i | 0 <= i < |hash| :: hash[i] == HexCode(Nibble(hash[i]))
    ensures AllDecimal(input) ==> Value(Nibbles(hash), 16) == DecimalValue(input) % Pow(16, |hash|)
    ensures !AllDecimal(input) ==> hash == seq(HASH_SIZE, _ => 0)
  {
    hide Value, Pow, DecimalValue, HexCode;
    for i := 0 to |input|
      invariant AllDecimal(input[..i])
    {
      if !IsDecimal(input[i]) {
        return seq(HASH_SIZE, _ => 0);
      }
    }
    assert input[..|input|] == input;
    var accs := SumDigits(input);
    var out := new Byte[HASH_SIZE];
    for i := 0 to HASH_SIZE
      invariant forall k | 0 <= k < i :: out[HASH_SIZE - 1 - k] == HexCode(accs[k])
    {
      out[HASH_SIZE - 1 - i] := HexCode(accs[i]);
    }
    hash := out[..];
    NibblesOfText(hash, accs);
  }

  lemma NibbleIntoByte(byte: Byte, nibble: nat, high: nat)
    requires nibble < 16 && high < 2 && byte < 16 && (high == 0 ==> byte == 0)
    ensures Or(byte, nibble * Pow2(4 * high)) % 256 == byte + if high == 0 then nibble else 16 * nibble
  {
    hide Or;
    assert Pow2(0) == 1 && Pow2(4) == 16;
    if high == 0 {
      OrZero(nibble);
      assert nibble * Pow2(4 * high) == nibble;
    } else {
      OrIsSum(byte, nibble, 4);
    }
  }

  /** Packs the nibbles of a text into bytes, least significant byte first. */
  method ToLittleEndian(text: seq<Byte>) returns (hash: seq<Byte>)
    requires |text| == HASH_SIZE
    ensures |hash| == HASH_SIZE
    ensures forall k | 0 <= k < HASH_SIZE / 2 :: hash[k] == Nibbles(text)[2 * k] + 16 * Nibbles(text)[2 * k + 1]
    ensures forall k | HASH_SIZE / 2 <= k < HASH_SIZE :: hash[k] == 0
  {
    hide Or, Pow2, Nibble;
    ghost var ns := Nibbles(text);
    var out := new Byte[HASH_SIZE](_ => 0);
    for i := 0 to HASH_SIZE
      invariant forall k | 0 <= k < i / 2 :: out[k] == ns[2 * k] + 16 * ns[2 * k + 1]
      invariant i % 2 == 1 ==> out[i / 2] == ns[i - 1]
      invariant forall k | (i + 1) / 2 <= k < HASH_SIZE :: out[k] == 0
    {
      var nibble := Nibble(text[HASH_SIZE - i - 1]);
      NibbleIntoByte(out[i / 2], nibble, i % 2);
      out[i / 2] := Or(out[i / 2], nibble * Pow2(4 * (i % 2))) % 256;
    }
    hash := out[..];
  }

  /** toHash2 from 64 to 32 bytes: the first bytes survive. */
  function ToHash256(hash: seq<Byte>): seq<Byte>
    requires |hash| == HASH_SIZE
  {
    hash[..32]
  }

  lemma SixteenSquared(n: nat)
    ensures Pow(256, n) == Pow(16, 2 * n)
  {
    assert Pow(16, 2) == 256;
    PowOfPow(16, 2, n);
    hide Pow;
  }

  /**
   The boundary as a job stores it: 32 little-endian bytes of the decimal value modulo 2^256, so
   the value itself when it fits, and zero when the text is not a decimal number.
   */
  method Boundary(input: string) returns (bytes: seq<Byte>)
    ensures |bytes| == 32
    ensures AllDecimal(input) ==> Value(bytes, 256) == DecimalValue(input) % Pow(256, |bytes|)
    ensures AllDecimal(input) && DecimalValue(input) < Pow(256, |bytes|) ==> Value(bytes, 256) == DecimalValue(input)
    ensures !AllDecimal(input) ==> bytes == seq(32, _ => 0)
  {
    hide Value, Pow, DecimalValue;
    var text := DecimalToHash(input);
    var hash := ToLittleEndian(text);
    bytes := ToHash256(hash);
    ValuePairs(Nibbles(text), bytes, 16);
    SixteenSquared(|bytes|);
    assert AllDecimal(input) ==> Value(bytes, 256) == DecimalValue(input) % Pow(256, |bytes|);
    if !AllDecimal(input) {
      assert Nibble(0) == 0;
      assert forall i | 0 <= i < HASH_SIZE :: Nibbles(text)[i] == 0;
    }
    if AllDecimal(input) && DecimalValue(input) < Pow(256, |bytes|) {
      DivModUnique(DecimalValue(input), 0, DecimalValue(input), Pow(256, |bytes|));
    }
  }
}
