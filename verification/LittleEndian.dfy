/** Numbers written as digit sequences, least significant digit first. */
module LittleEndian {
  import opened Arithmetic

  function Value(s: seq<nat>, base: nat): nat {
    if s == [] then 0 else s[0] + base * Value(s[1..], base)
  }

  ghost predicate Digits(s: seq<nat>, base: nat) {
    forall k | 0 <= k < |s| :: s[k] < base
  }

  lemma ValueCons(d: nat, s: seq<nat>, base: nat)
    ensures Value([d] + s, base) == d + base * Value(s, base)
  {
    assert ([d] + s)[1..] == s;
  }

  lemma Commute(a: int, b: int)
    ensures a * b == b * a
  {
  }

  lemma ScaleSum(b: int, v: int, c: int, p: int)
    ensures b * (v + c * p) == b * v + c * (b * p)
  {
    assert b * (c * p) == c * (b * p);
  }

  lemma {:induction false} ValueConcat(a: seq<nat>, b: seq<nat>, base: nat)
    ensures Value(a + b, base) == Value(a, base) + Pow(base, |a|) * Value(b, base)
  {
    if a == [] {
      assert a + b == b;
    } else {
      assert (a + b)[1..] == a[1..] + b;
      ValueConcat(a[1..], b, base);
      ScaleSum(base, Value(a[1..], base), Value(b, base), Pow(base, |a| - 1));
      Commute(Pow(base, |a| - 1), Value(b, base));
      Commute(Pow(base, |a|), Value(b, base));
    }
  }

  lemma ValueAppend(a: seq<nat>, d: nat, base: nat)
    ensures Value(a + [d], base) == Value(a, base) + Pow(base, |a|) * d
  {
    ValueConcat(a, [d], base);
    assert Value([d], base) == d + base * Value([], base);
  }

  lemma {:induction false} ValueUpdate(s: seq<nat>, k: nat, d: nat, base: nat)
    requires k < |s|
    ensures Value(s[k := d], base) == Value(s, base) + (d - s[k]) * Pow(base, k)
  {
    if k == 0 {
      assert s[0 := d][1..] == s[1..];
    } else {
      assert s[k := d][1..] == s[1..][k - 1 := d];
      ValueUpdate(s[1..], k - 1, d, base);
      ScaleSum(base, Value(s[1..], base), d - s[k], Pow(base, k - 1));
    }
  }

  lemma {:induction false} ValueBound(s: seq<nat>, base: nat)
    requires Digits(s, base)
    ensures Value(s, base) < Pow(base, |s|)
  {
    if s != [] {
      ValueBound(s[1..], base);
      MulMono(Value(s[1..], base) + 1, Pow(base, |s| - 1), base);
      assert base * (Value(s[1..], base) + 1) == base * Value(s[1..], base) + base;
    }
  }

  /** Two digits at a time: the same number in the squared base. */
  lemma {:induction false} ValuePairs(s: seq<nat>, t: seq<nat>, base: nat)
    requires |s| == 2 * |t|
    requires forall i | 0 <= i < |t| :: t[i] == s[2 * i] + base * s[2 * i + 1]
    ensures Value(t, base * base) == Value(s, base)
  {
    if t != [] {
      var s', t' := s[2..], t[1..];
      assert forall i | 0 <= i < |t'| :: t'[i] == t[i + 1] == s[2 * (i + 1)] + base * s[2 * (i + 1) + 1];
      ValuePairs(s', t', base);
      assert s[1..][1..] == s';
      MulAssoc(base, base, Value(s', base));
      assert Value(s[1..], base) == s[1] + base * Value(s', base);
      assert base * (s[1] + base * Value(s', base)) == base * s[1] + base * (base * Value(s', base));
    }
  }

  /** The digits below position n are the value modulo the n-th power. */
  lemma LowDigits(s: seq<nat>, n: nat, base: nat)
    requires n <= |s| && base > 0 && Digits(s[..n], base)
    ensures Value(s, base) % Pow(base, n) == Value(s[..n], base)
  {
    hide Value, Pow;
    assert s == s[..n] + s[n..];
    ValueConcat(s[..n], s[n..], base);
    ValueBound(s[..n], base);
    var q := Value(s[n..], base);
    Commute(Pow(base, n), q);
    DivModUnique(Value(s, base), q, Value(s[..n], base), Pow(base, n));
  }

  lemma {:induction false} ValueScale(s: seq<nat>, t: seq<nat>, c: nat, base: nat)
    requires |s| == |t| && forall k | 0 <= k < |s| :: t[k] == c * s[k]
    ensures Value(t, base) == c * Value(s, base)
  {
    if s != [] {
      ValueScale(s[1..], t[1..], c, base);
      ScaleSum(c, s[0], base, Value(s[1..], base));
    }
  }

  lemma {:induction false} ValueZeros(s: seq<nat>, base: nat)
    requires forall k | 0 <= k < |s| :: s[k] == 0
    ensures Value(s, base) == 0
  {
    if s != [] {
      ValueZeros(s[1..], base);
    }
  }

  /** The lowest w bytes of a number. */
  function BytesOf(x: nat, w: nat): (s: seq<nat>)
    ensures |s| == w
  {
    if w == 0 then [] else [x % 256] + BytesOf(x / 256, w - 1)
  }

  lemma {:induction false} BytesOfValue(x: nat, w: nat)
    ensures Digits(BytesOf(x, w), 256)
    ensures x < Pow(256, w) ==> Value(BytesOf(x, w), 256) == x
  {
    if w > 0 {
      BytesOfValue(x / 256, w - 1);
    }
  }

  lemma NestedQuotient(y: int, q: int, r: nat, m: nat, n: nat)
    requires r < n && y == q * n + r
    ensures y * m == q * (m * n) + r * m && 0 <= r * m && r * m + m <= m * n
  {
    MulMono(r + 1, n, m);
    Distribute(q, n, r, m);
    assert (q * m) * n == q * (m * n);
  }

  lemma DivDiv(x: nat, m: nat, n: nat)
    requires m > 0 && n > 0
    ensures m * n > 0 && (x / m) / n == x / (m * n)
  {
    var y := x / m;
    var q, r := y / n, y % n;
    Euclid(x, m);
    Euclid(y, n);
    MulMono(1, m, n);
    NestedQuotient(y, q, r, m, n);
    DivModUnique(x, q, r * m + x % m, m * n);
  }

  /** Byte b is what a shift by b bytes and a mask leave. */
  lemma {:induction false} BytesOfShift(x: nat, w: nat, b: nat)
    requires b < w
    ensures BytesOf(x, w)[b] == (x / Pow(256, b)) % 256
  {
    if b > 0 {
      BytesOfShift(x / 256, w - 1, b - 1);
      DivDiv(x, 256, Pow(256, b - 1));
    }
  }

  lemma ValueAround(s: seq<nat>, i: nat, base: nat)
    requires i < |s|
    ensures Value(s, base) == Value(s[..i], base) + s[i] * Pow(base, i) + Pow(base, i + 1) * Value(s[i + 1..], base)
  {
    hide Value, Pow;
    assert s == s[..i + 1] + s[i + 1..] && s[..i + 1] == s[..i] + [s[i]];
    ValueConcat(s[..i + 1], s[i + 1..], base);
    ValueAppend(s[..i], s[i], base);
  }

  /** Comparing from the most significant digit compares the numbers. */
  lemma HigherDigitDecides(s: seq<nat>, t: seq<nat>, i: nat, base: nat)
    requires i < |s| == |t| && Digits(s, base) && Digits(t, base)
    requires s[i + 1..] == t[i + 1..] && s[i] < t[i]
    ensures Value(s, base) < Value(t, base)
  {
    var p := Pow(base, i);
    ValueAround(s, i, base);
    ValueAround(t, i, base);
    ValueBound(s[..i], base);
    MulMono(s[i] + 1, t[i], p);
    Distribute(s[i], 1, 1, p);
  }
}
