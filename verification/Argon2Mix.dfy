/**
 The mixing layer of Argon2: fBlaMka, G_mix, the permutation P on 16 words and the block
 compression, with the inverses that show which of them lose no information.
 */
module Argon2Mix {
  import opened Arithmetic
  import opened Options
  import opened Words

  const WORDS_PER_BLOCK: nat := 128

  type Block = b: seq<Word> | |b| == WORDS_PER_BLOCK witness seq(WORDS_PER_BLOCK, _ => 0)

  // ----- fBlaMka ---------------------------------------------------------------------------

  function FBlaMka(a: Word, b: Word): Word {
    var aLow := a % U32;
    var bLow := b % U32;
    (a + b + 2 * aLow * bLow) % U64
  }

  lemma TwiceThePolynomial(a: int, b: int)
    ensures 2 * (a + b + 2 * a * b) + 1 == (2 * a + 1) * (2 * b + 1)
  {
    Distribute(2, a, 1, 2 * b + 1);
    assert (2 * (2 * b + 1)) * a == 4 * (a * b) + 2 * a;
  }

  lemma TwiceModulo(x: nat)
    ensures (2 * (x % U64) + 1) % (2 * U64) == (2 * x + 1) % (2 * U64)
  {
    Euclid(x, U64);
    ModDifference(2 * x + 1, 2 * (x % U64) + 1, x / U64, 2 * U64);
  }

  /** What the low halves contribute. */
  function ProductOf(al: nat, bl: nat): nat {
    MulMono(0, 2 * al, bl);
    2 * al * bl
  }

  lemma FBlaMkaIs(a: Word, b: Word, al: nat, bl: nat)
    requires al == a % U32 && bl == b % U32
    ensures FBlaMka(a, b) == (a + b + ProductOf(al, bl)) % U64
  {
  }

  lemma TwiceTheSum(a: nat, b: nat)
    ensures 2 * (a + b + ProductOf(a, b)) + 1 == (2 * a + 1) * (2 * b + 1)
  {
    TwiceThePolynomial(a, b);
  }

  /** Below 2^32 fBlaMka multiplies the odd numbers 2a + 1 and 2b + 1, modulo 2^65. */
  lemma FBlaMkaMultiplies(a: Word, b: Word)
    requires a < U32 && b < U32
    ensures (2 * FBlaMka(a, b) + 1) % (2 * U64) == ((2 * a + 1) * (2 * b + 1)) % (2 * U64)
  {
    hide FBlaMka, ProductOf;
    FBlaMkaIs(a, b, a, b);
    TwiceModulo(a + b + ProductOf(a, b));
    TwiceTheSum(a, b);
  }

  lemma AddModulo(x: nat, y: nat)
    ensures (x % U64 + y) % U64 == (x + y) % U64
  {
    Euclid(x, U64);
    ModDifference(x + y, x % U64 + y, x / U64, U64);
  }

  /** The high halves are added. */
  lemma FBlaMkaAddsHighHalves(a: Word, b: Word)
    ensures FBlaMka(a, b) == (FBlaMka(a % U32, b % U32) + (a - a % U32) + (b - b % U32)) % U64
  {
    hide FBlaMka, ProductOf;
    var al, bl := a % U32, b % U32;
    FBlaMkaIs(a, b, al, bl);
    FBlaMkaIs(al, bl, al, bl);
    AddModulo(al + bl + ProductOf(al, bl), (a - al) + (b - bl));
  }

  lemma OddProduct(x: int, y: int)
    ensures x * (1 + 2 * y) == x + 2 * x * y
  {
  }

  /** The low half of the sum depends on the low half of the first operand only. */
  lemma LowHalfOfFBlaMka(a: Word, b: Word)
    ensures FBlaMka(a, b) % U32 == ((a % U32) * (1 + 2 * (b % U32)) + b % U32) % U32
  {
    var al, bl := a % U32, b % U32;
    ModMod(a + b + 2 * al * bl, U32, U32);
    OddProduct(al, bl);
    ModDifference(a + b + 2 * al * bl, al * (1 + 2 * bl) + bl, a / U32 + b / U32, U32);
  }

  lemma SquareOfProduct(t: int, m: int)
    ensures (t * m) * (t * m) == (t * t) * (m * m)
  {
    MulAssoc(t * m, t, m);
    assert (t * m) * t == (t * t) * m;
    MulAssoc(t * t, m, m);
  }

  lemma NewtonIdentity(c: int, i: int, t: int, m: int)
    requires c * i == t * m + 1
    ensures c * (i * (2 - c * i)) == -(t * t) * (m * m) + 1
  {
    var e := t * m;
    calc {
      c * (i * (2 - c * i));
      { MulAssoc(c, i, 2 - c * i); }
      (e + 1) * (1 - e);
      1 - e * e;
      { SquareOfProduct(t, m); }
      -(t * t) * (m * m) + 1;
    }
  }

  lemma NewtonDoubles(c: nat, i: nat, m: nat)
    requires m > 1 && (c * i) % m == 1
    ensures m * m > 1
    ensures (c * ((i * (2 - c * i)) % (m * m))) % (m * m) == 1
  {
    var t := (c * i) / m;
    var u := i * (2 - c * i);
    MulMono(1, m, m);
    Euclid(c * i, m);
    NewtonIdentity(c, i, t, m);
    ModMul(u, c, m * m);
    assert (u % (m * m)) * c == c * (u % (m * m));
    DivModUnique(c * u, -(t * t), 1, m * m);
  }

  /** Doubles the number of correct low bits of an inverse. */
  function NewtonStep(c: nat, i: nat, m: nat): (j: nat)
    requires m > 1 && (c * i) % m == 1
    ensures (c * j) % (m * m) == 1
  {
    NewtonDoubles(c, i, m);
    (i * (2 - c * i)) % (m * m)
  }

  /** An inverse modulo 2^32 of an odd number, by Newton's iteration. */
  function OddInverse(c: nat): (i: nat)
    requires c % 2 == 1
    ensures (c * i) % U32 == 1
  {
    var i1 := NewtonStep(c, 1, 2);
    var i2 := NewtonStep(c, i1, 4);
    var i3 := NewtonStep(c, i2, 16);
    var i4 := NewtonStep(c, i3, 256);
    NewtonStep(c, i4, 65536)
  }

  /** Recovers the first operand of fBlaMka from its result and the second operand. */
  function UnFBlaMka(y: Word, b: Word): Word {
    var bLow := b % U32;
    var aLow := ((y - bLow) * OddInverse(1 + 2 * bLow)) % U32;
    (y - b - 2 * aLow * bLow) % U64
  }

  lemma TimesInverse(x: int, c: int, i: int, t: int)
    requires c * i == t * U32 + 1
    ensures x * (c * i) == x + (x * t) * U32
  {
    MulAssoc(x, t, U32);
  }

  /** The equation x * c == z modulo 2^32 with an odd c has the solution z * i, i the inverse of c... */
  lemma SolveOdd(z: int, c: nat, i: nat)
    requires (c * i) % U32 == 1
    ensures ((z * i) % U32 * c) % U32 == z % U32
  {
    var t := (c * i) / U32;
    ModMul(z * i, c, U32);
    TimesInverse(z, c, i, t);
    MulAssoc(z, i, c);
    assert i * c == c * i;
    ModAddMultiple(z, z * t, U32);
  }

  /** ... and no other. */
  lemma SolutionUnique(z: int, x: nat, c: nat, i: nat)
    requires (c * i) % U32 == 1 && x < U32 && (x * c) % U32 == z % U32
    ensures (z * i) % U32 == x
  {
    assert ((x * c) * i) % U32 == x by {
      var t := (c * i) / U32;
      MulAssoc(x, c, i);
      TimesInverse(x, c, i, t);
      ModAddMultiple(x, x * t, U32);
    }
    ModMul(z, i, U32);
    ModMul(x * c, i, U32);
  }

  lemma SubtractBack(a: Word, e: int)
    ensures ((a + e) % U64 - e) % U64 == a
  {
    ModMod(a + e, U64, 1);
    ModShift((a + e) % U64, a + e, e, U64);
  }

  lemma LowHalfRecovered(y: Word, al: nat, bl: nat, inv: nat)
    requires al < U32 && ((1 + 2 * bl) * inv) % U32 == 1
    requires y % U32 == (al * (1 + 2 * bl) + bl) % U32
    ensures ((y - bl) * inv) % U32 == al
  {
    var c := 1 + 2 * bl;
    ModShift(y, al * c + bl, bl, U32);
    SolutionUnique(y - bl, al, c, inv);
  }

  lemma FBlaMkaInvertible(a: Word, b: Word)
    ensures UnFBlaMka(FBlaMka(a, b), b) == a
  {
    hide OddInverse;
    var al, bl := a % U32, b % U32;
    var e := b + 2 * al * bl;
    var y := FBlaMka(a, b);
    assert y == (a + e) % U64;
    LowHalfOfFBlaMka(a, b);
    LowHalfRecovered(y, al, bl, OddInverse(1 + 2 * bl));
    assert UnFBlaMka(y, b) == (y - e) % U64;
    SubtractBack(a, e);
  }

  lemma DropHighHalf(y: int, b: nat)
    ensures (y - b) % U32 == (y - b % U32) % U32
  {
    ModDifference(y - b, y - b % U32, -(b / U32), U32);
  }

  lemma SolvedForLow(y: int, b: nat, bl: nat, al: nat, x: int)
    requires al < U32 && bl == b % U32 && (al + x) % U32 == (y - bl) % U32
    ensures (y - (b + x)) % U32 == al
  {
    ModShift(al + x, y - bl, x, U32);
    DropHighHalf(y - x, b);
  }

  lemma SolvedLowHalf(y: Word, b: Word, bl: nat, al: nat, inv: nat)
    requires bl == b % U32 && ((1 + 2 * bl) * inv) % U32 == 1
    requires al == ((y - bl) * inv) % U32
    ensures (y - (b + 2 * al * bl)) % U32 == al
  {
    assert (al * (1 + 2 * bl)) % U32 == (y - bl) % U32 by {
      SolveOdd(y - bl, 1 + 2 * bl, inv);
    }
    SolvedForLow(y, b, bl, al, 2 * al * bl) by {
      OddProduct(al, bl);
    }
  }

  lemma UnFBlaMkaInvertible(y: Word, b: Word)
    ensures FBlaMka(UnFBlaMka(y, b), b) == y
  {
    hide OddInverse;
    var bl := b % U32;
    var al := ((y - bl) * OddInverse(1 + 2 * bl)) % U32;
    var e := b + 2 * al * bl;
    var a := UnFBlaMka(y, b);
    assert a == (y - e) % U64;
    assert a % U32 == al by {
      SolvedLowHalf(y, b, bl, al, OddInverse(1 + 2 * bl));
      ModMod(y - e, U32, U32);
    }
    assert FBlaMka(a, b) == (a + e) % U64;
    SubtractBack(y, -e);
  }

  // ----- G_mix -----------------------------------------------------------------------------

  function GMix(q: Quad): Quad {
    var a := FBlaMka(q.a, q.b);
    var d := Rotr64(XorWord(q.d, a), 32);
    var c := FBlaMka(q.c, d);
    var b := Rotr64(XorWord(q.b, c), 24);
    var a' := FBlaMka(a, b);
    var d' := Rotr64(XorWord(d, a'), 16);
    var c' := FBlaMka(c, d');
    var b' := Rotr64(XorWord(b, c'), 63);
    Quad(a', b', c', d')
  }

  /** The eight steps of G_mix undone, last step first. */
  function UnGMix(q: Quad): Quad {
    var b := XorWord(Rotr64(q.b, 1), q.c);
    var c := UnFBlaMka(q.c, q.d);
    var d := XorWord(Rotr64(q.d, 48), q.a);
    var a := UnFBlaMka(q.a, b);
    var b' := XorWord(Rotr64(b, 40), c);
    var c' := UnFBlaMka(c, d);
    var d' := XorWord(Rotr64(d, 32), a);
    var a' := UnFBlaMka(a, b');
    Quad(a', b', c', d')
  }

  /** One step "x = rotr64(x ^ y, n)" of G_mix and its undoing, in both orders. */
  lemma XorRotateInverse(x: Word, y: Word, n: nat)
    requires 0 < n < 64
    ensures XorWord(Rotr64(Rotr64(XorWord(x, y), n), 64 - n), y) == x
    ensures Rotr64(XorWord(XorWord(Rotr64(x, 64 - n), y), y), n) == x
  {
    RotrInverse(XorWord(x, y), n);
    XorWordCancels(x, y);
    XorWordCancels(Rotr64(x, 64 - n), y);
    RotrInverse(x, 64 - n);
    assert 64 - (64 - n) == n;
  }

  lemma GMixInvertible(q: Quad)
    ensures UnGMix(GMix(q)) == q
  {
    var a := FBlaMka(q.a, q.b);
    var d := Rotr64(XorWord(q.d, a), 32);
    var c := FBlaMka(q.c, d);
    var b := Rotr64(XorWord(q.b, c), 24);
    var a' := FBlaMka(a, b);
    var d' := Rotr64(XorWord(d, a'), 16);
    var c' := FBlaMka(c, d');
    XorRotateInverse(b, c', 63);
    FBlaMkaInvertible(c, d');
    XorRotateInverse(d, a', 16);
    FBlaMkaInvertible(a, b);
    XorRotateInverse(q.b, c, 24);
    FBlaMkaInvertible(q.c, d);
    XorRotateInverse(q.d, a, 32);
    FBlaMkaInvertible(q.a, q.b);
  }

  lemma UnGMixInvertible(q: Quad)
    ensures GMix(UnGMix(q)) == q
  {
    var b := XorWord(Rotr64(q.b, 1), q.c);
    var c := UnFBlaMka(q.c, q.d);
    var d := XorWord(Rotr64(q.d, 48), q.a);
    var a := UnFBlaMka(q.a, b);
    var b' := XorWord(Rotr64(b, 40), c);
    var c' := UnFBlaMka(c, d);
    var d' := XorWord(Rotr64(d, 32), a);
    UnFBlaMkaInvertible(a, b');
    XorRotateInverse(d, a, 32);
    UnFBlaMkaInvertible(c, d);
    XorRotateInverse(b, c, 24);
    UnFBlaMkaInvertible(q.a, b);
    XorRotateInverse(q.d, q.a, 16);
    UnFBlaMkaInvertible(q.c, q.d);
    XorRotateInverse(q.b, q.c, 63);
  }

  // ----- Permutation P ---------------------------------------------------------------------

  type Sixteen = v: seq<Word> | |v| == 16 witness seq(16, _ => 0)

  /** Applies f to one word from each row of the 4x4 square. */
  function AtFour(f: Quad -> Quad, v: Sixteen, a: nat, b: nat, c: nat, d: nat): Sixteen
    requires a < 4 <= b < 8 <= c < 12 <= d < 16
  {
    var q := f(Quad(v[a], v[b], v[c], v[d]));
    v[a := q.a][b := q.b][c := q.c][d := q.d]
  }

  /** Row r of the square rotated by r * skew: skew 0 walks the columns, skew 1 the diagonals. */
  function Skewed(f: Quad -> Quad, v: Sixteen, i: nat, skew: nat): Sixteen
    requires i < 4
  {
    AtFour(f, v, i, 4 + (i + skew) % 4, 8 + (i + 2 * skew) % 4, 12 + (i + 3 * skew) % 4)
  }

  /** Columns first, then diagonals. */
  function ColumnsThenDiagonals(f: Quad -> Quad, v: Sixteen): Sixteen {
    var c := Skewed(f, Skewed(f, Skewed(f, Skewed(f, v, 0, 0), 1, 0), 2, 0), 3, 0);
    Skewed(f, Skewed(f, Skewed(f, Skewed(f, c, 0, 1), 1, 1), 2, 1), 3, 1)
  }

  /** The same eight places in the opposite order. */
  function DiagonalsThenColumns(f: Quad -> Quad, v: Sixteen): Sixteen {
    var d := Skewed(f, Skewed(f, Skewed(f, Skewed(f, v, 3, 1), 2, 1), 1, 1), 0, 1);
    Skewed(f, Skewed(f, Skewed(f, Skewed(f, d, 3, 0), 2, 0), 1, 0), 0, 0)
  }

  /** Permutation P of section 3.6 of RFC 9106. */
  function P(v: Sixteen): Sixteen {
    ColumnsThenDiagonals(GMix, v)
  }

  function UnP(v: Sixteen): Sixteen {
    DiagonalsThenColumns(UnGMix, v)
  }

  ghost predicate Undoes(g: Quad -> Quad, f: Quad -> Quad) {
    forall q :: g(f(q)) == q
  }

  lemma SkewedInverse(g: Quad -> Quad, f: Quad -> Quad, v: Sixteen, i: nat, skew: nat)
    requires Undoes(g, f) && i < 4
    ensures Skewed(g, Skewed(f, v, i, skew), i, skew) == v
  {
  }

  lemma GMixBijective()
    ensures Undoes(UnGMix, GMix) && Undoes(GMix, UnGMix)
  {
    forall q: Quad
      ensures UnGMix(GMix(q)) == q && GMix(UnGMix(q)) == q
    {
      GMixInvertible(q);
      UnGMixInvertible(q);
    }
  }

  lemma DiagonalsUndo(g: Quad -> Quad, f: Quad -> Quad, v: Sixteen)
    requires Undoes(g, f)
    ensures DiagonalsThenColumns(g, ColumnsThenDiagonals(f, v)) == v
  {
    var v1 := Skewed(f, v, 0, 0);
    var v2 := Skewed(f, v1, 1, 0);
    var v3 := Skewed(f, v2, 2, 0);
    var v4 := Skewed(f, v3, 3, 0);
    var v5 := Skewed(f, v4, 0, 1);
    var v6 := Skewed(f, v5, 1, 1);
    var v7 := Skewed(f, v6, 2, 1);
    SkewedInverse(g, f, v7, 3, 1);
    SkewedInverse(g, f, v6, 2, 1);
    SkewedInverse(g, f, v5, 1, 1);
    SkewedInverse(g, f, v4, 0, 1);
    SkewedInverse(g, f, v3, 3, 0);
    SkewedInverse(g, f, v2, 2, 0);
    SkewedInverse(g, f, v1, 1, 0);
    SkewedInverse(g, f, v, 0, 0);
  }

  lemma ColumnsUndo(g: Quad -> Quad, f: Quad -> Quad, v: Sixteen)
    requires Undoes(g, f)
    ensures ColumnsThenDiagonals(g, DiagonalsThenColumns(f, v)) == v
  {
    var v1 := Skewed(f, v, 3, 1);
    var v2 := Skewed(f, v1, 2, 1);
    var v3 := Skewed(f, v2, 1, 1);
    var v4 := Skewed(f, v3, 0, 1);
    var v5 := Skewed(f, v4, 3, 0);
    var v6 := Skewed(f, v5, 2, 0);
    var v7 := Skewed(f, v6, 1, 0);
    SkewedInverse(g, f, v7, 0, 0);
    SkewedInverse(g, f, v6, 1, 0);
    SkewedInverse(g, f, v5, 2, 0);
    SkewedInverse(g, f, v4, 3, 0);
    SkewedInverse(g, f, v3, 0, 1);
    SkewedInverse(g, f, v2, 1, 1);
    SkewedInverse(g, f, v1, 2, 1);
    SkewedInverse(g, f, v, 3, 1);
  }

  /** P is a bijection on sixteen words. */
  lemma PBijective(v: Sixteen)
    ensures UnP(P(v)) == v
    ensures P(UnP(v)) == v
  {
    GMixBijective();
    DiagonalsUndo(UnGMix, GMix, v);
    ColumnsUndo(GMix, UnGMix, v);
  }

  method MixInPlace(v: array<Word>, a: nat, b: nat, c: nat, d: nat)
    requires v.Length == 16 && a < 4 <= b < 8 <= c < 12 <= d < 16
    modifies v
    ensures v[..] == AtFour(GMix, old(v[..]), a, b, c, d)
  {
    var q := GMix(Quad(v[a], v[b], v[c], v[d]));
    v[a], v[b], v[c], v[d] := q.a, q.b, q.c, q.d;
  }

  /** The index quadruples written out in _apply_P are the skewed lines. */
  lemma PlacesWrittenOut(f: Quad -> Quad, s: seq<Sixteen>)
    requires |s| == 9
    requires s[1] == AtFour(f, s[0], 0, 4, 8, 12) && s[2] == AtFour(f, s[1], 1, 5, 9, 13)
    requires s[3] == AtFour(f, s[2], 2, 6, 10, 14) && s[4] == AtFour(f, s[3], 3, 7, 11, 15)
    requires s[5] == AtFour(f, s[4], 0, 5, 10, 15) && s[6] == AtFour(f, s[5], 1, 6, 11, 12)
    requires s[7] == AtFour(f, s[6], 2, 7, 8, 13) && s[8] == AtFour(f, s[7], 3, 4, 9, 14)
    ensures s[8] == ColumnsThenDiagonals(f, s[0])
  {
    hide AtFour;
  }

  method ApplyP(v: array<Word>)
    requires v.Length == 16
    modifies v
    ensures v[..] == P(old(v[..]))
  {
    hide AtFour;
    ghost var v0 := v[..];
    MixInPlace(v, 0, 4, 8, 12);
    ghost var v1 := v[..];
    MixInPlace(v, 1, 5, 9, 13);
    ghost var v2 := v[..];
    MixInPlace(v, 2, 6, 10, 14);
    ghost var v3 := v[..];
    MixInPlace(v, 3, 7, 11, 15);
    ghost var v4 := v[..];
    MixInPlace(v, 0, 5, 10, 15);
    ghost var v5 := v[..];
    MixInPlace(v, 1, 6, 11, 12);
    ghost var v6 := v[..];
    MixInPlace(v, 2, 7, 8, 13);
    ghost var v7 := v[..];
    MixInPlace(v, 3, 4, 9, 14);
    PlacesWrittenOut(GMix, [v0, v1, v2, v3, v4, v5, v6, v7, v[..]]);
  }

  // ----- Block compression -----------------------------------------------------------------

  /** The 128 words of a block seen as 8 lines of 16 words, in two ways. */
  datatype Axis = Row | Column {

    /** Where word k of line l lies in the block. */
    function Index(l: nat, k: nat): (i: nat)
      requires l < 8 && k < 16
      ensures i < WORDS_PER_BLOCK
    {
      if this == Row then 16 * l + k else 2 * l + 16 * (k / 2) + k % 2
    }

    function LineOf(i: nat): (l: nat)
      requires i < WORDS_PER_BLOCK
      ensures l < 8
    {
      if this == Row then i / 16 else (i % 16) / 2
    }

    function SlotOf(i: nat): (k: nat)
      requires i < WORDS_PER_BLOCK
      ensures k < 16
    {
      if this == Row then i % 16 else 2 * (i / 16) + i % 2
    }

    /** The 16 words of line l. */
    function Line(q: Block, l: nat): Sixteen
      requires l < 8
    {
      seq(16, k requires 0 <= k < 16 => q[Index(l, k)])
    }

    /** f applied to all 8 lines at once, as section 3.5 of RFC 9106 defines the two passes. */
    function MapLines(f: Sixteen -> Sixteen, q: Block): Block {
      seq(WORDS_PER_BLOCK, i requires 0 <= i < WORDS_PER_BLOCK => MapAt(f, q, i))
    }

    function MapAt(f: Sixteen -> Sixteen, q: Block, i: nat): Word
      requires i < WORDS_PER_BLOCK
    {
      f(Line(q, LineOf(i)))[SlotOf(i)]
    }
  }

  lemma IndexJoins(x: Axis, i: nat)
    requires i < WORDS_PER_BLOCK
    ensures x.Index(x.LineOf(i), x.SlotOf(i)) == i
  {
    DivModUnique(x.SlotOf(i), if x == Row then 0 else i / 16, if x == Row then i % 16 else i % 2,
                 if x == Row then 16 else 2);
  }

  lemma IndexSplits(x: Axis, l: nat, k: nat)
    requires l < 8 && k < 16
    ensures x.LineOf(x.Index(l, k)) == l && x.SlotOf(x.Index(l, k)) == k
  {
    var i := x.Index(l, k);
    if x == Row {
      DivModUnique(i, l, k, 16);
    } else {
      DivModUnique(i, k / 2, 2 * l + k % 2, 16);
      DivModUnique(i % 16, l, k % 2, 2);
    }
  }

  /** Each axis splits the 128 positions into 8 lines without overlap. */
  lemma LinesPartition(x: Axis)
    ensures forall i | 0 <= i < WORDS_PER_BLOCK :: x.Index(x.LineOf(i), x.SlotOf(i)) == i
    ensures forall l, k | 0 <= l < 8 && 0 <= k < 16 ::
              x.LineOf(x.Index(l, k)) == l && x.SlotOf(x.Index(l, k)) == k
  {
    forall l, k | 0 <= l < 8 && 0 <= k < 16
      ensures x.LineOf(x.Index(l, k)) == l && x.SlotOf(x.Index(l, k)) == k
    {
      IndexSplits(x, l, k);
    }
    forall i | 0 <= i < WORDS_PER_BLOCK
      ensures x.Index(x.LineOf(i), x.SlotOf(i)) == i
    {
      IndexJoins(x, i);
    }
  }

  lemma MapLinesAt(x: Axis, f: Sixteen -> Sixteen, q: Block, l: nat)
    requires l < 8
    ensures x.Line(x.MapLines(f, q), l) == f(x.Line(q, l))
  {
    LinesPartition(x);
  }

  lemma MapLinesInverse(x: Axis, g: Sixteen -> Sixteen, f: Sixteen -> Sixteen, q: Block)
    requires forall v :: g(f(v)) == v
    ensures x.MapLines(g, x.MapLines(f, q)) == q
  {
    LinesPartition(x);
    forall l | 0 <= l < 8
      ensures x.Line(x.MapLines(f, q), l) == f(x.Line(q, l))
    {
      MapLinesAt(x, f, q, l);
    }
  }

  /** The map R -> Q inside the compression function. */
  function Permute(r: Block): Block {
    Column.MapLines(P, Row.MapLines(P, r))
  }

  function UnPermute(q: Block): Block {
    Row.MapLines(UnP, Column.MapLines(UnP, q))
  }

  /** R -> Q is a bijection on blocks. */
  lemma PermuteBijective(b: Block)
    ensures UnPermute(Permute(b)) == b
    ensures Permute(UnPermute(b)) == b
  {
    forall v: Sixteen
      ensures UnP(P(v)) == v && P(UnP(v)) == v
    {
      PBijective(v);
    }
    MapLinesInverse(Column, UnP, P, Row.MapLines(P, b));
    MapLinesInverse(Row, UnP, P, b);
    MapLinesInverse(Row, P, UnP, Column.MapLines(UnP, b));
    MapLinesInverse(Column, P, UnP, b);
  }

  function XorBlocks(x: Block, y: Block): Block {
    seq(WORDS_PER_BLOCK, i requires 0 <= i < WORDS_PER_BLOCK => XorWord(x[i], y[i]))
  }

  /** G(X, Y) of section 3.5 of RFC 9106. */
  function G(x: Block, y: Block): Block {
    XorBlocks(Permute(XorBlocks(x, y)), XorBlocks(x, y))
  }

  /** Writes the words of v back to line l. */
  method StoreLine(q: array<Word>, x: Axis, l: nat, v: Sixteen)
    requires q.Length == WORDS_PER_BLOCK && l < 8
    modifies q
    ensures forall i | 0 <= i < WORDS_PER_BLOCK ::
              q[i] == if x.LineOf(i) == l then v[x.SlotOf(i)] else old(q[i])
  {
    LinesPartition(x);
    hide Axis.Index, Axis.LineOf, Axis.SlotOf;
    for k := 0 to 16
      invariant forall i | 0 <= i < WORDS_PER_BLOCK ::
                  q[i] == if x.LineOf(i) == l && x.SlotOf(i) < k then v[x.SlotOf(i)] else old(q[i])
    {
      q[x.Index(l, k)] := v[k];
    }
  }

  /** Takes out line l, permutes it and puts it back. */
  method PermuteLine(q: array<Word>, x: Axis, l: nat)
    requires q.Length == WORDS_PER_BLOCK && l < 8
    modifies q
    ensures forall i | 0 <= i < WORDS_PER_BLOCK ::
              q[i] == if x.LineOf(i) == l then P(x.Line(old(q[..]), l))[x.SlotOf(i)] else old(q[i])
  {
    hide P;
    var v := new Word[16](k requires 0 <= k < 16 reads q => q[x.Index(l, k)]);
    assert v[..] == x.Line(q[..], l);
    ApplyP(v);
    StoreLine(q, x, l, v[..]);
  }

  /** One of the two passes of _compress. */
  method PermuteLines(q: array<Word>, x: Axis)
    requires q.Length == WORDS_PER_BLOCK
    modifies q
    ensures q[..] == x.MapLines(P, old(q[..]))
  {
    ghost var r: Block := q[..];
    LinesPartition(x);
    hide P, Axis.Index, Axis.LineOf, Axis.SlotOf;
    for l := 0 to 8
      invariant forall i | 0 <= i < WORDS_PER_BLOCK ::
                  q[i] == if x.LineOf(i) < l then x.MapAt(P, r, i) else r[i]
    {
      assert x.Line(q[..], l) == x.Line(r, l);
      PermuteLine(q, x, l);
    }
  }

  method XorInto(out: array<Word>, y: seq<Word>)
    requires out.Length == |y| == WORDS_PER_BLOCK
    modifies out
    ensures out[..] == XorBlocks(old(out[..]), y)
  {
    for i := 0 to WORDS_PER_BLOCK
      invariant forall j | 0 <= j < WORDS_PER_BLOCK ::
                  out[j] == if j < i then XorWord(old(out[j]), y[j]) else old(out[j])
    {
      out[i] := XorWord(out[i], y[i]);
    }
  }

  method Compress(x: Block, y: Block, withXor: bool, cOld: Option<Block>) returns (z: Block)
    ensures z == if withXor && cOld.Some? then XorBlocks(G(x, y), cOld.value) else G(x, y)
  {
    hide P, XorWord;
    var r := XorBlocks(x, y);
    var q := new Word[WORDS_PER_BLOCK](i requires 0 <= i < WORDS_PER_BLOCK => r[i]);
    assert q[..] == r;
    PermuteLines(q, Row);
    PermuteLines(q, Column);
    XorInto(q, r);
    if withXor && cOld.Some? {
      XorInto(q, cOld.value);
    }
    z := q[..];
  }
}
