/**
 The step mappings of Keccak-p on 25 lanes, section 3.2 of FIPS 202, for any lane width. Lane (x, y) is
 element x + 5 * y of the state.
 */
module KeccakSpec {
  import opened Arithmetic

  /**
   The lane width and operations: exclusive or, the second operand where the first is not set, and rotation to the
   left.
   */
  datatype Lanes<!W> = Lanes(width: nat, xor: (W, W) -> W, andNot: (W, W) -> W, rol: (W, nat) -> W)

  function C<W>(l: Lanes<W>, a: seq<W>, x: nat): W
    requires |a| == 25 && x < 5
  {
    l.xor(l.xor(l.xor(l.xor(a[x], a[x + 5]), a[x + 10]), a[x + 15]), a[x + 20])
  }

  function D<W>(l: Lanes<W>, a: seq<W>, x: nat): W
    requires |a| == 25 && x < 5
  {
    l.xor(C(l, a, (x + 4) % 5), l.rol(C(l, a, (x + 1) % 5), 1))
  }

  function Theta<W>(l: Lanes<W>, a: seq<W>): (b: seq<W>)
    requires |a| == 25
    ensures |b| == 25
  {
    seq(25, i requires 0 <= i < 25 => l.xor(a[i], D(l, a, i % 5)))
  }

  /** The lane visited at step t of the walk (x, y) -> (y, 2x + 3y) from (1, 0). */
  function Walk(t: nat): (p: (nat, nat))
    ensures p.0 < 5 && p.1 < 5
  {
    if t == 0 then (1, 0)
    else
      var (x, y) := Walk(t - 1);
      (y, (2 * x + 3 * y) % 5)
  }

  function WalkIndex(t: nat): (i: nat)
    ensures i < 25
  {
    Walk(t).0 + 5 * Walk(t).1
  }

  /** The rotation of lane i: a triangular number for the step at which the walk visits it. */
  function OffsetFrom(i: nat, t: nat): nat
    requires t <= 24
    decreases 24 - t
  {
    if t == 24 then 0 else if WalkIndex(t) == i then (t + 1) * (t + 2) / 2 else OffsetFrom(i, t + 1)
  }

  function WalkOrder(): (order: seq<nat>)
    ensures |order| == 24 && forall t | 0 <= t < 24 :: 0 < order[t] < 25
  {
    [1, 10, 7, 11, 17, 18, 3, 5, 16, 8, 21, 24, 4, 15, 23, 19, 13, 12, 2, 20, 14, 22, 9, 6]
  }

  lemma ModuloFive(n: nat, q: nat, r: nat)
    requires n == 5 * q + r && r < 5
    ensures n % 5 == r && n / 5 == q
  {
  }

  lemma WalkStep(t: nat, x: nat, y: nat, q: nat, z: nat)
    requires Walk(t) == (x, y) && z < 5 && 2 * x + 3 * y == 5 * q + z
    ensures Walk(t + 1) == (y, z) && WalkIndex(t + 1) == y + 5 * z
  {
    ModuloFive(2 * x + 3 * y, q, z);
  }

  lemma EarlyWalk()
    ensures Walk(11) == (4, 4)
    ensures WalkIndex(0) == 1 && WalkIndex(1) == 10 && WalkIndex(2) == 7 && WalkIndex(3) == 11
    ensures WalkIndex(4) == 17 && WalkIndex(5) == 18 && WalkIndex(6) == 3 && WalkIndex(7) == 5
    ensures WalkIndex(8) == 16 && WalkIndex(9) == 8 && WalkIndex(10) == 21 && WalkIndex(11) == 24
  {
    assert Walk(0) == (1, 0) && WalkIndex(0) == 1;
    hide Walk, WalkIndex;
    WalkStep(0, 1, 0, 0, 2);
    WalkStep(1, 0, 2, 1, 1);
    WalkStep(2, 2, 1, 1, 2);
    WalkStep(3, 1, 2, 1, 3);
    WalkStep(4, 2, 3, 2, 3);
    WalkStep(5, 3, 3, 3, 0);
    WalkStep(6, 3, 0, 1, 1);
    WalkStep(7, 0, 1, 0, 3);
    WalkStep(8, 1, 3, 2, 1);
    WalkStep(9, 3, 1, 1, 4);
    WalkStep(10, 1, 4, 2, 4);
  }

  lemma LateWalk()
    ensures WalkIndex(12) == 4 && WalkIndex(13) == 15 && WalkIndex(14) == 23 && WalkIndex(15) == 19
    ensures WalkIndex(16) == 13 && WalkIndex(17) == 12 && WalkIndex(18) == 2 && WalkIndex(19) == 20
    ensures WalkIndex(24) == 1
    ensures WalkIndex(20) == 14 && WalkIndex(21) == 22 && WalkIndex(22) == 9 && WalkIndex(23) == 6
  {
    EarlyWalk();
    hide Walk, WalkIndex;
    WalkStep(11, 4, 4, 4, 0);
    WalkStep(12, 4, 0, 1, 3);
    WalkStep(13, 0, 3, 1, 4);
    WalkStep(14, 3, 4, 3, 3);
    WalkStep(15, 4, 3, 3, 2);
    WalkStep(16, 3, 2, 2, 2);
    WalkStep(17, 2, 2, 2, 0);
    WalkStep(18, 2, 0, 0, 4);
    WalkStep(19, 0, 4, 2, 2);
    WalkStep(20, 4, 2, 2, 4);
    WalkStep(21, 2, 4, 3, 1);
    WalkStep(22, 4, 1, 2, 1);
    WalkStep(23, 1, 1, 1, 0);
  }

  /** The order in which the walk visits the lanes. */
  lemma WalkTable(t: nat)
    requires t < 24
    ensures WalkIndex(t) == WalkOrder()[t]
  {
    hide Walk, WalkIndex;
    if t < 12 {
      EarlyWalk();
    } else {
      LateWalk();
    }
  }

  /** The rotation at each step of the walk, modulo 64. */
  function Rotations(): (amounts: seq<nat>)
    ensures |amounts| == 24
  {
    [1, 3, 6, 10, 15, 21, 28, 36, 45, 55, 2, 14, 27, 41, 56, 8, 25, 43, 62, 18, 39, 61, 20, 44]
  }

  lemma EarlyRotations(t: nat)
    requires t < 12
    ensures Rotations()[t] == (t + 1) * (t + 2) / 2 % 64
  {
  }

  /** The rotation at step t from the quotient of the triangular number by 64. */
  lemma RotationIs(t: nat, triangle: nat, q: nat, r: nat)
    requires (t + 1) * (t + 2) == 2 * triangle && triangle == 64 * q + r && r < 64
    ensures (t + 1) * (t + 2) / 2 % 64 == r
  {
  }

  lemma LateRotations(t: nat)
    requires 12 <= t < 24
    ensures Rotations()[t] == (t + 1) * (t + 2) / 2 % 64
  {
    var triangle := [91, 105, 120, 136, 153, 171, 190, 210, 231, 253, 276, 300][t - 12];
    var q := [1, 1, 1, 2, 2, 2, 2, 3, 3, 3, 4, 4][t - 12];
    RotationIs(t, triangle, q, Rotations()[t]);
  }

  lemma RotationTable(t: nat)
    requires t < 24
    ensures Rotations()[t] == (t + 1) * (t + 2) / 2 % 64
  {
    if t < 12 {
      EarlyRotations(t);
    } else {
      LateRotations(t);
    }
  }

  /** The walk visits the 24 lanes other than the first once each. */
  lemma WalkDistinct(t: nat, u: nat)
    requires t < u < 24
    ensures WalkOrder()[t] != WalkOrder()[u] && 0 < WalkOrder()[t] < 25
  {
  }

  /** Lane WalkOrder()[t] is found at step t, being at no earlier one. */
  lemma {:induction false} OffsetOfWalk(t: nat, from: nat)
    requires from <= t < 24
    ensures OffsetFrom(WalkOrder()[t], from) == (t + 1) * (t + 2) / 2
    decreases t - from
  {
    WalkTable(from);
    hide Walk, WalkIndex;
    if from < t {
      WalkDistinct(from, t);
      OffsetOfWalk(t, from + 1);
    }
  }

  lemma {:induction false} FirstLaneNotVisited(from: nat)
    requires from <= 24
    ensures OffsetFrom(0, from) == 0
    decreases 24 - from
  {
    hide Walk, WalkIndex;
    if from < 24 {
      WalkTable(from);
      FirstLaneNotVisited(from + 1);
    }
  }

  function Rho<W>(l: Lanes<W>, a: seq<W>): (b: seq<W>)
    requires |a| == 25 && l.width > 0
    ensures |b| == 25
  {
    seq(25, i requires 0 <= i < 25 => if i == 0 then a[0] else l.rol(a[i], OffsetFrom(i, 0) % l.width))
  }

  /** One lane after theta and rho. */
  lemma RhoThetaAt<W>(l: Lanes<W>, a: seq<W>, i: nat)
    requires |a| == 25 && l.width > 0 && i < 25
    ensures Rho(l, Theta(l, a))[i] ==
            if i == 0 then l.xor(a[0], D(l, a, 0))
            else l.rol(l.xor(a[i], D(l, a, i % 5)), OffsetFrom(i, 0) % l.width)
  {
    hide D, OffsetFrom;
  }

  /** The lane that pi moves to lane i: (x, y) receives (x + 3y, x). */
  function Source(i: nat): nat
    requires i < 25
    ensures Source(i) < 25
  {
    (i % 5 + 3 * (i / 5)) % 5 + 5 * (i % 5)
  }

  function Pi<W>(a: seq<W>): (b: seq<W>)
    requires |a| == 25
    ensures |b| == 25
  {
    seq(25, i requires 0 <= i < 25 => a[Source(i)])
  }

  /** The lane k places after lane i in its row. */
  function After(i: nat, k: nat): nat
    requires i < 25
    ensures After(i, k) < 25
  {
    5 * (i / 5) + (i + k) % 5
  }

  /** Where pi looks for lane (x, y), without division. */
  lemma SourceIs(i: nat, x: nat, y: nat, q: nat, z: nat)
    requires i == x + 5 * y && x < 5 && y < 5 && z < 5 && x + 3 * y == 5 * q + z
    ensures Source(i) == z + 5 * x
  {
    ModuloFive(i, y, x);
    ModuloFive(x + 3 * y, q, z);
  }

  /** Pi moves each lane of the walk to the place of the next. */
  lemma PiUndoesWalk(t: nat)
    ensures Source(WalkIndex(t + 1)) == WalkIndex(t)
  {
    var (x, y) := Walk(t);
    var z := (2 * x + 3 * y) % 5;
    var q := (2 * x + 3 * y) / 5;
    SourceIs(y + 5 * z, y, z, x + 2 * y - 3 * q, x);
    hide Source;
  }

  lemma AfterIs(i: nat, x: nat, y: nat, k: nat)
    requires i == x + 5 * y && x < 5 && y < 5 && k < 5
    ensures After(i, k) == if x + k < 5 then i + k else i + k - 5
  {
    ModuloFive(i, y, x);
    ModuloFive(i + k, if x + k < 5 then y else y + 1, if x + k < 5 then x + k else x + k - 5);
  }

  /** The same for the two lanes that chi combines with lane (x, y). */
  lemma Places(i: nat, x: nat, y: nat, q: nat, z: nat, i1: nat, i2: nat)
    requires i == x + 5 * y && x < 5 && y < 5 && z < 5 && x + 3 * y == 5 * q + z
    requires i1 == (if x == 4 then i - 4 else i + 1) && i2 == (if x >= 3 then i - 3 else i + 2)
    ensures Source(i) == z + 5 * x && After(i, 1) == i1 && After(i, 2) == i2
  {
    hide Source, After;
    SourceIs(i, x, y, q, z);
    AfterIs(i, x, y, 1);
    AfterIs(i, x, y, 2);
  }

  function Chi<W>(l: Lanes<W>, a: seq<W>): (b: seq<W>)
    requires |a| == 25
    ensures |b| == 25
  {
    seq(25, i requires 0 <= i < 25 => l.xor(a[i], l.andNot(a[After(i, 1)], a[After(i, 2)])))
  }

  function Iota<W>(l: Lanes<W>, a: seq<W>, rc: W): (b: seq<W>)
    requires |a| == 25
    ensures |b| == 25
  {
    a[0 := l.xor(a[0], rc)]
  }

  function Round<W>(l: Lanes<W>, a: seq<W>, rc: W): (b: seq<W>)
    requires |a| == 25 && l.width > 0
    ensures |b| == 25
  {
    Iota(l, Chi(l, Pi(Rho(l, Theta(l, a)))), rc)
  }

  /** The first n rounds with the given round constants. */
  function Rounds<W>(l: Lanes<W>, a: seq<W>, rcs: seq<W>, n: nat): (b: seq<W>)
    requires |a| == 25 && l.width > 0 && n <= |rcs|
    ensures |b| == 25
  {
    if n == 0 then a else Round(l, Rounds(l, a, rcs, n - 1), rcs[n - 1])
  }

  lemma RoundsBase<W>(l: Lanes<W>, a: seq<W>, rcs: seq<W>)
    requires |a| == 25 && l.width > 0
    ensures Rounds(l, a, rcs, 0) == a
  {
  }

  lemma RoundsStep<W>(l: Lanes<W>, a: seq<W>, rcs: seq<W>, n: nat)
    requires |a| == 25 && l.width > 0 && n < |rcs|
    ensures Rounds(l, a, rcs, n + 1) == Round(l, Rounds(l, a, rcs, n), rcs[n])
  {
    hide Round;
  }

  /** Lane i of a round, in terms of the three lanes after theta and rho that pi and chi bring there. */
  lemma RoundAt<W>(l: Lanes<W>, a: seq<W>, rc: W, i: nat, s0: nat, s1: nat, s2: nat)
    requires |a| == 25 && l.width > 0 && i < 25
    requires s0 == Source(i) && s1 == Source(After(i, 1)) && s2 == Source(After(i, 2))
    ensures
      var t := Rho(l, Theta(l, a));
      var e := l.xor(t[s0], l.andNot(t[s1], t[s2]));
      Round(l, a, rc)[i] == if i == 0 then l.xor(e, rc) else e
  {
    hide Rho, Theta, Source, After;
    var p := Pi(Rho(l, Theta(l, a)));
    assert Chi(l, p)[i] == l.xor(p[i], l.andNot(p[After(i, 1)], p[After(i, 2)]));
  }

  // ----- On bits: algorithms 1 to 4 of sections 3.2.1 to 3.2.4 ----------------------------------------

  /** The operations on lanes act on their bits; a rotation by s moves bit z - s to bit z. */
  ghost predicate ActOnBits<W(!new)>(l: Lanes<W>, bit: (W, nat) -> bool) {
    && l.width > 0
    && (forall x, y, z: nat | z < l.width :: bit(l.xor(x, y), z) == (bit(x, z) != bit(y, z)))
    && (forall x, y, z: nat | z < l.width :: bit(l.andNot(x, y), z) == (!bit(x, z) && bit(y, z)))
    && (forall x, s: nat, z: nat | z < l.width :: bit(l.rol(x, s), z) == bit(x, (z - s) % l.width))
  }

  /** Going back by s and forth again. */
  lemma BackAndForth(z: nat, s: nat, width: nat)
    requires z < width
    ensures 0 <= (z - s) % width && ((z - s) % width + s) % width == z
  {
    var k := (z - s) % width;
    Euclid(z - s, width);
    ModDifference(k + s, z, -((z - s) / width), width);
    DivModUnique(z, 0, z, width);
  }

  /** The sum of the five bits of a column. */
  function Column<W>(bit: (W, nat) -> bool, a: seq<W>, x: nat, z: nat): bool
    requires |a| == 25 && x < 5
  {
    (((bit(a[x], z) != bit(a[x + 5], z)) != bit(a[x + 10], z)) != bit(a[x + 15], z)) != bit(a[x + 20], z)
  }

  lemma ParityOnBits<W(!new)>(l: Lanes<W>, bit: (W, nat) -> bool, a: seq<W>, x: nat, z: nat)
    requires ActOnBits(l, bit) && |a| == 25 && x < 5 && z < l.width
    ensures bit(C(l, a, x), z) == Column(bit, a, x, z)
  {
  }

  /** Theta adds to each bit the columns to the left, and to the right one position below. */
  lemma ThetaOnBits<W(!new)>(l: Lanes<W>, bit: (W, nat) -> bool, a: seq<W>, x: nat, y: nat, z: nat)
    requires ActOnBits(l, bit) && |a| == 25 && x < 5 && y < 5 && z < l.width
    ensures bit(Theta(l, a)[x + 5 * y], z) ==
            ((bit(a[x + 5 * y], z) != Column(bit, a, (x + 4) % 5, z)) != Column(bit, a, (x + 1) % 5, (z - 1) % l.width))
  {
    hide C, Column;
    ModuloFive(x + 5 * y, y, x);
    ParityOnBits(l, bit, a, (x + 4) % 5, z);
    ParityOnBits(l, bit, a, (x + 1) % 5, (z - 1) % l.width);
    assert D(l, a, x) == l.xor(C(l, a, (x + 4) % 5), l.rol(C(l, a, (x + 1) % 5), 1));
    assert Theta(l, a)[x + 5 * y] == l.xor(a[x + 5 * y], D(l, a, x));
  }

  /** Rho moves the bits of the lane at step t of the walk by a triangular number, and leaves the first lane. */
  lemma RhoOnBits<W(!new)>(l: Lanes<W>, bit: (W, nat) -> bool, a: seq<W>, t: nat, z: nat)
    requires ActOnBits(l, bit) && |a| == 25 && t < 24 && z < l.width
    ensures bit(Rho(l, a)[0], z) == bit(a[0], z)
    ensures bit(Rho(l, a)[WalkIndex(t)], z) == bit(a[WalkIndex(t)], (z - (t + 1) * (t + 2) / 2) % l.width)
  {
    hide OffsetFrom, Walk, WalkIndex;
    WalkTable(t);
    OffsetOfWalk(t, 0);
    var offset := OffsetFrom(WalkIndex(t), 0);
    Euclid(offset, l.width);
    ModDifference(z - offset % l.width, z - offset, offset / l.width, l.width);
  }

  /** Pi brings lane (x + 3y, x) to (x, y). */
  lemma PiOnLanes<W>(a: seq<W>, x: nat, y: nat)
    requires |a| == 25 && x < 5 && y < 5
    ensures Pi(a)[x + 5 * y] == a[(x + 3 * y) % 5 + 5 * x]
  {
    ModuloFive(x + 5 * y, y, x);
  }

  /** Chi adds to each bit the product of the complement of the next bit in its row and the one after. */
  lemma ChiOnBits<W(!new)>(l: Lanes<W>, bit: (W, nat) -> bool, a: seq<W>, x: nat, y: nat, z: nat)
    requires ActOnBits(l, bit) && |a| == 25 && x < 5 && y < 5 && z < l.width
    ensures bit(Chi(l, a)[x + 5 * y], z) ==
            (bit(a[x + 5 * y], z) !=
              (!bit(a[(x + 1) % 5 + 5 * y], z) && bit(a[(x + 2) % 5 + 5 * y], z)))
  {
    ModuloFive(x + 5 * y, y, x);
    hide After;
    AfterIs(x + 5 * y, x, y, 1);
    AfterIs(x + 5 * y, x, y, 2);
  }

  // ----- Round constants: section 3.2.5 --------------------------------------------------------------

  /** One step of the linear feedback shift register; bit 0 is the output. */
  function Shift(r: bv8): bv8 {
    (r << 1) ^ (if r & 0x80 != 0 then 0x71 else 0)
  }

  /** The register after t steps. */
  function Register(t: nat): bv8 {
    if t == 0 then 1 else Shift(Register(t - 1))
  }

  function Bit(r: bv8): bv64 {
    (r & 1) as bv64
  }

  function ConstantBits(r0: bv8): bv64 {
    var r1 := Shift(r0);
    var r2 := Shift(r1);
    var r3 := Shift(r2);
    var r4 := Shift(r3);
    var r5 := Shift(r4);
    var r6 := Shift(r5);
    Bit(r0) | (Bit(r1) << 1) | (Bit(r2) << 3) | (Bit(r3) << 7) | (Bit(r4) << 15) | (Bit(r5) << 31) | (Bit(r6) << 63)
  }

  /** The round constant of round ir: bit 2^j - 1 is rc(j + 7 * ir), for j = 0..6. */
  function RoundConstant(ir: nat): bv64 {
    ConstantBits(Register(7 * ir))
  }

  function SevenSteps(r: bv8): bv8 {
    Shift(Shift(Shift(Shift(Shift(Shift(Shift(r)))))))
  }

  /** One round constant from the register at the start of its round, and the register at the start of the next. */
  lemma ConstantOf(ir: nat, r: bv8)
    requires Register(7 * ir) == r
    ensures RoundConstant(ir) == ConstantBits(r) && Register(7 * (ir + 1)) == SevenSteps(r)
  {
    var t := 7 * ir;
    assert Register(t + 1) == Shift(r);
    assert Register(t + 2) == Shift(Register(t + 1));
    assert Register(t + 3) == Shift(Register(t + 2));
    assert Register(t + 4) == Shift(Register(t + 3));
    assert Register(t + 5) == Shift(Register(t + 4));
    assert Register(t + 6) == Shift(Register(t + 5));
    assert Register(t + 7) == Shift(Register(t + 6));
    hide Shift, ConstantBits;
  }

  /** The constants computed. */
  lemma EarlyConstants()
    ensures RoundConstant(0) == 0x0000000000000001
    ensures RoundConstant(1) == 0x0000000000008082
    ensures RoundConstant(2) == 0x800000000000808a
    ensures RoundConstant(3) == 0x8000000080008000
    ensures RoundConstant(4) == 0x000000000000808b
    ensures RoundConstant(5) == 0x0000000080000001
    ensures RoundConstant(6) == 0x8000000080008081
    ensures RoundConstant(7) == 0x8000000000008009
    ensures Register(56) == 0xca
  {
    assert Register(7 * 0) == 1;
    hide Register, RoundConstant;
    ConstantOf(0, 0x01);
    ConstantOf(1, 0x80);
    ConstantOf(2, 0xd8);
    ConstantOf(3, 0x1a);
    ConstantOf(4, 0xdf);
    ConstantOf(5, 0x09);
    ConstantOf(6, 0x35);
    ConstantOf(7, 0x4f);
  }

  lemma MiddleConstants()
    ensures RoundConstant(8) == 0x000000000000008a
    ensures RoundConstant(9) == 0x0000000000000088
    ensures RoundConstant(10) == 0x0000000080008009
    ensures RoundConstant(11) == 0x000000008000000a
    ensures RoundConstant(12) == 0x000000008000808b
    ensures RoundConstant(13) == 0x800000000000008b
    ensures RoundConstant(14) == 0x8000000000008089
    ensures RoundConstant(15) == 0x8000000000008003
    ensures Register(112) == 0xaa
  {
    EarlyConstants();
    hide Register, RoundConstant;
    ConstantOf(8, 0xca);
    ConstantOf(9, 0x70);
    ConstantOf(10, 0x41);
    ConstantOf(11, 0xec);
    ConstantOf(12, 0xd5);
    ConstantOf(13, 0xcd);
    ConstantOf(14, 0x63);
    ConstantOf(15, 0xab);
  }

  lemma LateConstants()
    ensures RoundConstant(16) == 0x8000000000008002
    ensures RoundConstant(17) == 0x8000000000000080
    ensures RoundConstant(18) == 0x000000000000800a
    ensures RoundConstant(19) == 0x800000008000000a
    ensures RoundConstant(20) == 0x8000000080008081
    ensures RoundConstant(21) == 0x8000000000008080
    ensures RoundConstant(22) == 0x0000000080000001
    ensures RoundConstant(23) == 0x8000000080008008
    ensures Register(168) == 0x8e
  {
    MiddleConstants();
    hide Register, RoundConstant;
    ConstantOf(16, 0xaa);
    ConstantOf(17, 0x2a);
    ConstantOf(18, 0xf2);
    ConstantOf(19, 0xe8);
    ConstantOf(20, 0x37);
    ConstantOf(21, 0x3e);
    ConstantOf(22, 0x0b);
    ConstantOf(23, 0x44);
  }
}
