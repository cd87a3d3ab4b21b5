/** The permutation Keccak-f[1600], two unrolled rounds per iteration on 50 lane variables. */
module KeccakF1600 {
  import opened KeccakSpec

  /** A 64-bit word. */
  datatype Lane = Lane(bits: bv64)

  function RoundConstants(): (rcs: seq<Lane>)
    ensures |rcs| == 24
  {
    [
      Lane(0x0000000000000001), Lane(0x0000000000008082), Lane(0x800000000000808a), Lane(0x8000000080008000),
      Lane(0x000000000000808b), Lane(0x0000000080000001), Lane(0x8000000080008081), Lane(0x8000000000008009),
      Lane(0x000000000000008a), Lane(0x0000000000000088), Lane(0x0000000080008009), Lane(0x000000008000000a),
      Lane(0x000000008000808b), Lane(0x800000000000008b), Lane(0x8000000000008089), Lane(0x8000000000008003),
      Lane(0x8000000000008002), Lane(0x8000000000000080), Lane(0x000000000000800a), Lane(0x800000008000000a),
      Lane(0x8000000080008081), Lane(0x8000000000008080), Lane(0x0000000080000001), Lane(0x8000000080008008)
    ]
  }

  /** The constants of the code are those of the shift register. */
  lemma RoundConstantsAreSpecified(ir: nat)
    requires ir < 24
    ensures RoundConstants()[ir] == Lane(RoundConstant(ir))
  {
    EarlyConstants();
    MiddleConstants();
    LateConstants();
    hide RoundConstant, Register;
  }

  function XorBits(x: bv64, y: bv64): bv64 { x ^ y }

  function Xor(x: Lane, y: Lane): Lane { Lane(XorBits(x.bits, y.bits)) }

  /** ~x & y */
  function AndNot(x: Lane, y: Lane): Lane { Lane(!x.bits & y.bits) }

  /** A number as a shift amount or the position of a bit: 6 bits, which count modulo 64. */
  function At(s: nat): bv6 {
    if s == 0 then 0 else At(s - 1) + 1
  }

  function ShiftedLeft(x: bv64, n: bv6): bv64 { x << n }

  function ShiftedRight(x: bv64, n: bv6): bv64 { x >> (64 - n as bv7) }

  /** (x << s) | (x >> (64 - s)), s modulo 64 */
  function Rol64(x: Lane, s: nat): Lane {
    Lane(ShiftedLeft(x.bits, At(s)) | ShiftedRight(x.bits, At(s)))
  }

  /** Lanes of 64 bits. */
  function Lanes64(): (l: Lanes<Lane>)
    ensures l.width == 64
  {
    Lanes(64, Xor, AndNot, Rol64)
  }

  // ----- What the operations do to bits --------------------------------------------------------------

  predicate BitOf(x: bv64, i: bv6) { (x >> i) & 1 == 1 }

  /** The word with bit n only. */
  lemma SingleBit(n: bv6, i: bv6)
    ensures BitOf(1 << n, i) == (i == n)
  {
  }

  /** Bit z of a lane. */
  predicate LaneBit(x: Lane, z: nat) { BitOf(x.bits, At(z)) }

  lemma XorBit(x: bv64, y: bv64, i: bv6)
    ensures BitOf(x ^ y, i) == (BitOf(x, i) != BitOf(y, i))
  {
  }

  lemma AndNotBit(x: bv64, y: bv64, i: bv6)
    ensures BitOf(!x & y, i) == (!BitOf(x, i) && BitOf(y, i))
  {
  }

  lemma OrBit(x: bv64, y: bv64, i: bv6)
    ensures BitOf(x | y, i) == (BitOf(x, i) || BitOf(y, i))
  {
  }

  lemma ShortMovesUp(x: bv64, n: bv6, i: bv6)
    requires i + n >= i && n < 16
    ensures BitOf(x << n, i + n) == BitOf(x, i)
  {
  }

  lemma MiddleMovesUp(x: bv64, n: bv6, i: bv6)
    requires i + n >= i && 16 <= n < 32
    ensures BitOf(x << n, i + n) == BitOf(x, i)
  {
  }

  lemma LongMovesUp(x: bv64, n: bv6, i: bv6)
    requires i + n >= i && 32 <= n
    ensures BitOf(x << n, i + n) == BitOf(x, i)
  {
  }

  lemma MovesUp(x: bv64, n: bv6, i: bv6)
    requires i + n >= i
    ensures BitOf(ShiftedLeft(x, n), i + n) == BitOf(x, i)
  {
    hide BitOf;
    if n < 16 {
      ShortMovesUp(x, n, i);
    } else if n < 32 {
      MiddleMovesUp(x, n, i);
    } else {
      LongMovesUp(x, n, i);
    }
  }

  lemma NothingFromRight(x: bv64, n: bv6, i: bv6)
    requires i + n >= i
    ensures !BitOf(ShiftedRight(x, n), i + n)
  {
  }

  lemma LowMovesRound(x: bv64, n: bv6, i: bv6)
    requires i + n < i && i < 32
    ensures BitOf(x >> (64 - n as bv7), i + n) == BitOf(x, i)
  {
  }

  lemma MiddleMovesRound(x: bv64, n: bv6, i: bv6)
    requires i + n < i && 32 <= i < 48
    ensures BitOf(x >> (64 - n as bv7), i + n) == BitOf(x, i)
  {
  }

  lemma HighMovesRound(x: bv64, n: bv6, i: bv6)
    requires i + n < i && 48 <= i
    ensures BitOf(x >> (64 - n as bv7), i + n) == BitOf(x, i)
  {
  }

  lemma MovesRound(x: bv64, n: bv6, i: bv6)
    requires i + n < i
    ensures BitOf(ShiftedRight(x, n), i + n) == BitOf(x, i)
  {
    hide BitOf;
    if i < 32 {
      LowMovesRound(x, n, i);
    } else if i < 48 {
      MiddleMovesRound(x, n, i);
    } else {
      HighMovesRound(x, n, i);
    }
  }

  lemma NothingFromLeft(x: bv64, n: bv6, i: bv6)
    requires i + n < i
    ensures !BitOf(ShiftedLeft(x, n), i + n)
  {
  }

  /** Positions wrap around at 64. */
  lemma TurnBit(x: bv64, n: bv6, i: bv6)
    ensures BitOf(ShiftedLeft(x, n) | ShiftedRight(x, n), i + n) == BitOf(x, i)
  {
    hide BitOf, ShiftedLeft, ShiftedRight;
    OrBit(ShiftedLeft(x, n), ShiftedRight(x, n), i + n);
    if i + n >= i {
      MovesUp(x, n, i);
      NothingFromRight(x, n, i);
    } else {
      MovesRound(x, n, i);
      NothingFromLeft(x, n, i);
    }
  }

  lemma AtNext(n: nat)
    ensures At(n + 1) == At(n) + 1
  {
  }

  lemma SumNext(a: bv6, b: bv6, c: bv6)
    requires c == a + b
    ensures c + 1 == a + (b + 1)
  {
  }

  lemma {:induction false} AtSum(a: nat, b: nat)
    ensures At(a + b) == At(a) + At(b)
  {
    if b > 0 {
      AtNext(b - 1);
      AtNext(a + b - 1);
      hide At;
      AtSum(a, b - 1);
      SumNext(At(a), At(b - 1), At(a + b - 1));
    }
  }

  lemma AtWidth()
    ensures At(64) == 0
  {
    assert At(1) == 1;
    hide At;
    AtSum(1, 1);
    AtSum(2, 2);
    AtSum(4, 4);
    AtSum(8, 8);
    AtSum(16, 16);
    AtSum(32, 32);
  }

  lemma {:induction false} AtMultiple(m: nat)
    ensures At(64 * m) == 0
  {
    if m > 0 {
      AtMultiple(m - 1);
      AtWidth();
      AtSum(64 * (m - 1), 64);
    }
  }

  lemma AtModulo(s: nat)
    ensures At(s) == At(s % 64)
  {
    AtSum(s % 64, 64 * (s / 64));
    AtMultiple(s / 64);
    hide At;
  }

  lemma AtDifference(z: nat, s: nat)
    requires z < 64
    ensures At((z - s) % 64) + At(s) == At(z)
  {
    hide At;
    BackAndForth(z, s, 64);
    AtSum((z - s) % 64, s);
    AtModulo((z - s) % 64 + s);
  }

  /** Bit z - s, modulo 64, moves to bit z. */
  lemma Rol64Bit(x: Lane, s: nat, z: nat)
    requires z < 64
    ensures LaneBit(Rol64(x, s), z) == LaneBit(x, (z - s) % 64)
  {
    hide BitOf, At, ShiftedLeft, ShiftedRight;
    AtDifference(z, s);
    TurnBit(x.bits, At(s), At((z - s) % 64));
  }

  lemma XorLaneBit(x: Lane, y: Lane, z: nat)
    ensures LaneBit(Xor(x, y), z) == (LaneBit(x, z) != LaneBit(y, z))
  {
    XorBit(x.bits, y.bits, At(z));
    hide BitOf, At;
  }

  lemma AndNotLaneBit(x: Lane, y: Lane, z: nat)
    ensures LaneBit(AndNot(x, y), z) == (!LaneBit(x, z) && LaneBit(y, z))
  {
    AndNotBit(x.bits, y.bits, At(z));
    hide BitOf, At;
  }

  /** The operations of the code are those of FIPS 202 on the bits of a lane. */
  lemma Lanes64OnBits()
    ensures ActOnBits(Lanes64(), LaneBit)
  {
    hide LaneBit, Xor, AndNot, Rol64;
    forall x, y, z: nat | z < 64
      ensures LaneBit(Lanes64().xor(x, y), z) == (LaneBit(x, z) != LaneBit(y, z))
      ensures LaneBit(Lanes64().andNot(x, y), z) == (!LaneBit(x, z) && LaneBit(y, z))
    {
      XorLaneBit(x, y, z);
      AndNotLaneBit(x, y, z);
    }
    forall x, s: nat, z: nat | z < 64
      ensures LaneBit(Lanes64().rol(x, s), z) == LaneBit(x, (z - s) % 64)
    {
      Rol64Bit(x, s, z);
    }
  }

  // ----- One unrolled round ----------------------------------------------------------------------------

  /** The rotation of each lane. */
  function Offset(i: nat): nat {
    match i
    case 0 => 0
    case 1 => 1
    case 2 => 62
    case 3 => 28
    case 4 => 27
    case 5 => 36
    case 6 => 44
    case 7 => 6
    case 8 => 55
    case 9 => 20
    case 10 => 3
    case 11 => 10
    case 12 => 43
    case 13 => 25
    case 14 => 39
    case 15 => 41
    case 16 => 45
    case 17 => 15
    case 18 => 21
    case 19 => 8
    case 20 => 18
    case 21 => 2
    case 22 => 61
    case 23 => 56
    case _ => 14
  }

  lemma EarlyOffsets(t: nat)
    requires t < 12
    ensures Offset(WalkOrder()[t]) == Rotations()[t]
  {
  }

  lemma LateOffsets(t: nat)
    requires 12 <= t < 24
    ensures Offset(WalkOrder()[t]) == Rotations()[t]
  {
  }

  lemma OffsetTable(t: nat)
    requires t < 24
    ensures Offset(WalkOrder()[t]) == OffsetFrom(WalkOrder()[t], 0) % 64
  {
    OffsetOfWalk(t, 0);
    RotationTable(t);
    hide OffsetFrom;
    if t < 12 {
      EarlyOffsets(t);
    } else {
      LateOffsets(t);
    }
  }

  /** Every lane other than the first is on the walk. */
  lemma OnTheWalk(i: nat) returns (t: nat)
    requires 0 < i < 25
    ensures t < 24 && WalkOrder()[t] == i
  {
    t := [0, 18, 6, 12, 7, 23, 2, 9, 22, 1, 3, 17, 16, 20, 13, 8, 4, 5, 15, 19, 10, 21, 14, 11][i - 1];
  }

  function Five<W>(a0: W, a1: W, a2: W, a3: W, a4: W): (s: seq<W>)
    ensures |s| == 5 && s[0] == a0 && s[1] == a1 && s[2] == a2 && s[3] == a3 && s[4] == a4
  {
    [a0, a1, a2, a3, a4]
  }

  /** The 25 lanes as a sequence. */
  function State<W>(a0: W, a1: W, a2: W, a3: W, a4: W, a5: W, a6: W, a7: W, a8: W, a9: W,
                    a10: W, a11: W, a12: W, a13: W, a14: W, a15: W, a16: W, a17: W, a18: W, a19: W,
                    a20: W, a21: W, a22: W, a23: W, a24: W): (s: seq<W>)
    ensures |s| == 25
    ensures s[0] == a0 && s[1] == a1 && s[2] == a2 && s[3] == a3 && s[4] == a4
    ensures s[5] == a5 && s[6] == a6 && s[7] == a7 && s[8] == a8 && s[9] == a9
    ensures s[10] == a10 && s[11] == a11 && s[12] == a12 && s[13] == a13 && s[14] == a14
    ensures s[15] == a15 && s[16] == a16 && s[17] == a17 && s[18] == a18 && s[19] == a19
    ensures s[20] == a20 && s[21] == a21 && s[22] == a22 && s[23] == a23 && s[24] == a24
  {
    Five(a0, a1, a2, a3, a4) + Five(a5, a6, a7, a8, a9) + Five(a10, a11, a12, a13, a14)
    + Five(a15, a16, a17, a18, a19) + Five(a20, a21, a22, a23, a24)
  }

  lemma StateOf<W>(s: seq<W>)
    requires |s| == 25
    ensures State(s[0], s[1], s[2], s[3], s[4], s[5], s[6], s[7], s[8], s[9],
                  s[10], s[11], s[12], s[13], s[14], s[15], s[16], s[17], s[18], s[19],
                  s[20], s[21], s[22], s[23], s[24]) == s
  {
    hide State;
  }

  lemma StateRows<W>(a0: W, a1: W, a2: W, a3: W, a4: W, a5: W, a6: W, a7: W, a8: W, a9: W,
                     a10: W, a11: W, a12: W, a13: W, a14: W, a15: W, a16: W, a17: W, a18: W, a19: W,
                     a20: W, a21: W, a22: W, a23: W, a24: W)
    ensures State(a0, a1, a2, a3, a4, a5, a6, a7, a8, a9,
                  a10, a11, a12, a13, a14, a15, a16, a17, a18, a19,
                  a20, a21, a22, a23, a24)
         == Five(a0, a1, a2, a3, a4) + Five(a5, a6, a7, a8, a9) + Five(a10, a11, a12, a13, a14)
            + Five(a15, a16, a17, a18, a19) + Five(a20, a21, a22, a23, a24)
  {
    hide Five;
  }

  /** The effects of theta on the five sheets, as the code computes them. */
  predicate IsEffect<W(==)>(l: Lanes<W>, a: seq<W>, d: seq<W>)
    requires |a| == 25 && |d| == 5
  {
    var c0 := l.xor(l.xor(l.xor(l.xor(a[0], a[5]), a[10]), a[15]), a[20]);
    var c1 := l.xor(l.xor(l.xor(l.xor(a[1], a[6]), a[11]), a[16]), a[21]);
    var c2 := l.xor(l.xor(l.xor(l.xor(a[2], a[7]), a[12]), a[17]), a[22]);
    var c3 := l.xor(l.xor(l.xor(l.xor(a[3], a[8]), a[13]), a[18]), a[23]);
    var c4 := l.xor(l.xor(l.xor(l.xor(a[4], a[9]), a[14]), a[19]), a[24]);
    && d[0] == l.xor(c4, l.rol(c1, 1))
    && d[1] == l.xor(c0, l.rol(c2, 1))
    && d[2] == l.xor(c1, l.rol(c3, 1))
    && d[3] == l.xor(c2, l.rol(c4, 1))
    && d[4] == l.xor(c3, l.rol(c0, 1))
  }

  lemma EffectIsD<W>(l: Lanes<W>, a: seq<W>, d: seq<W>, x: nat)
    requires |a| == 25 && |d| == 5 && x < 5 && IsEffect(l, a, d)
    ensures D(l, a, x) == d[x]
  {
  }

  /** Row 0 of one unrolled round: the five lanes pi moves there, combined by chi and iota. */
  predicate IsRow0<W(==)>(l: Lanes<W>, a: seq<W>, d: seq<W>, e: seq<W>, rc: W)
    requires |a| == 25 && |d| == 5 && |e| == 25
  {
    var ba := l.xor(a[0], d[0]);
    var be := l.rol(l.xor(a[6], d[1]), 44);
    var bi := l.rol(l.xor(a[12], d[2]), 43);
    var bo := l.rol(l.xor(a[18], d[3]), 21);
    var bu := l.rol(l.xor(a[24], d[4]), 14);
    && e[0] == l.xor(l.xor(ba, l.andNot(be, bi)), rc)
    && e[1] == l.xor(be, l.andNot(bi, bo))
    && e[2] == l.xor(bi, l.andNot(bo, bu))
    && e[3] == l.xor(bo, l.andNot(bu, ba))
    && e[4] == l.xor(bu, l.andNot(ba, be))
  }

  /** Row 1 of one unrolled round: the five lanes pi moves there, combined by chi. */
  predicate IsRow1<W(==)>(l: Lanes<W>, a: seq<W>, d: seq<W>, e: seq<W>)
    requires |a| == 25 && |d| == 5 && |e| == 25
  {
    var ba := l.rol(l.xor(a[3], d[3]), 28);
    var be := l.rol(l.xor(a[9], d[4]), 20);
    var bi := l.rol(l.xor(a[10], d[0]), 3);
    var bo := l.rol(l.xor(a[16], d[1]), 45);
    var bu := l.rol(l.xor(a[22], d[2]), 61);
    && e[5] == l.xor(ba, l.andNot(be, bi))
    && e[6] == l.xor(be, l.andNot(bi, bo))
    && e[7] == l.xor(bi, l.andNot(bo, bu))
    && e[8] == l.xor(bo, l.andNot(bu, ba))
    && e[9] == l.xor(bu, l.andNot(ba, be))
  }

  /** Row 2 of one unrolled round: the five lanes pi moves there, combined by chi. */
  predicate IsRow2<W(==)>(l: Lanes<W>, a: seq<W>, d: seq<W>, e: seq<W>)
    requires |a| == 25 && |d| == 5 && |e| == 25
  {
    var ba := l.rol(l.xor(a[1], d[1]), 1);
    var be := l.rol(l.xor(a[7], d[2]), 6);
    var bi := l.rol(l.xor(a[13], d[3]), 25);
    var bo := l.rol(l.xor(a[19], d[4]), 8);
    var bu := l.rol(l.xor(a[20], d[0]), 18);
    && e[10] == l.xor(ba, l.andNot(be, bi))
    && e[11] == l.xor(be, l.andNot(bi, bo))
    && e[12] == l.xor(bi, l.andNot(bo, bu))
    && e[13] == l.xor(bo, l.andNot(bu, ba))
    && e[14] == l.xor(bu, l.andNot(ba, be))
  }

  /** Row 3 of one unrolled round: the five lanes pi moves there, combined by chi. */
  predicate IsRow3<W(==)>(l: Lanes<W>, a: seq<W>, d: seq<W>, e: seq<W>)
    requires |a| == 25 && |d| == 5 && |e| == 25
  {
    var ba := l.rol(l.xor(a[4], d[4]), 27);
    var be := l.rol(l.xor(a[5], d[0]), 36);
    var bi := l.rol(l.xor(a[11], d[1]), 10);
    var bo := l.rol(l.xor(a[17], d[2]), 15);
    var bu := l.rol(l.xor(a[23], d[3]), 56);
    && e[15] == l.xor(ba, l.andNot(be, bi))
    && e[16] == l.xor(be, l.andNot(bi, bo))
    && e[17] == l.xor(bi, l.andNot(bo, bu))
    && e[18] == l.xor(bo, l.andNot(bu, ba))
    && e[19] == l.xor(bu, l.andNot(ba, be))
  }

  /** Row 4 of one unrolled round: the five lanes pi moves there, combined by chi. */
  predicate IsRow4<W(==)>(l: Lanes<W>, a: seq<W>, d: seq<W>, e: seq<W>)
    requires |a| == 25 && |d| == 5 && |e| == 25
  {
    var ba := l.rol(l.xor(a[2], d[2]), 62);
    var be := l.rol(l.xor(a[8], d[3]), 55);
    var bi := l.rol(l.xor(a[14], d[4]), 39);
    var bo := l.rol(l.xor(a[15], d[0]), 41);
    var bu := l.rol(l.xor(a[21], d[1]), 2);
    && e[20] == l.xor(ba, l.andNot(be, bi))
    && e[21] == l.xor(be, l.andNot(bi, bo))
    && e[22] == l.xor(bi, l.andNot(bo, bu))
    && e[23] == l.xor(bo, l.andNot(bu, ba))
    && e[24] == l.xor(bu, l.andNot(ba, be))
  }

  /** Lane (x, y) after theta and rho. */
  lemma LaneIs<W>(l: Lanes<W>, a: seq<W>, d: seq<W>, i: nat, x: nat, y: nat)
    requires |a| == 25 && |d| == 5 && l.width == 64 && x < 5 && y < 5 && i == x + 5 * y && IsEffect(l, a, d)
    ensures Rho(l, Theta(l, a))[i] == if i == 0 then l.xor(a[0], d[0]) else l.rol(l.xor(a[i], d[x]), Offset(i))
  {
    hide D, OffsetFrom, Offset, Rho, Theta, IsEffect;
    assert i % 5 == x;
    RhoThetaAt(l, a, i);
    EffectIsD(l, a, d, x);
    if i > 0 {
      var t := OnTheWalk(i);
      OffsetTable(t);
    }
  }

  lemma Row0<W>(l: Lanes<W>, a: seq<W>, d: seq<W>, e: seq<W>, rc: W)
    requires |a| == 25 && |d| == 5 && |e| == 25 && l.width == 64 && IsEffect(l, a, d)
    requires IsRow0(l, a, d, e, rc)
    ensures var r := Round(l, a, rc);
      r[0] == e[0] && r[1] == e[1] && r[2] == e[2] && r[3] == e[3] && r[4] == e[4]
  {
    hide Rho, Theta, IsEffect, Round, Source, After;
    Places(0, 0, 0, 0, 0, 1, 2);
    Places(1, 1, 0, 0, 1, 2, 3);
    Places(2, 2, 0, 0, 2, 3, 4);
    Places(3, 3, 0, 0, 3, 4, 0);
    Places(4, 4, 0, 0, 4, 0, 1);
    RoundAt(l, a, rc, 0, 0, 6, 12);
    RoundAt(l, a, rc, 1, 6, 12, 18);
    RoundAt(l, a, rc, 2, 12, 18, 24);
    RoundAt(l, a, rc, 3, 18, 24, 0);
    RoundAt(l, a, rc, 4, 24, 0, 6);
    LaneIs(l, a, d, 0, 0, 0);
    LaneIs(l, a, d, 6, 1, 1);
    LaneIs(l, a, d, 12, 2, 2);
    LaneIs(l, a, d, 18, 3, 3);
    LaneIs(l, a, d, 24, 4, 4);
  }

  lemma Row1<W>(l: Lanes<W>, a: seq<W>, d: seq<W>, e: seq<W>, rc: W)
    requires |a| == 25 && |d| == 5 && |e| == 25 && l.width == 64 && IsEffect(l, a, d)
    requires IsRow1(l, a, d, e)
    ensures var r := Round(l, a, rc);
      r[5] == e[5] && r[6] == e[6] && r[7] == e[7] && r[8] == e[8] && r[9] == e[9]
  {
    hide Rho, Theta, IsEffect, Round, Source, After;
    Places(5, 0, 1, 0, 3, 6, 7);
    Places(6, 1, 1, 0, 4, 7, 8);
    Places(7, 2, 1, 1, 0, 8, 9);
    Places(8, 3, 1, 1, 1, 9, 5);
    Places(9, 4, 1, 1, 2, 5, 6);
    RoundAt(l, a, rc, 5, 3, 9, 10);
    RoundAt(l, a, rc, 6, 9, 10, 16);
    RoundAt(l, a, rc, 7, 10, 16, 22);
    RoundAt(l, a, rc, 8, 16, 22, 3);
    RoundAt(l, a, rc, 9, 22, 3, 9);
    LaneIs(l, a, d, 3, 3, 0);
    LaneIs(l, a, d, 9, 4, 1);
    LaneIs(l, a, d, 10, 0, 2);
    LaneIs(l, a, d, 16, 1, 3);
    LaneIs(l, a, d, 22, 2, 4);
  }

  lemma Row2<W>(l: Lanes<W>, a: seq<W>, d: seq<W>, e: seq<W>, rc: W)
    requires |a| == 25 && |d| == 5 && |e| == 25 && l.width == 64 && IsEffect(l, a, d)
    requires IsRow2(l, a, d, e)
    ensures var r := Round(l, a, rc);
      r[10] == e[10] && r[11] == e[11] && r[12] == e[12] && r[13] == e[13] && r[14] == e[14]
  {
    hide Rho, Theta, IsEffect, Round, Source, After;
    Places(10, 0, 2, 1, 1, 11, 12);
    Places(11, 1, 2, 1, 2, 12, 13);
    Places(12, 2, 2, 1, 3, 13, 14);
    Places(13, 3, 2, 1, 4, 14, 10);
    Places(14, 4, 2, 2, 0, 10, 11);
    RoundAt(l, a, rc, 10, 1, 7, 13);
    RoundAt(l, a, rc, 11, 7, 13, 19);
    RoundAt(l, a, rc, 12, 13, 19, 20);
    RoundAt(l, a, rc, 13, 19, 20, 1);
    RoundAt(l, a, rc, 14, 20, 1, 7);
    LaneIs(l, a, d, 1, 1, 0);
    LaneIs(l, a, d, 7, 2, 1);
    LaneIs(l, a, d, 13, 3, 2);
    LaneIs(l, a, d, 19, 4, 3);
    LaneIs(l, a, d, 20, 0, 4);
  }

  lemma Row3<W>(l: Lanes<W>, a: seq<W>, d: seq<W>, e: seq<W>, rc: W)
    requires |a| == 25 && |d| == 5 && |e| == 25 && l.width == 64 && IsEffect(l, a, d)
    requires IsRow3(l, a, d, e)
    ensures var r := Round(l, a, rc);
      r[15] == e[15] && r[16] == e[16] && r[17] == e[17] && r[18] == e[18] && r[19] == e[19]
  {
    hide Rho, Theta, IsEffect, Round, Source, After;
    Places(15, 0, 3, 1, 4, 16, 17);
    Places(16, 1, 3, 2, 0, 17, 18);
    Places(17, 2, 3, 2, 1, 18, 19);
    Places(18, 3, 3, 2, 2, 19, 15);
    Places(19, 4, 3, 2, 3, 15, 16);
    RoundAt(l, a, rc, 15, 4, 5, 11);
    RoundAt(l, a, rc, 16, 5, 11, 17);
    RoundAt(l, a, rc, 17, 11, 17, 23);
    RoundAt(l, a, rc, 18, 17, 23, 4);
    RoundAt(l, a, rc, 19, 23, 4, 5);
    LaneIs(l, a, d, 4, 4, 0);
    LaneIs(l, a, d, 5, 0, 1);
    LaneIs(l, a, d, 11, 1, 2);
    LaneIs(l, a, d, 17, 2, 3);
    LaneIs(l, a, d, 23, 3, 4);
  }

  lemma Row4<W>(l: Lanes<W>, a: seq<W>, d: seq<W>, e: seq<W>, rc: W)
    requires |a| == 25 && |d| == 5 && |e| == 25 && l.width == 64 && IsEffect(l, a, d)
    requires IsRow4(l, a, d, e)
    ensures var r := Round(l, a, rc);
      r[20] == e[20] && r[21] == e[21] && r[22] == e[22] && r[23] == e[23] && r[24] == e[24]
  {
    hide Rho, Theta, IsEffect, Round, Source, After;
    Places(20, 0, 4, 2, 2, 21, 22);
    Places(21, 1, 4, 2, 3, 22, 23);
    Places(22, 2, 4, 2, 4, 23, 24);
    Places(23, 3, 4, 3, 0, 24, 20);
    Places(24, 4, 4, 3, 1, 20, 21);
    RoundAt(l, a, rc, 20, 2, 8, 14);
    RoundAt(l, a, rc, 21, 8, 14, 15);
    RoundAt(l, a, rc, 22, 14, 15, 21);
    RoundAt(l, a, rc, 23, 15, 21, 2);
    RoundAt(l, a, rc, 24, 21, 2, 8);
    LaneIs(l, a, d, 2, 2, 0);
    LaneIs(l, a, d, 8, 3, 1);
    LaneIs(l, a, d, 14, 4, 2);
    LaneIs(l, a, d, 15, 0, 3);
    LaneIs(l, a, d, 21, 1, 4);
  }

  lemma HalfRoundIsRound<W>(l: Lanes<W>, a: seq<W>, d: seq<W>, e: seq<W>, rc: W)
    requires |a| == 25 && |d| == 5 && |e| == 25 && l.width == 64 && IsEffect(l, a, d)
    requires IsRow0(l, a, d, e, rc) && IsRow1(l, a, d, e) && IsRow2(l, a, d, e)
          && IsRow3(l, a, d, e) && IsRow4(l, a, d, e)
    ensures e == Round(l, a, rc)
  {
    hide IsRow0, IsRow1, IsRow2, IsRow3, IsRow4, IsEffect, Round;
    Row0(l, a, d, e, rc);
    Row1(l, a, d, e, rc);
    Row2(l, a, d, e, rc);
    Row3(l, a, d, e, rc);
    Row4(l, a, d, e, rc);
    var r := Round(l, a, rc);
    StateOf(r);
    StateOf(e);
    hide State;
  }

  /** Writes one row of lanes back. */
  method StoreRow(state: array<Lane>, i: nat, a0: Lane, a1: Lane, a2: Lane, a3: Lane, a4: Lane)
    requires i + 5 <= state.Length
    modifies state
    ensures state[..i + 5] == old(state[..i]) + Five(a0, a1, a2, a3, a4)
  {
    state[i], state[i + 1], state[i + 2], state[i + 3], state[i + 4] := a0, a1, a2, a3, a4;
  }

  /** Writes the lanes back. */
  method Store(state: array<Lane>,
               a0: Lane, a1: Lane, a2: Lane, a3: Lane, a4: Lane, a5: Lane, a6: Lane, a7: Lane, a8: Lane,
               a9: Lane, a10: Lane, a11: Lane, a12: Lane, a13: Lane, a14: Lane, a15: Lane, a16: Lane, a17: Lane,
               a18: Lane, a19: Lane, a20: Lane, a21: Lane, a22: Lane, a23: Lane, a24: Lane)
    requires state.Length == 25
    modifies state
    ensures state[..] == State(a0, a1, a2, a3, a4, a5, a6, a7, a8, a9,
                               a10, a11, a12, a13, a14, a15, a16, a17, a18, a19,
                               a20, a21, a22, a23, a24)
  {
    hide Five, State;
    StoreRow(state, 0, a0, a1, a2, a3, a4);
    StoreRow(state, 5, a5, a6, a7, a8, a9);
    StoreRow(state, 10, a10, a11, a12, a13, a14);
    StoreRow(state, 15, a15, a16, a17, a18, a19);
    StoreRow(state, 20, a20, a21, a22, a23, a24);
    StateRows(a0, a1, a2, a3, a4, a5, a6, a7, a8, a9,
              a10, a11, a12, a13, a14, a15, a16, a17, a18, a19,
              a20, a21, a22, a23, a24);
    assert state[..] == state[..25];
  }

  /** The first round of an iteration, from the lanes Axx to the lanes Exx. */
  method RoundAxxToExx(Aba: Lane, Abe: Lane, Abi: Lane, Abo: Lane, Abu: Lane,
                Aga: Lane, Age: Lane, Agi: Lane, Ago: Lane, Agu: Lane,
                Aka: Lane, Ake: Lane, Aki: Lane, Ako: Lane, Aku: Lane,
                Ama: Lane, Ame: Lane, Ami: Lane, Amo: Lane, Amu: Lane,
                Asa: Lane, Ase: Lane, Asi: Lane, Aso: Lane, Asu: Lane,
                rc: Lane)
    returns (Eba: Lane, Ebe: Lane, Ebi: Lane, Ebo: Lane, Ebu: Lane,
            Ega: Lane, Ege: Lane, Egi: Lane, Ego: Lane, Egu: Lane,
            Eka: Lane, Eke: Lane, Eki: Lane, Eko: Lane, Eku: Lane,
            Ema: Lane, Eme: Lane, Emi: Lane, Emo: Lane, Emu: Lane,
            Esa: Lane, Ese: Lane, Esi: Lane, Eso: Lane, Esu: Lane)
    ensures State(Eba, Ebe, Ebi, Ebo, Ebu, Ega, Ege, Egi, Ego, Egu,
                  Eka, Eke, Eki, Eko, Eku, Ema, Eme, Emi, Emo, Emu,
                  Esa, Ese, Esi, Eso, Esu)
         == Round(Lanes64(), State(Aba, Abe, Abi, Abo, Abu, Aga, Age, Agi, Ago, Agu,
                                   Aka, Ake, Aki, Ako, Aku, Ama, Ame, Ami, Amo, Amu,
                                   Asa, Ase, Asi, Aso, Asu), rc)
  {
    hide Xor, AndNot, Rol64, Round, State, Five;
    var Ba, Be, Bi, Bo, Bu: Lane;
    var Da, De, Di, Do, Du: Lane;

    Ba := Xor(Xor(Xor(Xor(Aba, Aga), Aka), Ama), Asa);
    Be := Xor(Xor(Xor(Xor(Abe, Age), Ake), Ame), Ase);
    Bi := Xor(Xor(Xor(Xor(Abi, Agi), Aki), Ami), Asi);
    Bo := Xor(Xor(Xor(Xor(Abo, Ago), Ako), Amo), Aso);
    Bu := Xor(Xor(Xor(Xor(Abu, Agu), Aku), Amu), Asu);

    Da := Xor(Bu, Rol64(Be, 1));
    De := Xor(Ba, Rol64(Bi, 1));
    Di := Xor(Be, Rol64(Bo, 1));
    Do := Xor(Bi, Rol64(Bu, 1));
    Du := Xor(Bo, Rol64(Ba, 1));
    ghost var d := Five(Da, De, Di, Do, Du);

    Ba := Xor(Aba, Da);
    Be := Rol64(Xor(Age, De), 44);
    Bi := Rol64(Xor(Aki, Di), 43);
    Bo := Rol64(Xor(Amo, Do), 21);
    Bu := Rol64(Xor(Asu, Du), 14);
    Eba := Xor(Xor(Ba, AndNot(Be, Bi)), rc);
    Ebe := Xor(Be, AndNot(Bi, Bo));
    Ebi := Xor(Bi, AndNot(Bo, Bu));
    Ebo := Xor(Bo, AndNot(Bu, Ba));
    Ebu := Xor(Bu, AndNot(Ba, Be));

    Ba := Rol64(Xor(Abo, Do), 28);
    Be := Rol64(Xor(Agu, Du), 20);
    Bi := Rol64(Xor(Aka, Da), 3);
    Bo := Rol64(Xor(Ame, De), 45);
    Bu := Rol64(Xor(Asi, Di), 61);
    Ega := Xor(Ba, AndNot(Be, Bi));
    Ege := Xor(Be, AndNot(Bi, Bo));
    Egi := Xor(Bi, AndNot(Bo, Bu));
    Ego := Xor(Bo, AndNot(Bu, Ba));
    Egu := Xor(Bu, AndNot(Ba, Be));

    Ba := Rol64(Xor(Abe, De), 1);
    Be := Rol64(Xor(Agi, Di), 6);
    Bi := Rol64(Xor(Ako, Do), 25);
    Bo := Rol64(Xor(Amu, Du), 8);
    Bu := Rol64(Xor(Asa, Da), 18);
    Eka := Xor(Ba, AndNot(Be, Bi));
    Eke := Xor(Be, AndNot(Bi, Bo));
    Eki := Xor(Bi, AndNot(Bo, Bu));
    Eko := Xor(Bo, AndNot(Bu, Ba));
    Eku := Xor(Bu, AndNot(Ba, Be));

    Ba := Rol64(Xor(Abu, Du), 27);
    Be := Rol64(Xor(Aga, Da), 36);
    Bi := Rol64(Xor(Ake, De), 10);
    Bo := Rol64(Xor(Ami, Di), 15);
    Bu := Rol64(Xor(Aso, Do), 56);
    Ema := Xor(Ba, AndNot(Be, Bi));
    Eme := Xor(Be, AndNot(Bi, Bo));
    Emi := Xor(Bi, AndNot(Bo, Bu));
    Emo := Xor(Bo, AndNot(Bu, Ba));
    Emu := Xor(Bu, AndNot(Ba, Be));

    Ba := Rol64(Xor(Abi, Di), 62);
    Be := Rol64(Xor(Ago, Do), 55);
    Bi := Rol64(Xor(Aku, Du), 39);
    Bo := Rol64(Xor(Ama, Da), 41);
    Bu := Rol64(Xor(Ase, De), 2);
    Esa := Xor(Ba, AndNot(Be, Bi));
    Ese := Xor(Be, AndNot(Bi, Bo));
    Esi := Xor(Bi, AndNot(Bo, Bu));
    Eso := Xor(Bo, AndNot(Bu, Ba));
    Esu := Xor(Bu, AndNot(Ba, Be));

    HalfRoundIsRound(Lanes64(), State(Aba, Abe, Abi, Abo, Abu, Aga, Age, Agi, Ago, Agu,
                                      Aka, Ake, Aki, Ako, Aku, Ama, Ame, Ami, Amo, Amu,
                                      Asa, Ase, Asi, Aso, Asu), d,
                     State(Eba, Ebe, Ebi, Ebo, Ebu, Ega, Ege, Egi, Ego, Egu,
                           Eka, Eke, Eki, Eko, Eku, Ema, Eme, Emi, Emo, Emu,
                           Esa, Ese, Esi, Eso, Esu), rc);
  }

  /** The second round of an iteration, from the lanes Exx back to the lanes Axx. */
  method RoundExxToAxx(Eba: Lane, Ebe: Lane, Ebi: Lane, Ebo: Lane, Ebu: Lane,
                Ega: Lane, Ege: Lane, Egi: Lane, Ego: Lane, Egu: Lane,
                Eka: Lane, Eke: Lane, Eki: Lane, Eko: Lane, Eku: Lane,
                Ema: Lane, Eme: Lane, Emi: Lane, Emo: Lane, Emu: Lane,
                Esa: Lane, Ese: Lane, Esi: Lane, Eso: Lane, Esu: Lane,
                rc: Lane)
    returns (Aba: Lane, Abe: Lane, Abi: Lane, Abo: Lane, Abu: Lane,
            Aga: Lane, Age: Lane, Agi: Lane, Ago: Lane, Agu: Lane,
            Aka: Lane, Ake: Lane, Aki: Lane, Ako: Lane, Aku: Lane,
            Ama: Lane, Ame: Lane, Ami: Lane, Amo: Lane, Amu: Lane,
            Asa: Lane, Ase: Lane, Asi: Lane, Aso: Lane, Asu: Lane)
    ensures State(Aba, Abe, Abi, Abo, Abu, Aga, Age, Agi, Ago, Agu,
                  Aka, Ake, Aki, Ako, Aku, Ama, Ame, Ami, Amo, Amu,
                  Asa, Ase, Asi, Aso, Asu)
         == Round(Lanes64(), State(Eba, Ebe, Ebi, Ebo, Ebu, Ega, Ege, Egi, Ego, Egu,
                                   Eka, Eke, Eki, Eko, Eku, Ema, Eme, Emi, Emo, Emu,
                                   Esa, Ese, Esi, Eso, Esu), rc)
  {
    hide Xor, AndNot, Rol64, Round, State, Five;
    var Ba, Be, Bi, Bo, Bu: Lane;
    var Da, De, Di, Do, Du: Lane;

    Ba := Xor(Xor(Xor(Xor(Eba, Ega), Eka), Ema), Esa);
    Be := Xor(Xor(Xor(Xor(Ebe, Ege), Eke), Eme), Ese);
    Bi := Xor(Xor(Xor(Xor(Ebi, Egi), Eki), Emi), Esi);
    Bo := Xor(Xor(Xor(Xor(Ebo, Ego), Eko), Emo), Eso);
    Bu := Xor(Xor(Xor(Xor(Ebu, Egu), Eku), Emu), Esu);

    Da := Xor(Bu, Rol64(Be, 1));
    De := Xor(Ba, Rol64(Bi, 1));
    Di := Xor(Be, Rol64(Bo, 1));
    Do := Xor(Bi, Rol64(Bu, 1));
    Du := Xor(Bo, Rol64(Ba, 1));
    ghost var h := Five(Da, De, Di, Do, Du);

    Ba := Xor(Eba, Da);
    Be := Rol64(Xor(Ege, De), 44);
    Bi := Rol64(Xor(Eki, Di), 43);
    Bo := Rol64(Xor(Emo, Do), 21);
    Bu := Rol64(Xor(Esu, Du), 14);
    Aba := Xor(Xor(Ba, AndNot(Be, Bi)), rc);
    Abe := Xor(Be, AndNot(Bi, Bo));
    Abi := Xor(Bi, AndNot(Bo, Bu));
    Abo := Xor(Bo, AndNot(Bu, Ba));
    Abu := Xor(Bu, AndNot(Ba, Be));

    Ba := Rol64(Xor(Ebo, Do), 28);
    Be := Rol64(Xor(Egu, Du), 20);
    Bi := Rol64(Xor(Eka, Da), 3);
    Bo := Rol64(Xor(Eme, De), 45);
    Bu := Rol64(Xor(Esi, Di), 61);
    Aga := Xor(Ba, AndNot(Be, Bi));
    Age := Xor(Be, AndNot(Bi, Bo));
    Agi := Xor(Bi, AndNot(Bo, Bu));
    Ago := Xor(Bo, AndNot(Bu, Ba));
    Agu := Xor(Bu, AndNot(Ba, Be));

    Ba := Rol64(Xor(Ebe, De), 1);
    Be := Rol64(Xor(Egi, Di), 6);
    Bi := Rol64(Xor(Eko, Do), 25);
    Bo := Rol64(Xor(Emu, Du), 8);
    Bu := Rol64(Xor(Esa, Da), 18);
    Aka := Xor(Ba, AndNot(Be, Bi));
    Ake := Xor(Be, AndNot(Bi, Bo));
    Aki := Xor(Bi, AndNot(Bo, Bu));
    Ako := Xor(Bo, AndNot(Bu, Ba));
    Aku := Xor(Bu, AndNot(Ba, Be));

    Ba := Rol64(Xor(Ebu, Du), 27);
    Be := Rol64(Xor(Ega, Da), 36);
    Bi := Rol64(Xor(Eke, De), 10);
    Bo := Rol64(Xor(Emi, Di), 15);
    Bu := Rol64(Xor(Eso, Do), 56);
    Ama := Xor(Ba, AndNot(Be, Bi));
    Ame := Xor(Be, AndNot(Bi, Bo));
    Ami := Xor(Bi, AndNot(Bo, Bu));
    Amo := Xor(Bo, AndNot(Bu, Ba));
    Amu := Xor(Bu, AndNot(Ba, Be));

    Ba := Rol64(Xor(Ebi, Di), 62);
    Be := Rol64(Xor(Ego, Do), 55);
    Bi := Rol64(Xor(Eku, Du), 39);
    Bo := Rol64(Xor(Ema, Da), 41);
    Bu := Rol64(Xor(Ese, De), 2);
    Asa := Xor(Ba, AndNot(Be, Bi));
    Ase := Xor(Be, AndNot(Bi, Bo));
    Asi := Xor(Bi, AndNot(Bo, Bu));
    Aso := Xor(Bo, AndNot(Bu, Ba));
    Asu := Xor(Bu, AndNot(Ba, Be));

    HalfRoundIsRound(Lanes64(), State(Eba, Ebe, Ebi, Ebo, Ebu, Ega, Ege, Egi, Ego, Egu,
                                      Eka, Eke, Eki, Eko, Eku, Ema, Eme, Emi, Emo, Emu,
                                      Esa, Ese, Esi, Eso, Esu), h,
                     State(Aba, Abe, Abi, Abo, Abu, Aga, Age, Agi, Ago, Agu,
                           Aka, Ake, Aki, Ako, Aku, Ama, Ame, Ami, Amo, Amu,
                           Asa, Ase, Asi, Aso, Asu), rc);
  }

  method Permute(state: array<Lane>)
    requires state.Length == 25
    modifies state
    ensures state[..] == Rounds(Lanes64(), old(state[..]), RoundConstants(), 24)
  {
    hide Xor, AndNot, Rol64, Round, Rounds, State, Five, RoundConstants;
    var Aba, Abe, Abi, Abo, Abu: Lane;
    var Aga, Age, Agi, Ago, Agu: Lane;
    var Aka, Ake, Aki, Ako, Aku: Lane;
    var Ama, Ame, Ami, Amo, Amu: Lane;
    var Asa, Ase, Asi, Aso, Asu: Lane;
    var Eba, Ebe, Ebi, Ebo, Ebu: Lane;
    var Ega, Ege, Egi, Ego, Egu: Lane;
    var Eka, Eke, Eki, Eko, Eku: Lane;
    var Ema, Eme, Emi, Emo, Emu: Lane;
    var Esa, Ese, Esi, Eso, Esu: Lane;
    ghost var start := state[..];
    var roundConstants := RoundConstants();
    StateOf(start);
    RoundsBase(Lanes64(), start, roundConstants);

    Aba, Abe, Abi, Abo, Abu := state[0], state[1], state[2], state[3], state[4];
    Aga, Age, Agi, Ago, Agu := state[5], state[6], state[7], state[8], state[9];
    Aka, Ake, Aki, Ako, Aku := state[10], state[11], state[12], state[13], state[14];
    Ama, Ame, Ami, Amo, Amu := state[15], state[16], state[17], state[18], state[19];
    Asa, Ase, Asi, Aso, Asu := state[20], state[21], state[22], state[23], state[24];

    var n := 0;
    while n < 24
      invariant 0 <= n <= 24 && n % 2 == 0 && state[..] == start
      invariant State(Aba, Abe, Abi, Abo, Abu, Aga, Age, Agi, Ago, Agu,
                      Aka, Ake, Aki, Ako, Aku, Ama, Ame, Ami, Amo, Amu,
                      Asa, Ase, Asi, Aso, Asu) == Rounds(Lanes64(), start, roundConstants, n)
    {
      Eba, Ebe, Ebi, Ebo, Ebu, Ega, Ege, Egi, Ego, Egu,
      Eka, Eke, Eki, Eko, Eku, Ema, Eme, Emi, Emo, Emu,
      Esa, Ese, Esi, Eso, Esu :=
        RoundAxxToExx(Aba, Abe, Abi, Abo, Abu, Aga, Age, Agi, Ago, Agu,
                      Aka, Ake, Aki, Ako, Aku, Ama, Ame, Ami, Amo, Amu,
                      Asa, Ase, Asi, Aso, Asu, roundConstants[n]);
      RoundsStep(Lanes64(), start, roundConstants, n);
      Aba, Abe, Abi, Abo, Abu, Aga, Age, Agi, Ago, Agu,
      Aka, Ake, Aki, Ako, Aku, Ama, Ame, Ami, Amo, Amu,
      Asa, Ase, Asi, Aso, Asu :=
        RoundExxToAxx(Eba, Ebe, Ebi, Ebo, Ebu, Ega, Ege, Egi, Ego, Egu,
                      Eka, Eke, Eki, Eko, Eku, Ema, Eme, Emi, Emo, Emu,
                      Esa, Ese, Esi, Eso, Esu, roundConstants[n + 1]);
      RoundsStep(Lanes64(), start, roundConstants, n + 1);
      n := n + 2;
    }

    Store(state, Aba, Abe, Abi, Abo, Abu, Aga, Age, Agi, Ago, Agu,
                 Aka, Ake, Aki, Ako, Aku, Ama, Ame, Ami, Amo, Amu,
                 Asa, Ase, Asi, Aso, Asu);
  }
}
