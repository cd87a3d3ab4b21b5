/** The permutation of 25 32-bit lanes in place, 22 calls of one round each. */
module KeccakF800 {
  import opened KeccakSpec

  /** A 32-bit word. */
  datatype Lane = Lane(bits: bv32)

  function Xor(x: Lane, y: Lane): Lane { Lane(x.bits ^ y.bits) }

  /** ~x & y */
  function AndNot(x: Lane, y: Lane): Lane { Lane(!x.bits & y.bits) }

  /** A number as a shift amount or the position of a bit: 5 bits, which count modulo 32. */
  function At(s: nat): bv5 {
    if s == 0 then 0 else At(s - 1) + 1
  }

  function ShiftedLeft(x: bv32, n: bv5): bv32 { x << n }

  function ShiftedRight(x: bv32, n: bv5): bv32 { x >> (32 - n as bv6) }

  /** (x << s) | (x >> (32 - s)), s modulo 32 */
  function Rol32(x: Lane, s: nat): Lane {
    Lane(ShiftedLeft(x.bits, At(s)) | ShiftedRight(x.bits, At(s)))
  }

  function Lanes32(): (l: Lanes<Lane>)
    ensures l.width == 32
  {
    Lanes(32, Xor, AndNot, Rol32)
  }

  // ----- What the operations do to bits --------------------------------------------------------------

  predicate BitOf(x: bv32, i: bv5) { (x >> i) & 1 == 1 }

  /** The word with bit n only. */
  lemma SingleBit(n: bv5, i: bv5)
    ensures BitOf(1 << n, i) == (i == n)
  {
  }

  /** Bit z of a lane. */
  predicate LaneBit(x: Lane, z: nat) { BitOf(x.bits, At(z)) }

  lemma XorBit(x: bv32, y: bv32, i: bv5)
    ensures BitOf(x ^ y, i) == (BitOf(x, i) != BitOf(y, i))
  {
  }

  lemma AndNotBit(x: bv32, y: bv32, i: bv5)
    ensures BitOf(!x & y, i) == (!BitOf(x, i) && BitOf(y, i))
  {
  }

  lemma OrBit(x: bv32, y: bv32, i: bv5)
    ensures BitOf(x | y, i) == (BitOf(x, i) || BitOf(y, i))
  {
  }

  lemma ShortMovesUp(x: bv32, n: bv5, i: bv5)
    requires i + n >= i && n < 8
    ensures BitOf(x << n, i + n) == BitOf(x, i)
  {
  }

  lemma MiddleMovesUp(x: bv32, n: bv5, i: bv5)
    requires i + n >= i && 8 <= n < 16
    ensures BitOf(x << n, i + n) == BitOf(x, i)
  {
  }

  lemma LongMovesUp(x: bv32, n: bv5, i: bv5)
    requires i + n >= i && 16 <= n
    ensures BitOf(x << n, i + n) == BitOf(x, i)
  {
  }

  lemma MovesUp(x: bv32, n: bv5, i: bv5)
    requires i + n >= i
    ensures BitOf(ShiftedLeft(x, n), i + n) == BitOf(x, i)
  {
    hide BitOf;
    if n < 8 {
      ShortMovesUp(x, n, i);
    } else if n < 16 {
      MiddleMovesUp(x, n, i);
    } else {
      LongMovesUp(x, n, i);
    }
  }

  lemma NothingFromRight(x: bv32, n: bv5, i: bv5)
    requires i + n >= i
    ensures !BitOf(ShiftedRight(x, n), i + n)
  {
  }

  lemma LowMovesRound(x: bv32, n: bv5, i: bv5)
    requires i + n < i && i < 16
    ensures BitOf(x >> (32 - n as bv6), i + n) == BitOf(x, i)
  {
  }

  lemma MiddleMovesRound(x: bv32, n: bv5, i: bv5)
    requires i + n < i && 16 <= i < 24
    ensures BitOf(x >> (32 - n as bv6), i + n) == BitOf(x, i)
  {
  }

  lemma HighMovesRound(x: bv32, n: bv5, i: bv5)
    requires i + n < i && 24 <= i
    ensures BitOf(x >> (32 - n as bv6), i + n) == BitOf(x, i)
  {
  }

  lemma MovesRound(x: bv32, n: bv5, i: bv5)
    requires i + n < i
    ensures BitOf(ShiftedRight(x, n), i + n) == BitOf(x, i)
  {
    hide BitOf;
    if i < 16 {
      LowMovesRound(x, n, i);
    } else if i < 24 {
      MiddleMovesRound(x, n, i);
    } else {
      HighMovesRound(x, n, i);
    }
  }

  lemma NothingFromLeft(x: bv32, n: bv5, i: bv5)
    requires i + n < i
    ensures !BitOf(ShiftedLeft(x, n), i + n)
  {
  }

  /** Positions wrap around at 32. */
  lemma TurnBit(x: bv32, n: bv5, i: bv5)
    ensures BitOf(ShiftedLeft(x, n) | ShiftedRight(x, n), i + n) == BitOf(x, i)
  {
    hide BitOf, ShiftedLeft, ShiftedRight;
    OrBit(ShiftedLeft(x, n), ShiftedRight(x, n), i + n);
    if i + n >= i {
      MovesUp(x, n, i);
      NothingFromRight(x, n, i);
    } else {
      MovesRound(x, n, i);
      NothingFromLeft(x, n, i);
    }
  }

  lemma AtNext(n: nat)
    ensures At(n + 1) == At(n) + 1
  {
  }

  lemma SumNext(a: bv5, b: bv5, c: bv5)
    requires c == a + b
    ensures c + 1 == a + (b + 1)
  {
  }

  lemma {:induction false} AtSum(a: nat, b: nat)
    ensures At(a + b) == At(a) + At(b)
  {
    if b > 0 {
      AtNext(b - 1);
      AtNext(a + b - 1);
      hide At;
      AtSum(a, b - 1);
      SumNext(At(a), At(b - 1), At(a + b - 1));
    }
  }

  lemma AtWidth()
    ensures At(32) == 0
  {
    assert At(1) == 1;
    hide At;
    AtSum(1, 1);
    AtSum(2, 2);
    AtSum(4, 4);
    AtSum(8, 8);
    AtSum(16, 16);
  }

  lemma {:induction false} AtMultiple(m: nat)
    ensures At(32 * m) == 0
  {
    if m > 0 {
      AtMultiple(m - 1);
      AtWidth();
      AtSum(32 * (m - 1), 32);
    }
  }

  lemma AtModulo(s: nat)
    ensures At(s) == At(s % 32)
  {
    AtSum(s % 32, 32 * (s / 32));
    AtMultiple(s / 32);
    hide At;
  }

  lemma AtDifference(z: nat, s: nat)
    requires z < 32
    ensures At((z - s) % 32) + At(s) == At(z)
  {
    hide At;
    BackAndForth(z, s, 32);
    AtSum((z - s) % 32, s);
    AtModulo((z - s) % 32 + s);
  }

  /** Bit z - s, modulo 32, moves to bit z. */
  lemma Rol32Bit(x: Lane, s: nat, z: nat)
    requires z < 32
    ensures LaneBit(Rol32(x, s), z) == LaneBit(x, (z - s) % 32)
  {
    hide BitOf, At, ShiftedLeft, ShiftedRight;
    AtDifference(z, s);
    TurnBit(x.bits, At(s), At((z - s) % 32));
  }

  lemma XorLaneBit(x: Lane, y: Lane, z: nat)
    ensures LaneBit(Xor(x, y), z) == (LaneBit(x, z) != LaneBit(y, z))
  {
    XorBit(x.bits, y.bits, At(z));
    hide BitOf, At;
  }

  lemma AndNotLaneBit(x: Lane, y: Lane, z: nat)
    ensures LaneBit(AndNot(x, y), z) == (!LaneBit(x, z) && LaneBit(y, z))
  {
    AndNotBit(x.bits, y.bits, At(z));
    hide BitOf, At;
  }

  /** The operations of the code are those of FIPS 202 on the bits of a lane. */
  lemma Lanes32OnBits()
    ensures ActOnBits(Lanes32(), LaneBit)
  {
    hide LaneBit, Xor, AndNot, Rol32;
    forall x, y, z: nat | z < 32
      ensures LaneBit(Lanes32().xor(x, y), z) == (LaneBit(x, z) != LaneBit(y, z))
      ensures LaneBit(Lanes32().andNot(x, y), z) == (!LaneBit(x, z) && LaneBit(y, z))
    {
      XorLaneBit(x, y, z);
      AndNotLaneBit(x, y, z);
    }
    forall x, s: nat, z: nat | z < 32
      ensures LaneBit(Lanes32().rol(x, s), z) == LaneBit(x, (z - s) % 32)
    {
      Rol32Bit(x, s, z);
    }
  }

  // ----- Constants -----------------------------------------------------------------------------------

  function RoundConstants(): (rcs: seq<Lane>)
    ensures |rcs| == 22
  {
    [
      Lane(0x00000001), Lane(0x00008082), Lane(0x0000808a), Lane(0x80008000), Lane(0x0000808b), Lane(0x80000001),
      Lane(0x80008081), Lane(0x00008009), Lane(0x0000008a), Lane(0x00000088), Lane(0x80008009), Lane(0x8000000a),
      Lane(0x8000808b), Lane(0x0000008b), Lane(0x00008089), Lane(0x00008003), Lane(0x00008002), Lane(0x00000080),
      Lane(0x0000800a), Lane(0x8000000a), Lane(0x80008081), Lane(0x00008080)
    ]
  }

  /** The constants of the code are those of the shift register, cut to the width. */
  lemma RoundConstantsAreSpecified(ir: nat)
    requires ir < 22
    ensures RoundConstants()[ir] == Lane((RoundConstant(ir) & 0xffffffff) as bv32)
  {
    EarlyConstants();
    MiddleConstants();
    LateConstants();
    hide RoundConstant, Register;
  }

  // ----- Theta ---------------------------------------------------------------------------------------

  /** Lane k once the sheets before x, and the rows of sheet x before row y, are done. */
  function ThetaSoFar(a: seq<Lane>, k: nat, x: nat, y: nat): Lane
    requires |a| == 25 && k < 25
  {
    if k % 5 < x || (k % 5 == x && k < 5 * y) then Theta(Lanes32(), a)[k] else a[k]
  }

  lemma ThetaStart(a: seq<Lane>)
    requires |a| == 25
    ensures forall k | 0 <= k < 25 :: ThetaSoFar(a, k, 0, 0) == a[k]
  {
    hide Theta;
  }

  lemma ThetaEnd(a: seq<Lane>)
    requires |a| == 25
    ensures forall k | 0 <= k < 25 :: ThetaSoFar(a, k, 5, 0) == Theta(Lanes32(), a)[k]
  {
    hide Theta;
  }

  /** What one assignment of the inner loop changes. */
  lemma ThetaLane(a: seq<Lane>, x: nat, y: nat)
    requires |a| == 25 && x < 5 && y < 5
    ensures ThetaSoFar(a, 5 * y + x, x, y) == a[5 * y + x]
    ensures ThetaSoFar(a, 5 * y + x, x, y + 1) == Xor(a[5 * y + x], D(Lanes32(), a, x))
    ensures forall k | 0 <= k < 25 && k != 5 * y + x :: ThetaSoFar(a, k, x, y + 1) == ThetaSoFar(a, k, x, y)
  {
    hide Xor, AndNot, Rol32, D;
    assert (5 * y + x) % 5 == x;
  }

  lemma ThetaSheetDone(a: seq<Lane>, x: nat)
    requires |a| == 25 && x < 5
    ensures forall k | 0 <= k < 25 :: ThetaSoFar(a, k, x, 5) == ThetaSoFar(a, k, x + 1, 0)
  {
    hide Theta;
  }

  lemma Parity(a: seq<Lane>, x: nat)
    requires |a| == 25 && x < 5
    ensures C(Lanes32(), a, x) == Xor(Xor(Xor(Xor(a[x], a[x + 5]), a[x + 10]), a[x + 15]), a[x + 20])
  {
    hide Xor, AndNot, Rol32;
  }

  method ThetaInPlace(out: array<Lane>)
    requires out.Length == 25
    modifies out
    ensures out[..] == Theta(Lanes32(), old(out[..]))
  {
    hide Xor, AndNot, Rol32, C, Theta, ThetaSoFar;
    ghost var a := out[..];
    ThetaStart(a);
    var bc := new Lane[5];
    for i := 0 to 5
      invariant out[..] == a
      invariant forall x | 0 <= x < i :: bc[x] == C(Lanes32(), a, x)
    {
      bc[i] := Xor(Xor(Xor(Xor(out[i], out[i + 5]), out[i + 10]), out[i + 15]), out[i + 20]);
      Parity(a, i);
    }
    for i := 0 to 5
      invariant forall x | 0 <= x < 5 :: bc[x] == C(Lanes32(), a, x)
      invariant forall k | 0 <= k < 25 :: out[k] == ThetaSoFar(a, k, i, 0)
    {
      var t := Xor(bc[(i + 4) % 5], Rol32(bc[(i + 1) % 5], 1));
      assert t == D(Lanes32(), a, i);
      for y := 0 to 5
        invariant forall x | 0 <= x < 5 :: bc[x] == C(Lanes32(), a, x)
        invariant forall k | 0 <= k < 25 :: out[k] == ThetaSoFar(a, k, i, y)
      {
        ThetaLane(a, i, y);
        out[5 * y + i] := Xor(out[5 * y + i], t);
      }
      ThetaSheetDone(a, i);
    }
    ThetaEnd(a);
  }

  // ----- Rho and pi ----------------------------------------------------------------------------------

  /** The places of the cycle, as the code lists them; the amounts it lists are Rotations(). */
  function Piln(): (places: seq<nat>)
    ensures |places| == 24 && forall t | 0 <= t < 24 :: 0 < places[t] < 25
  {
    [10, 7, 11, 17, 18, 3, 5, 16, 8, 21, 24, 4, 15, 23, 19, 13, 12, 2, 20, 14, 22, 9, 6, 1]
  }

  /** The step at which the cycle writes lane q; it never writes the first lane. */
  function StepOf(q: nat): nat {
    match q
    case 10 => 0
    case 7 => 1
    case 11 => 2
    case 17 => 3
    case 18 => 4
    case 3 => 5
    case 5 => 6
    case 16 => 7
    case 8 => 8
    case 21 => 9
    case 24 => 10
    case 4 => 11
    case 15 => 12
    case 23 => 13
    case 19 => 14
    case 13 => 15
    case 12 => 16
    case 2 => 17
    case 20 => 18
    case 14 => 19
    case 22 => 20
    case 9 => 21
    case 6 => 22
    case 1 => 23
    case _ => 24
  }

  lemma StepOfPlace(i: nat)
    requires i < 24
    ensures 0 < Piln()[i] < 25 && StepOf(Piln()[i]) == i
  {
  }

  /** The step after step i of the cycle. */
  function Next(i: nat): (j: nat)
    requires i < 24
    ensures j < 24
  {
    if i == 23 then 0 else i + 1
  }

  /** The lane written at step i is read one step later: it is the next lane of the walk. */
  lemma PlacesFollowWalk(i: nat)
    requires i < 24
    ensures Piln()[i] == WalkOrder()[Next(i)]
  {
  }

  lemma PiFollowsWalk(i: nat)
    requires i < 24
    ensures Source(WalkOrder()[Next(i)]) == WalkOrder()[i]
  {
    hide Source, WalkOrder, Walk, WalkIndex;
    PiUndoesWalk(i);
    WalkTable(i);
    if i < 23 {
      WalkTable(i + 1);
    } else {
      LateWalk();
      WalkTable(0);
      EarlyWalk();
    }
  }

  lemma RolModulo(x: Lane, s: nat, t: nat)
    requires s % 32 == t % 32
    ensures Rol32(x, s) == Rol32(x, t)
  {
    hide ShiftedLeft, ShiftedRight, At;
    AtModulo(s);
    AtModulo(t);
  }

  lemma ModuloTwice(n: nat)
    ensures n % 64 % 32 == n % 32 == n % 32 % 32
  {
  }

  /** The listed amounts are the rotations of the walk, modulo 64; modulo the width they agree with the others. */
  lemma AmountModulo(i: nat)
    requires i < 24
    ensures OffsetFrom(WalkOrder()[i], 0) % 32 % 32 == Rotations()[i] % 32
  {
    hide OffsetFrom, WalkOrder, Rotations, Piln;
    RotationTable(i);
    OffsetOfWalk(i, 0);
    ModuloTwice((i + 1) * (i + 2) / 2);
  }

  /** Lane WalkOrder()[i] is rotated by the amount the code lists. */
  lemma RhoLane(a: seq<Lane>, i: nat)
    requires |a| == 25 && i < 24
    ensures Rho(Lanes32(), a)[WalkOrder()[i]] == Rol32(a[WalkOrder()[i]], Rotations()[i])
  {
    hide Rol32, Xor, AndNot, OffsetFrom, WalkOrder, Rotations, Piln;
    AmountModulo(i);
    RolModulo(a[WalkOrder()[i]], OffsetFrom(WalkOrder()[i], 0) % 32, Rotations()[i]);
  }

  /** What step i of the cycle must write. */
  lemma RhoPiLane(a: seq<Lane>, i: nat)
    requires |a| == 25 && i < 24
    ensures Pi(Rho(Lanes32(), a))[Piln()[i]] == Rol32(a[if i == 0 then 1 else Piln()[i - 1]], Rotations()[i])
  {
    assert WalkOrder()[0] == 1;
    hide Rol32, Xor, AndNot, Rho, Source, WalkOrder, Rotations, Piln;
    PlacesFollowWalk(i);
    PiFollowsWalk(i);
    RhoLane(a, i);
    if i > 0 {
      PlacesFollowWalk(i - 1);
    }
  }

  /** Every lane other than the first is written, and once. */
  lemma StepsBound()
    ensures StepOf(0) == 24
    ensures forall q | 0 < q < 25 :: StepOf(q) < 24 && Piln()[StepOf(q)] == q
  {
  }

  lemma FirstLaneStays(a: seq<Lane>)
    requires |a| == 25
    ensures Pi(Rho(Lanes32(), a))[0] == a[0]
  {
    hide OffsetFrom;
  }

  method RhoPiInPlace(out: array<Lane>)
    requires out.Length == 25
    modifies out
    ensures out[..] == Pi(Rho(Lanes32(), old(out[..])))
  {
    hide Rol32, Xor, AndNot, Rho, Pi, StepOf, Rotations, Piln;
    ghost var a := out[..];
    ghost var b := Pi(Rho(Lanes32(), a));
    StepsBound();
    FirstLaneStays(a);
    var t := out[1];
    for i := 0 to 24
      invariant t == a[if i == 0 then 1 else Piln()[i - 1]]
      invariant forall q | 0 <= q < 25 :: out[q] == if StepOf(q) < i then b[q] else a[q]
    {
      RhoPiLane(a, i);
      StepOfPlace(i);
      var j := Piln()[i];
      var bc := out[j];
      out[j] := Rol32(t, Rotations()[i]);
      t := bc;
    }
  }

  // ----- Chi and iota --------------------------------------------------------------------------------

  lemma ChiLane(a: seq<Lane>, x: nat, y: nat)
    requires |a| == 25 && x < 5 && y < 5
    ensures Chi(Lanes32(), a)[5 * y + x] ==
            Xor(a[5 * y + x], AndNot(a[5 * y + (x + 1) % 5], a[5 * y + (x + 2) % 5]))
  {
    hide Xor, AndNot, Rol32, After;
    AfterIs(5 * y + x, x, y, 1);
    AfterIs(5 * y + x, x, y, 2);
  }

  method ChiInPlace(out: array<Lane>)
    requires out.Length == 25
    modifies out
    ensures out[..] == Chi(Lanes32(), old(out[..]))
  {
    hide Xor, AndNot, Rol32, Chi, After;
    ghost var a := out[..];
    ghost var b := Chi(Lanes32(), a);
    var bc := new Lane[5];
    for y := 0 to 5
      invariant forall k | 0 <= k < 25 :: out[k] == if k < 5 * y then b[k] else a[k]
    {
      for i := 0 to 5
        invariant forall k | 0 <= k < 25 :: out[k] == if k < 5 * y then b[k] else a[k]
        invariant forall x | 0 <= x < i :: bc[x] == a[5 * y + x]
      {
        bc[i] := out[5 * y + i];
      }
      for i := 0 to 5
        invariant forall x | 0 <= x < 5 :: bc[x] == a[5 * y + x]
        invariant forall k | 0 <= k < 25 :: out[k] == if k < 5 * y + i then b[k] else a[k]
      {
        ChiLane(a, i, y);
        out[5 * y + i] := Xor(out[5 * y + i], AndNot(bc[(i + 1) % 5], bc[(i + 2) % 5]));
      }
    }
  }

  /** One round: call number round of the 22. */
  method OneRound(out: array<Lane>, round: nat)
    requires out.Length == 25 && round < 22
    modifies out
    ensures out[..] == Round(Lanes32(), old(out[..]), RoundConstants()[round])
  {
    hide Xor, AndNot, Rol32, Chi, Pi, Rho, Theta, RoundConstants;
    ThetaInPlace(out);
    RhoPiInPlace(out);
    ChiInPlace(out);
    out[0] := Xor(out[0], RoundConstants()[round]);
  }

  /** The whole permutation, and the first eight lanes as the hash. */
  method Keccak(out: array<Lane>) returns (hash: seq<Lane>)
    requires out.Length == 25
    modifies out
    ensures out[..] == Rounds(Lanes32(), old(out[..]), RoundConstants(), 22)
    ensures hash == Rounds(Lanes32(), old(out[..]), RoundConstants(), 22)[..8]
  {
    hide Xor, AndNot, Rol32, Round, Rounds, RoundConstants;
    ghost var start := out[..];
    RoundsBase(Lanes32(), start, RoundConstants());
    for r := 0 to 22
      invariant out[..] == Rounds(Lanes32(), start, RoundConstants(), r)
    {
      OneRound(out, r);
      RoundsStep(Lanes32(), start, RoundConstants(), r);
    }
    hash := [];
    for i := 0 to 8
      invariant hash == out[..i]
    {
      hash := hash + [out[i]];
    }
  }
}
