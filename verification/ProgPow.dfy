/** The inner loop of ProgPoW as EIP-1057 interprets it, and the shuffle that sets up its register orders. */
module ProgPow {
  import opened Arithmetic
  import opened Kiss99
  import opened Words

  // ----- The shuffle ---------------------------------------------------------------------------------

  ghost predicate Permutation(s: seq<nat>) {
    && (forall i | 0 <= i < |s| :: s[i] < |s|)
    && (forall i, j | 0 <= i < j < |s| :: s[i] != s[j])
  }

  function Swap(s: seq<nat>, i: nat, j: nat): (r: seq<nat>)
    requires i < |s| && j < |s|
    ensures |r| == |s|
  {
    s[i := s[j]][j := s[i]]
  }

  lemma SwapKeeps(s: seq<nat>, i: nat, j: nat)
    requires Permutation(s) && i < |s| && j < |s|
    ensures Permutation(Swap(s, i, j))
  {
  }

  /** Two shuffles at once, from place i down; the draws come from any generator. */
  function Shuffle<S>(next: S -> (S, nat), s: S, dst: seq<nat>, src: seq<nat>, i: nat): (r: (S, seq<nat>, seq<nat>))
    requires i < |dst| == |src|
    ensures |r.1| == |r.2| == |dst|
    decreases i
  {
    if i == 0 then (s, dst, src)
    else
      var (s1, r1) := next(s);
      var (s2, r2) := next(s1);
      Shuffle(next, s2, Swap(dst, i, r1 % (i + 1)), Swap(src, i, r2 % (i + 1)), i - 1)
  }

  /** Whatever the generator draws, both orders stay permutations. */
  lemma {:induction false} ShufflePermutes<S>(next: S -> (S, nat), s: S, dst: seq<nat>, src: seq<nat>, i: nat)
    requires i < |dst| == |src| && Permutation(dst) && Permutation(src)
    ensures
      var (s', dst', src') := Shuffle(next, s, dst, src, i);
      Permutation(dst') && Permutation(src')
    decreases i
  {
    if i > 0 {
      var (s1, r1) := next(s);
      var (s2, r2) := next(s1);
      SwapKeeps(dst, i, r1 % (i + 1));
      SwapKeeps(src, i, r2 % (i + 1));
      hide Permutation;
      ShufflePermutes(next, s2, Swap(dst, i, r1 % (i + 1)), Swap(src, i, r2 % (i + 1)), i - 1);
    }
  }

  function Identity(n: nat): (s: seq<nat>)
    ensures |s| == n
  {
    seq(n, i => i)
  }

  lemma BetweenMultiples(k: int, n: nat)
    requires n > 0
    ensures !(0 < k * n < n)
  {
    if k >= 1 {
      MulMono(1, k, n);
    } else {
      MulMono(k, 0, n);
    }
  }

  /** Any n consecutive uses of a permutation of n places are distinct. */
  lemma ConsecutiveDistinct(s: seq<nat>, c: nat, d: nat)
    requires Permutation(s) && c < d < c + |s|
    ensures s[c % |s|] != s[d % |s|]
  {
    var n := |s|;
    if c % n == d % n {
      Euclid(c, n);
      Euclid(d, n);
      MulDifference(d / n, c / n, n);
      BetweenMultiples(d / n - c / n, n);
      assert false;
    }
  }

  // ----- The two sources of a random operation -------------------------------------------------------

  /** The ordered pair of registers that a number stands for. */
  function Sources(rnd: nat, regs: nat): (nat, nat)
    requires regs > 0
  {
    var src1, src2 := rnd % regs, rnd / regs;
    (src1, if src2 >= src1 then src2 + 1 else src2)
  }

  function NumberOf(src1: nat, src2: nat, regs: nat): int {
    src1 + regs * (if src2 > src1 then src2 - 1 else src2)
  }

  /** Numbers below regs * (regs - 1) stand for the ordered pairs of distinct registers, one each. */
  lemma SourcesBijective(rnd: nat, regs: nat)
    requires regs > 0 && rnd < regs * (regs - 1)
    ensures
      var (src1, src2) := Sources(rnd, regs);
      src1 < regs && src2 < regs && src1 != src2 && NumberOf(src1, src2, regs) == rnd
  {
    Euclid(rnd, regs);
    QuotientBound(rnd, regs - 1, regs);
  }

  lemma PairFits(r: nat, q: nat, n: nat)
    requires r < n && q + 1 <= n - 1
    ensures r + n * q == q * n + r && 0 <= r + n * q < n * (n - 1)
  {
    MulMono(q + 1, n - 1, n);
    assert (q + 1) * n == q * n + n;
    assert (n - 1) * n == n * (n - 1);
    MulMono(0, q, n);
  }

  lemma SourcesOnto(src1: nat, src2: nat, regs: nat)
    requires src1 < regs && src2 < regs && src1 != src2
    ensures
      var rnd := NumberOf(src1, src2, regs);
      0 <= rnd < regs * (regs - 1) && Sources(rnd, regs) == (src1, src2)
  {
    var q := if src2 > src1 then src2 - 1 else src2;
    PairFits(src1, q, regs);
    DivModUnique(src1 + regs * q, q, src1, regs);
  }

  /** The pair a drawn number stands for. */
  function DrawnSources(rnd: nat, regs: nat): (p: (nat, nat))
    requires regs >= 2
    ensures p.0 < regs && p.1 < regs && p.0 != p.1
  {
    MulMono(1, regs - 1, regs);
    SourcesBijective(rnd % (regs * (regs - 1)), regs);
    Sources(rnd % (regs * (regs - 1)), regs)
  }

  // ----- Operations ----------------------------------------------------------------------------------

  datatype Version = V_0_9_2 | V_0_9_3 | V_0_9_4 | Kawpow | Meowpow | Firopow | EvrProgpow | ProgpowQuai

  datatype MathOp = Add | Mul | MulHi | Min | Rotl | Rotr | BitAnd | BitOr | BitXor | ClzSum | PopcountSum

  /** The operation numbered k, 0 to 10, in EIP-1057. */
  function Operation(k: nat): MathOp
    requires k < 11
  {
    match k
    case 0 => Add
    case 1 => Mul
    case 2 => MulHi
    case 3 => Min
    case 4 => Rotl
    case 5 => Rotr
    case 6 => BitAnd
    case 7 => BitOr
    case 8 => BitXor
    case 9 => ClzSum
    case 10 => PopcountSum
  }

  /** The versions before EIP-1057 number the same operations from the count of leading zeros on. */
  function OperationOf(version: Version, k: nat): MathOp
    requires k < 11
  {
    if version.V_0_9_2? || version.V_0_9_3? || version.V_0_9_4? then Operation((k + 9) % 11) else Operation(k)
  }

  /** Bitwise and of two non-negative integers. */
  function And(a: nat, b: nat): (r: nat)
    ensures r <= b
  {
    if a == 0 || b == 0 then 0 else (if a % 2 == 1 && b % 2 == 1 then 1 else 0) + 2 * And(a / 2, b / 2)
  }

  lemma AndBits(a: nat, b: nat)
    ensures And(a, b) / 2 == And(a / 2, b / 2)
    ensures And(a, b) % 2 == if a % 2 == 1 && b % 2 == 1 then 1 else 0
  {
    DivModUnique(And(a, b), And(a / 2, b / 2), if a % 2 == 1 && b % 2 == 1 then 1 else 0, 2);
  }

  /** And, bit by bit. */
  lemma {:induction false} AndAt(a: nat, b: nat, i: nat)
    ensures BitAt(And(a, b), i) == (BitAt(a, i) && BitAt(b, i))
    decreases i
  {
    hide BitAt, And;
    AndBits(a, b);
    if i == 0 {
      LowestBit(a);
      LowestBit(b);
      LowestBit(And(a, b));
    } else {
      NextBit(a, i);
      NextBit(b, i);
      NextBit(And(a, b), i);
      AndAt(a / 2, b / 2, i - 1);
    }
  }

  lemma AndOdd(a: nat, b: nat)
    requires a > 0
    ensures And(a, 2 * b + 1) == a % 2 + 2 * And(a / 2, b)
  {
    DivModUnique(2 * b + 1, b, 1, 2);
  }

  lemma OddAndHalf(a: nat, p: nat)
    requires p > 0
    ensures a % (2 * p) == a % 2 + 2 * (a / 2 % p)
  {
    var q, r := a / 2 / p, a / 2 % p;
    Euclid(a / 2, p);
    DoubleMultiple(q, p);
    DivModUnique(a, q, a % 2 + 2 * r, 2 * p);
  }

  /** And with n ones is the remainder by 2^n. */
  lemma {:induction false} AndOnes(a: nat, n: nat)
    ensures And(a, Pow2(n) - 1) == a % Pow2(n)
  {
    if n == 0 {
      assert Pow2(0) == 1;
    } else if a == 0 {
      DivModUnique(0, 0, 0, Pow2(n));
    } else {
      var p := Pow2(n - 1);
      assert Pow2(n) == 2 * p;
      hide Pow2, And;
      AndOnes(a / 2, n - 1);
      AndOdd(a, p - 1);
      OddAndHalf(a, p);
    }
  }

  lemma {:induction false} OrBound(a: nat, b: nat, n: nat)
    requires a < Pow2(n) && b < Pow2(n)
    ensures Or(a, b) < Pow2(n)
  {
    if n > 0 {
      OrBound(a / 2, b / 2, n - 1);
    }
  }

  function Or32(a: Word32, b: Word32): Word32 {
    Pow2Words();
    OrBound(a, b, 32);
    Or(a, b)
  }

  /** The number of binary digits. */
  function BitLength(x: nat): nat {
    if x == 0 then 0 else 1 + BitLength(x / 2)
  }

  lemma {:induction false} BitLengthBound(x: nat, n: nat)
    requires x < Pow2(n)
    ensures BitLength(x) <= n
  {
    if x > 0 {
      BitLengthBound(x / 2, n - 1);
    }
  }

  /** Leading zeros of a 32-bit word; 32 for zero. */
  function Clz(x: Word32): (n: nat)
    ensures n <= 32
  {
    Pow2Words();
    BitLengthBound(x, 32);
    32 - BitLength(x)
  }

  lemma {:induction false} BitLengthIs(x: nat)
    requires x > 0
    ensures BitLength(x) > 0 && Pow2(BitLength(x) - 1) <= x < Pow2(BitLength(x))
  {
    if x == 1 {
      assert BitLength(1) == 1 && Pow2(0) == 1;
    } else {
      BitLengthIs(x / 2);
    }
  }

  /** Exactly the first n binary digits of 32 are zeros. */
  lemma LeadingZeros(x: Word32)
    ensures x == 0 <==> Clz(x) == 32
    ensures x > 0 ==> Clz(x) < 32 && Pow2(31 - Clz(x)) <= x < Pow2(32 - Clz(x))
  {
    hide Pow2;
    if x > 0 {
      BitLengthIs(x);
    }
  }

  function Popcount(x: nat): (n: nat)
    ensures n <= x
  {
    if x == 0 then 0 else x % 2 + Popcount(x / 2)
  }

  lemma {:induction false} PopcountBound(x: nat, n: nat)
    requires x < Pow2(n)
    ensures Popcount(x) <= n
  {
    if x > 0 {
      PopcountBound(x / 2, n - 1);
    }
  }

  /** The sum of the lowest n binary digits. */
  ghost function DigitSum(x: nat, n: nat): nat {
    if n == 0 then 0 else DigitSum(x, n - 1) + if BitAt(x, n - 1) then 1 else 0
  }

  lemma {:induction false} DigitSumFront(x: nat, n: nat)
    requires n > 0
    ensures DigitSum(x, n) == x % 2 + DigitSum(x / 2, n - 1)
  {
    hide BitAt;
    if n == 1 {
      LowestBit(x);
      assert DigitSum(x, 0) == DigitSum(x / 2, 0) == 0;
    } else {
      DigitSumFront(x, n - 1);
      NextBit(x, n - 1);
    }
  }

  /** The number of ones among the binary digits. */
  lemma {:induction false} PopcountIsDigitSum(x: nat, n: nat)
    requires x < Pow2(n)
    ensures Popcount(x) == DigitSum(x, n)
  {
    if n == 0 {
      assert x == 0;
    } else {
      assert Pow2(n) == 2 * Pow2(n - 1);
      hide Pow2, DigitSum;
      PopcountIsDigitSum(x / 2, n - 1);
      DigitSumFront(x, n);
      assert Popcount(x) == x % 2 + Popcount(x / 2);
    }
  }

  /** Rotation to the left, by the amount modulo 32. */
  function Rol(x: Word32, n: nat): Word32 {
    var s := n % 32;
    if s == 0 then x else Or32(ShiftLeft(x, s), ShiftRight(x, 32 - s))
  }

  function Ror(x: Word32, n: nat): Word32 {
    var s := n % 32;
    if s == 0 then x else Or32(ShiftRight(x, s), ShiftLeft(x, 32 - s))
  }

  /** What a shift to the left leaves of a word. */
  lemma ShiftLeftIs(x: Word32, s: nat)
    requires s <= 32
    ensures ShiftLeft(x, s) == (x % Pow2(32 - s)) * Pow2(s)
  {
    var p, q := Pow2(s), Pow2(32 - s);
    assert p * q == U32 by {
      Pow2Words();
      PowAdd(2, s, 32 - s);
    }
    hide Pow2, Pow;
    Euclid(x, q);
    var hi, lo := x / q, x % q;
    MulMono(lo + 1, q, p);
    MulMono(0, lo, p);
    Distribute(hi, q, lo, p);
    MulAssoc(hi, p, q);
    assert q * p == p * q && (lo + 1) * p == lo * p + p;
    DivModUnique(x * p, hi, lo * p, U32);
  }

  lemma HighBits(x: Word32, s: nat)
    requires s <= 32
    ensures ShiftRight(x, 32 - s) < Pow2(s)
  {
    Pow2Words();
    PowAdd(2, s, 32 - s);
    hide Pow, Pow2;
    QuotientBound(x, Pow2(s), Pow2(32 - s));
  }

  /** The low digits move up by the amount, the high ones come down behind them. */
  lemma RolMovesBits(x: Word32, n: nat)
    ensures var s := n % 32; Rol(x, n) == (x % Pow2(32 - s)) * Pow2(s) + x / Pow2(32 - s)
  {
    var s := n % 32;
    if s == 0 {
      Pow2Words();
      assert Pow2(0) == 1;
      DivModUnique(x, 0, x, Pow2(32));
    } else {
      hide Pow2, Or;
      ShiftLeftIs(x, s);
      HighBits(x, s);
      OrCommutes(ShiftLeft(x, s), ShiftRight(x, 32 - s));
      OrIsSum(ShiftRight(x, 32 - s), x % Pow2(32 - s), s);
    }
  }

  /** The rotation to the right is the one to the left by what is missing to 32. */
  lemma RorIsRol(x: Word32, n: nat)
    ensures Ror(x, n) == Rol(x, 32 - n % 32)
  {
    hide Or;
    var s := n % 32;
    if s > 0 {
      assert (32 - s) % 32 == 32 - s;
      OrCommutes(ShiftRight(x, s), ShiftLeft(x, 32 - s));
    }
  }

  lemma HighProductFits(a: Word32, b: Word32)
    ensures 0 <= (a * b) / U32 < U32
  {
    MulMono(a, U32 - 1, b);
    MulMono(0, a, b);
    QuotientBound(a * b, U32, U32);
  }

  function HighProduct(a: Word32, b: Word32): Word32 {
    HighProductFits(a, b);
    (a * b) / U32
  }

  /** The high and the low word of a product. */
  lemma ProductInTwoWords(a: Word32, b: Word32)
    ensures HighProduct(a, b) * U32 + (a * b) % U32 == a * b
  {
    HighProductFits(a, b);
    Euclid(a * b, U32);
  }

  function Value(op: MathOp, a: Word32, b: Word32): Word32 {
    match op
    case Add => (a + b) % U32
    case Mul => (a * b) % U32
    case MulHi => HighProduct(a, b)
    case Min => if a <= b then a else b
    case Rotl => Rol(a, b)
    case Rotr => Ror(a, b)
    case BitAnd => And(a, b)
    case BitOr => Or32(a, b)
    case BitXor => Xor32(a, b)
    case ClzSum => Clz(a) + Clz(b)
    case PopcountSum => (Popcount(a) + Popcount(b)) % U32
  }

  /** How a value is merged into a register. */
  function Merge(a: Word32, b: Word32, sel: Word32): Word32 {
    var n := (sel / 0x10000) % 31 + 1;
    match sel % 4
    case 0 => (a * 33 + b) % U32
    case 1 => (Xor32(a, b) * 33) % U32
    case 2 => Xor32(Rol(a, n), b)
    case _ => Xor32(Ror(a, n), b)
  }

  // ----- The inner loop ------------------------------------------------------------------------------

  const CACHE_WORDS: nat := 4096
  const DAG_LOADS: nat := 4

  /** What the loop reads: the cached part of the graph, and the words loaded from it. */
  datatype Env = Env(cache: seq<Word32>, entries: seq<Word32>) {
    predicate Valid() {
      |cache| == CACHE_WORDS && |entries| == DAG_LOADS
    }
  }

  /** The register orders of a period. */
  datatype Orders = Orders(dst: seq<nat>, src: seq<nat>) {
    ghost predicate Valid(regs: nat) {
      |dst| == |src| == regs >= 2 && Permutation(dst) && Permutation(src)
    }
  }

  datatype Counts = Counts(cache: nat, math: nat)

  datatype Interp = Interp(rng: State, dstCnt: nat, srcCnt: nat, mix: seq<Word32>)

  /** Merges a cached word, found through the next source register, into the next destination. */
  ghost function CacheStep(o: Orders, e: Env, s: Interp): (r: Interp)
    requires o.Valid(|s.mix|) && e.Valid()
    ensures |r.mix| == |s.mix|
  {
    var n := |s.mix|;
    var offset := s.mix[o.src[s.srcCnt % n]] % CACHE_WORDS;
    var d := o.dst[s.dstCnt % n];
    var (rng, sel) := Next(s.rng);
    Interp(rng, s.dstCnt + 1, s.srcCnt + 1, s.mix[d := Merge(s.mix[d], e.cache[offset], sel)])
  }

  /** Merges a random operation on two registers into the next destination. */
  ghost function MathStep(version: Version, o: Orders, s: Interp): (r: Interp)
    requires o.Valid(|s.mix|)
    ensures |r.mix| == |s.mix|
  {
    var n := |s.mix|;
    var (rng1, rnd) := Next(s.rng);
    var (src1, src2) := DrawnSources(rnd, n);
    var (rng2, sel1) := Next(rng1);
    var d := o.dst[s.dstCnt % n];
    var (rng3, sel2) := Next(rng2);
    var data := Value(OperationOf(version, sel1 % 11), s.mix[src1], s.mix[src2]);
    Interp(rng3, s.dstCnt + 1, s.srcCnt, s.mix[d := Merge(s.mix[d], data, sel2)])
  }

  /** The state after n iterations. */
  ghost function Loop(version: Version, counts: Counts, o: Orders, e: Env, s: Interp, n: nat): (r: Interp)
    requires o.Valid(|s.mix|) && e.Valid()
    ensures |r.mix| == |s.mix|
  {
    if n == 0 then s
    else
      var s1 := Loop(version, counts, o, e, s, n - 1);
      var s2 := if n - 1 < counts.cache then CacheStep(o, e, s1) else s1;
      if n - 1 < counts.math then MathStep(version, o, s2) else s2
  }

  /** Merges loaded word i, the first one always into register 0. */
  ghost function LoadStep(o: Orders, e: Env, s: Interp, i: nat): (r: Interp)
    requires o.Valid(|s.mix|) && e.Valid() && i < DAG_LOADS
    ensures |r.mix| == |s.mix|
  {
    var d := if i == 0 then 0 else o.dst[s.dstCnt % |s.mix|];
    var (rng, sel) := Next(s.rng);
    Interp(rng, if i == 0 then s.dstCnt else s.dstCnt + 1, s.srcCnt, s.mix[d := Merge(s.mix[d], e.entries[i], sel)])
  }

  ghost function Loads(o: Orders, e: Env, s: Interp, n: nat): (r: Interp)
    requires o.Valid(|s.mix|) && e.Valid() && n <= DAG_LOADS
    ensures |r.mix| == |s.mix|
  {
    if n == 0 then s else LoadStep(o, e, Loads(o, e, s, n - 1), n - 1)
  }

  function Larger(counts: Counts): nat {
    if counts.cache > counts.math then counts.cache else counts.math
  }

  /** A draw of the generator, as the shuffle uses it. */
  function Drawn(s: State): (State, nat) {
    var (t, r) := Next(s);
    (t, r)
  }

  /** The generator and the orders at the start of a period. */
  function Initial(period: Word, regs: nat): (r: (State, seq<nat>, seq<nat>))
    requires regs > 0
    ensures |r.1| == |r.2| == regs
  {
    Shuffle(Drawn, Seeded(period), Identity(regs), Identity(regs), regs - 1)
  }

  lemma InitialOrders(period: Word, regs: nat)
    requires regs >= 2
    ensures Orders(Initial(period, regs).1, Initial(period, regs).2).Valid(regs)
  {
    hide Shuffle, Seeded, Drawn;
    assert Permutation(Identity(regs));
    ShufflePermutes(Drawn, Seeded(period), Identity(regs), Identity(regs), regs - 1);
  }

  /** Within any regs consecutive uses of the destination order no register comes twice. */
  lemma DestinationsDistinct(period: Word, regs: nat, c: nat, d: nat)
    requires regs >= 2 && c < d < c + regs
    ensures
      var dst := Initial(period, regs).1;
      dst[c % regs] != dst[d % regs]
  {
    hide Initial;
    InitialOrders(period, regs);
    ConsecutiveDistinct(Initial(period, regs).1, c, d);
  }

  /** The registers after one pass of the inner loop. */
  ghost function ProgPowLoop(version: Version, counts: Counts, period: Word, e: Env, mix: seq<Word32>): (r: seq<Word32>)
    requires |mix| >= 2 && e.Valid()
    ensures |r| == |mix|
  {
    InitialOrders(period, |mix|);
    var (rng, dst, src) := Initial(period, |mix|);
    var o := Orders(dst, src);
    Loads(o, e, Loop(version, counts, o, e, Interp(rng, 0, 0, mix), Larger(counts)), DAG_LOADS).mix
  }
}
