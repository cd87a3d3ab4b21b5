/**
 The fill loop of Argon2 over passes, slices, lanes and columns, run sequentially as the code does
 or with the lanes of a slice interleaved in any order.
 */
module Argon2Fill {
  import opened Arithmetic
  import opened Words
  import opened Options
  import opened Argon2Mix
  import opened Argon2Reference

  datatype Kind = D | I | ID

  /** Lanes, passes, segment length and mode of one computation. */
  datatype Config = Config(kind: Kind, p: nat, t: nat, seg: nat) {
    /** The blocks of all lanes. */
    function Blocks(): int { p * (4 * seg) }

    ghost predicate Valid() {
      0 < p < U32 && t < U32 && 0 < seg && Blocks() < U32
    }

    function Q(): nat { 4 * seg }

    function KindNumber(): Word {
      match kind case D => 0 case I => 1 case ID => 2
    }

    /** Whether the addresses of a segment are computed without looking at the memory. */
    predicate Independent(pass: nat, slice: nat) {
      kind == I || (kind == ID && pass == 0 && slice < 2)
    }
  }

  type Memory = seq<seq<Option<Block>>>

  ghost predicate Shaped(cfg: Config, m: Memory) {
    |m| == cfg.p && forall l | 0 <= l < cfg.p :: |m[l]| == cfg.Q()
  }

  function ZeroBlock(): Block {
    seq(WORDS_PER_BLOCK, i => 0)
  }

  // ----- Data-independent addresses ------------------------------------------------------------

  lemma MemoryFits(cfg: Config)
    requires cfg.Valid()
    ensures 0 < cfg.seg <= cfg.Blocks() < U32
  {
    MulMono(1, cfg.p, 4 * cfg.seg);
  }

  function InputBlock(cfg: Config, pass: Word, lane: Word, slice: Word, counter: Word): Block
    requires cfg.Valid()
  {
    MemoryFits(cfg);
    ZeroBlock()[0 := pass][1 := lane][2 := slice][3 := cfg.Blocks()][4 := cfg.t]
               [5 := cfg.KindNumber()][6 := counter]
  }

  /** The idx-th pseudo-random value of a segment. */
  function PseudoRandom(cfg: Config, pass: Word, lane: Word, slice: Word, idx: nat): Word
    requires cfg.Valid() && idx < cfg.seg
  {
    G(ZeroBlock(), G(ZeroBlock(), InputBlock(cfg, pass, lane, slice, idx / WORDS_PER_BLOCK + 1)))
      [idx % WORDS_PER_BLOCK]
  }

  /** The input block, word by word, with the counter still zero. */
  method BuildInput(cfg: Config, pass: Word, lane: Word, slice: Word, blocks: Word, passes: Word, kind: Word)
    returns (input: Block)
    requires cfg.Valid() && blocks == cfg.Blocks() && passes == cfg.t && kind == cfg.KindNumber()
    ensures input == InputBlock(cfg, pass, lane, slice, 0)
  {
    input := seq(128, _ => 0);
    input := input[0 := pass];
    input := input[1 := lane];
    input := input[2 := slice];
    input := input[3 := blocks];
    input := input[4 := passes];
    input := input[5 := kind];
  }

  /** Both compressions with a zero block. */
  method TwoCompressions(input: Block) returns (addrBlock: Block)
    ensures addrBlock == G(ZeroBlock(), G(ZeroBlock(), input))
  {
    hide G;
    var zeros := seq(128, _ => 0);
    var tmp := Compress(zeros, input, false, None);
    addrBlock := Compress(zeros, tmp, false, None);
  }

  method GenerateAddresses(cfg: Config, pass: Word, lane: Word, slice: Word, blocks: Word, passes: Word, kind: Word)
    returns (js: seq<Word>)
    requires cfg.Valid() && blocks == cfg.Blocks() && passes == cfg.t && kind == cfg.KindNumber()
    ensures |js| == cfg.seg
    ensures forall i | 0 <= i < cfg.seg :: js[i] == PseudoRandom(cfg, pass, lane, slice, i)
  {
    hide G;
    var input := BuildInput(cfg, pass, lane, slice, blocks, passes, kind);
    js := [];
    var counter := 0;
    var addrBlock := input;
    for i := 0 to cfg.seg
      invariant |js| == i
      invariant counter == (i + WORDS_PER_BLOCK - 1) / WORDS_PER_BLOCK
      invariant input == InputBlock(cfg, pass, lane, slice, counter)
      invariant i % WORDS_PER_BLOCK != 0 ==> addrBlock == G(ZeroBlock(), G(ZeroBlock(), input))
      invariant forall k | 0 <= k < i :: js[k] == PseudoRandom(cfg, pass, lane, slice, k)
    {
      if i % WORDS_PER_BLOCK == 0 {
        counter := counter + 1;
        input := input[6 := counter];
        addrBlock := TwoCompressions(input);
      }
      js := js + [addrBlock[i % WORDS_PER_BLOCK]];
    }
  }

  // ----- One block -------------------------------------------------------------------------------

  /** A place in the computation: the idx-th block of a lane's segment. */
  datatype Pos = Pos(pass: nat, slice: nat, lane: nat, idx: nat) {
    ghost predicate Valid(cfg: Config) {
      cfg.Valid() && pass < cfg.t && slice < SYNC_POINTS && lane < cfg.p && idx < cfg.seg
    }

    function Col(cfg: Config): nat { slice * cfg.seg + idx }

    function PrevCol(cfg: Config): nat
      requires cfg.seg > 0
    {
      (Col(cfg) - 1) % cfg.Q()
    }

    /** The first two columns are given. */
    predicate Skipped() { pass == 0 && slice == 0 && idx < 2 }
  }

  lemma PreviousColumn(slice: nat, seg: nat, idx: nat)
    requires slice < SYNC_POINTS && idx < seg
    ensures var col := slice * seg + idx;
            col < 4 * seg && (col - 1) % (4 * seg) == if col == 0 then 4 * seg - 1 else col - 1
  {
    var col := slice * seg + idx;
    Segment(slice, seg);
    if col == 0 {
      DivModUnique(-1, -1, 4 * seg - 1, 4 * seg);
    } else {
      DivModUnique(col - 1, 0, col - 1, 4 * seg);
    }
  }

  lemma ColumnInLane(cfg: Config, pos: Pos)
    requires pos.Valid(cfg)
    ensures pos.Col(cfg) < cfg.Q()
    ensures pos.PrevCol(cfg) == if pos.Col(cfg) == 0 then cfg.Q() - 1 else pos.Col(cfg) - 1
  {
    PreviousColumn(pos.slice, cfg.seg, pos.idx);
  }

  function BlockAt(m: Memory, lane: nat, col: nat): Block
    requires lane < |m| && col < |m[lane]|
  {
    match m[lane][col] case Some(b) => b case None => ZeroBlock()
  }

  function RandomWord(cfg: Config, m: Memory, pos: Pos): Word
    requires pos.Valid(cfg) && Shaped(cfg, m)
  {
    if cfg.Independent(pos.pass, pos.slice) then
      PseudoRandom(cfg, pos.pass, pos.lane, pos.slice, pos.idx)
    else
      BlockAt(m, pos.lane, pos.PrevCol(cfg))[0]
  }

  function RefLane(cfg: Config, pos: Pos, j: Word): nat
    requires cfg.p > 0
  {
    if pos.pass == 0 && pos.slice == 0 then pos.lane else (j / U32) % cfg.p
  }

  function RefCol(cfg: Config, pos: Pos, j: Word): nat
    requires cfg.p > 0 && cfg.seg > 0
  {
    RefColumn(pos.pass, pos.slice, pos.idx, cfg.Q(), cfg.seg, j % U32, RefLane(cfg, pos, j) == pos.lane)
  }

  function NewBlock(cfg: Config, m: Memory, pos: Pos): Block
    requires pos.Valid(cfg) && Shaped(cfg, m)
  {
    ColumnInLane(cfg, pos);
    var j := RandomWord(cfg, m, pos);
    var z := G(BlockAt(m, pos.lane, pos.PrevCol(cfg)), BlockAt(m, RefLane(cfg, pos, j), RefCol(cfg, pos, j)));
    if pos.pass > 0 && m[pos.lane][pos.Col(cfg)].Some? then XorBlocks(z, m[pos.lane][pos.Col(cfg)].value) else z
  }

  /** Computes one block. */
  function Step(cfg: Config, m: Memory, pos: Pos): (m': Memory)
    requires pos.Valid(cfg) && Shaped(cfg, m)
    ensures Shaped(cfg, m')
  {
    ColumnInLane(cfg, pos);
    if pos.Skipped() then m
    else m[pos.lane := m[pos.lane][pos.Col(cfg) := Some(NewBlock(cfg, m, pos))]]
  }

  /** Both halves of the random word: the low one places the column, the high one names the lane. */
  lemma HalvesOf(j1: nat, j2: nat)
    requires j1 < U32 && j2 < U32
    ensures j1 + U32 * j2 < U64 && (j1 + U32 * j2) % U32 == j1 && (j1 + U32 * j2) / U32 == j2
  {
    DivModUnique(j1 + U32 * j2, j2, j1, U32);
  }

  /** Lane and column of the block that section 3.4 of RFC 9106 prescribes for J1 and J2. */
  ghost function RfcReference(cfg: Config, pos: Pos, j1: nat, j2: nat): (r: (nat, int))
    requires pos.Valid(cfg)
  {
    var lane := if pos.pass == 0 && pos.slice == 0 then pos.lane else j2 % cfg.p;
    var w := W(pos.pass, pos.slice, pos.idx, cfg.seg, lane == pos.lane);
    var z := |w| - 1 - (|w| * ((j1 * j1) / U32)) / U32;
    (lane, if 0 <= z < |w| then w[z] else -1)
  }

  lemma ReferenceIsRfc(cfg: Config, pos: Pos, j1: nat, j2: nat)
    requires pos.Valid(cfg) && !pos.Skipped() && !Degenerate(pos.pass, pos.slice, pos.idx, cfg.seg)
    requires j1 < U32 && j2 < U32
    ensures j1 + U32 * j2 < U64
    ensures (RefLane(cfg, pos, j1 + U32 * j2), RefCol(cfg, pos, j1 + U32 * j2)) == RfcReference(cfg, pos, j1, j2)
  {
    hide W, RefColumn;
    HalvesOf(j1, j2);
    var lane := if pos.pass == 0 && pos.slice == 0 then pos.lane else j2 % cfg.p;
    RefColumnIsRfc(pos.pass, pos.slice, pos.idx, cfg.seg, j1, lane == pos.lane);
  }

  /**
   One step by sections 3.1, 3.2 and 3.4 of RFC 9106: x is the block before, y the block that the two halves of
   the random word refer to, current the one to be overwritten; the random word is the first of x, or comes from the
   address blocks.
   */
  lemma StepIsRfc(cfg: Config, m: Memory, pos: Pos, x: Block, y: Block, current: Block, j1: nat, j2: nat)
    requires pos.Valid(cfg) && !(pos.pass == 0 && pos.slice == 0 && pos.idx <= 1) && Shaped(cfg, m)
    requires !Degenerate(pos.pass, pos.slice, pos.idx, cfg.seg) && j1 < U32 && j2 < U32
    requires var col := pos.slice * cfg.seg + pos.idx;
             && col < 4 * cfg.seg && m[pos.lane][if col > 0 then col - 1 else 4 * cfg.seg - 1] == Some(x)
             && (pos.pass > 0 ==> m[pos.lane][col] == Some(current))
    requires var (lane, column) := RfcReference(cfg, pos, j1, j2);
             lane < cfg.p && 0 <= column < 4 * cfg.seg && m[lane][column] == Some(y)
    requires match cfg.kind
             case D => j1 + U32 * j2 == x[0]
             case I => j1 + U32 * j2 == PseudoRandom(cfg, pos.pass, pos.lane, pos.slice, pos.idx)
             case ID => j1 + U32 * j2 == if pos.pass > 0 || pos.slice > 1 then x[0]
                                         else PseudoRandom(cfg, pos.pass, pos.lane, pos.slice, pos.idx)
    ensures var col := pos.slice * cfg.seg + pos.idx;
            var b: Block := if pos.pass == 0 then G(x, y) else XorBlocks(G(x, y), current);
            Step(cfg, m, pos) == m[pos.lane := m[pos.lane][col := Some(b)]]
  {
    hide G, XorBlocks, PseudoRandom, RfcReference, RefColumn;
    ColumnInLane(cfg, pos);
    ReferenceIsRfc(cfg, pos, j1, j2);
    assert RandomWord(cfg, m, pos) == j1 + U32 * j2;
  }

  lemma ReferenceSafeAt(cfg: Config, pos: Pos, j: Word)
    requires pos.Valid(cfg) && !pos.Skipped()
    ensures var c, base := RefCol(cfg, pos, j), pos.slice * cfg.seg;
            && RefLane(cfg, pos, j) < cfg.p && c < cfg.Q()
            && (RefLane(cfg, pos, j) == pos.lane ==> c != pos.Col(cfg) && (pos.pass == 0 ==> c < base + pos.idx))
            && (RefLane(cfg, pos, j) != pos.lane ==> !(base <= c < base + cfg.seg) && (pos.pass == 0 ==> c < base))
  {
    Segment(pos.slice, cfg.seg);
    ReferenceSafe(pos.pass, pos.slice, pos.idx, cfg.seg, j % U32, RefLane(cfg, pos, j) == pos.lane);
  }

  // ----- What a lane sees of the others ------------------------------------------------------------

  /** Same content outside the columns of segment `slice`. */
  ghost predicate AgreeOutside(cfg: Config, slice: nat, x: seq<Option<Block>>, y: seq<Option<Block>>) {
    && |x| == |y| == cfg.Q()
    && forall c | 0 <= c < cfg.Q() && !(slice * cfg.seg <= c < slice * cfg.seg + cfg.seg) :: x[c] == y[c]
  }

  /** The new block depends on the own lane and, in the other lanes, on finished segments only. */
  lemma NewBlockFrame(cfg: Config, m: Memory, n: Memory, pos: Pos)
    requires pos.Valid(cfg) && !pos.Skipped() && Shaped(cfg, m) && Shaped(cfg, n)
    requires m[pos.lane] == n[pos.lane]
    requires forall l | 0 <= l < cfg.p :: AgreeOutside(cfg, pos.slice, m[l], n[l])
    ensures NewBlock(cfg, m, pos) == NewBlock(cfg, n, pos)
  {
    hide G, XorBlocks, PseudoRandom, RefColumn;
    ColumnInLane(cfg, pos);
    assert RandomWord(cfg, m, pos) == RandomWord(cfg, n, pos);
    var j := RandomWord(cfg, m, pos);
    ReferenceSafeAt(cfg, pos, j);
    assert AgreeOutside(cfg, pos.slice, m[RefLane(cfg, pos, j)], n[RefLane(cfg, pos, j)]);
  }

  // ----- Interleavings of one slice --------------------------------------------------------------

  /** Lane l computing its first n blocks of a slice on its own. */
  function Solo(cfg: Config, m: Memory, pass: nat, slice: nat, l: nat, n: nat): (m': Memory)
    requires Pos(pass, slice, l, 0).Valid(cfg) && Shaped(cfg, m) && n <= cfg.seg
    ensures Shaped(cfg, m')
  {
    if n == 0 then m else Step(cfg, Solo(cfg, m, pass, slice, l, n - 1), Pos(pass, slice, l, n - 1))
  }

  lemma {:induction false} SoloFrame(cfg: Config, m: Memory, pass: nat, slice: nat, l: nat, n: nat)
    requires Pos(pass, slice, l, 0).Valid(cfg) && Shaped(cfg, m) && n <= cfg.seg
    ensures forall k | 0 <= k < cfg.p && k != l :: Solo(cfg, m, pass, slice, l, n)[k] == m[k]
    ensures AgreeOutside(cfg, slice, m[l], Solo(cfg, m, pass, slice, l, n)[l])
  {
    hide NewBlock;
    if n > 0 {
      SoloFrame(cfg, m, pass, slice, l, n - 1);
      ColumnInLane(cfg, Pos(pass, slice, l, n - 1));
    }
  }

  /** How many blocks of the slice each lane has computed. */
  type Progress = seq<nat>

  ghost predicate InSlice(cfg: Config, pass: nat, slice: nat, done: Progress) {
    cfg.Valid() && pass < cfg.t && slice < SYNC_POINTS && |done| == cfg.p
    && forall l | 0 <= l < cfg.p :: done[l] <= cfg.seg
  }

  /** Every lane looks as if it had run alone. */
  ghost predicate AsIfAlone(cfg: Config, m0: Memory, m: Memory, pass: nat, slice: nat, done: Progress)
    requires InSlice(cfg, pass, slice, done)
  {
    Shaped(cfg, m0) && Shaped(cfg, m)
    && forall l | 0 <= l < cfg.p :: m[l] == Solo(cfg, m0, pass, slice, l, done[l])[l]
  }

  /** The next block of any lane keeps every lane as if it had run alone. */
  lemma StepKeepsAlone(cfg: Config, m0: Memory, m: Memory, pass: nat, slice: nat, done: Progress, l: nat)
    requires InSlice(cfg, pass, slice, done) && l < cfg.p && done[l] < cfg.seg
    requires AsIfAlone(cfg, m0, m, pass, slice, done)
    ensures AsIfAlone(cfg, m0, Step(cfg, m, Pos(pass, slice, l, done[l])), pass, slice, done[l := done[l] + 1])
  {
    var pos := Pos(pass, slice, l, done[l]);
    var alone := Solo(cfg, m0, pass, slice, l, done[l]);
    forall k | 0 <= k < cfg.p
      ensures AgreeOutside(cfg, slice, m[k], alone[k])
    {
      SoloFrame(cfg, m0, pass, slice, k, done[k]);
      SoloFrame(cfg, m0, pass, slice, l, done[l]);
    }
    ColumnInLane(cfg, pos);
    if !pos.Skipped() {
      NewBlockFrame(cfg, m, alone, pos);
    }
    hide NewBlock;
    assert Solo(cfg, m0, pass, slice, l, done[l] + 1) == Step(cfg, alone, pos);
  }

  /** The first n lanes have finished their segment, the others have not begun. */
  ghost function AllDone(cfg: Config, n: nat): Progress {
    seq(cfg.p, l => if l < n then cfg.seg else 0)
  }

  function Count(sched: seq<nat>, l: nat): nat {
    if sched == [] then 0 else (if sched[0] == l then 1 else 0) + Count(sched[1..], l)
  }

  /** The schedule brings every lane exactly to the end of its segment. */
  ghost predicate Completes(cfg: Config, done: Progress, sched: seq<nat>) {
    |done| == cfg.p
    && (forall i | 0 <= i < |sched| :: sched[i] < cfg.p)
    && forall l | 0 <= l < cfg.p :: done[l] + Count(sched, l) == cfg.seg
  }

  lemma Advance(cfg: Config, done: Progress, sched: seq<nat>)
    requires Completes(cfg, done, sched) && sched != []
    ensures done[sched[0]] < cfg.seg
    ensures Completes(cfg, done[sched[0] := done[sched[0]] + 1], sched[1..])
  {
  }

  /** Lanes take turns as the schedule says, one block at a time. */
  ghost function Interleave(cfg: Config, m: Memory, pass: nat, slice: nat, done: Progress, sched: seq<nat>)
    : (m': Memory)
    requires InSlice(cfg, pass, slice, done) && Shaped(cfg, m) && Completes(cfg, done, sched)
    ensures Shaped(cfg, m')
    decreases |sched|
  {
    if sched == [] then m
    else
      var l := sched[0];
      assert Completes(cfg, done[l := done[l] + 1], sched[1..]) by { Advance(cfg, done, sched); }
      Interleave(cfg, Step(cfg, m, Pos(pass, slice, l, done[l])), pass, slice, done[l := done[l] + 1], sched[1..])
  }

  lemma {:induction false} InterleaveAlone(
    cfg: Config, m0: Memory, m: Memory, pass: nat, slice: nat, done: Progress, sched: seq<nat>)
    requires InSlice(cfg, pass, slice, done) && Completes(cfg, done, sched)
    requires AsIfAlone(cfg, m0, m, pass, slice, done)
    ensures AsIfAlone(cfg, m0, Interleave(cfg, m, pass, slice, done, sched), pass, slice, AllDone(cfg, cfg.p))
    decreases |sched|
  {
    hide Solo, Step;
    if sched == [] {
      assert done == AllDone(cfg, cfg.p);
    } else {
      var l := sched[0];
      Advance(cfg, done, sched);
      StepKeepsAlone(cfg, m0, m, pass, slice, done, l);
      InterleaveAlone(cfg, m0, Step(cfg, m, Pos(pass, slice, l, done[l])), pass, slice,
                      done[l := done[l] + 1], sched[1..]);
    }
  }

  // ----- The sequential loop -----------------------------------------------------------------------

  /** The loop over the first n lanes of a slice, as the code runs it. */
  function SliceRun(cfg: Config, m: Memory, pass: nat, slice: nat, n: nat): (m': Memory)
    requires Pos(pass, slice, 0, 0).Valid(cfg) && Shaped(cfg, m) && n <= cfg.p
    ensures Shaped(cfg, m')
  {
    if n == 0 then m else Solo(cfg, SliceRun(cfg, m, pass, slice, n - 1), pass, slice, n - 1, cfg.seg)
  }

  lemma {:induction false} SoloKeepsAlone(
    cfg: Config, m0: Memory, m: Memory, pass: nat, slice: nat, done: Progress, l: nat, n: nat)
    requires InSlice(cfg, pass, slice, done) && l < cfg.p && done[l] == 0 && n <= cfg.seg
    requires AsIfAlone(cfg, m0, m, pass, slice, done)
    ensures AsIfAlone(cfg, m0, Solo(cfg, m, pass, slice, l, n), pass, slice, done[l := n])
  {
    hide Step;
    if n == 0 {
      assert done[l := 0] == done;
    } else {
      SoloKeepsAlone(cfg, m0, m, pass, slice, done, l, n - 1);
      StepKeepsAlone(cfg, m0, Solo(cfg, m, pass, slice, l, n - 1), pass, slice, done[l := n - 1], l);
      assert done[l := n - 1][l := n] == done[l := n];
    }
  }

  lemma {:induction false} SliceRunAlone(cfg: Config, m: Memory, pass: nat, slice: nat, n: nat)
    requires Pos(pass, slice, 0, 0).Valid(cfg) && Shaped(cfg, m) && n <= cfg.p
    ensures AsIfAlone(cfg, m, SliceRun(cfg, m, pass, slice, n), pass, slice, AllDone(cfg, n))
  {
    if n > 0 {
      SliceRunAlone(cfg, m, pass, slice, n - 1);
      SoloKeepsAlone(cfg, m, SliceRun(cfg, m, pass, slice, n - 1), pass, slice, AllDone(cfg, n - 1), n - 1, cfg.seg);
      assert AllDone(cfg, n - 1)[n - 1 := cfg.seg] == AllDone(cfg, n);
    }
  }

  /** Any interleaving of the lanes of a slice leaves the memory that the sequential loop leaves. */
  lemma LaneOrderIrrelevant(cfg: Config, m: Memory, pass: nat, slice: nat, sched: seq<nat>)
    requires Pos(pass, slice, 0, 0).Valid(cfg) && Shaped(cfg, m)
    requires Completes(cfg, AllDone(cfg, 0), sched)
    ensures Interleave(cfg, m, pass, slice, AllDone(cfg, 0), sched) == SliceRun(cfg, m, pass, slice, cfg.p)
  {
    hide Step;
    SliceRunAlone(cfg, m, pass, slice, 0);
    InterleaveAlone(cfg, m, m, pass, slice, AllDone(cfg, 0), sched);
    SliceRunAlone(cfg, m, pass, slice, cfg.p);
    var a, b := Interleave(cfg, m, pass, slice, AllDone(cfg, 0), sched), SliceRun(cfg, m, pass, slice, cfg.p);
    assert forall l | 0 <= l < cfg.p :: a[l] == b[l];
  }

  /** The first n slices of the whole run, slice n being slice n % 4 of pass n / 4. */
  function FillRun(cfg: Config, m: Memory, n: nat): (m': Memory)
    requires cfg.Valid() && Shaped(cfg, m) && n <= 4 * cfg.t
    ensures Shaped(cfg, m')
  {
    if n == 0 then m else SliceRun(cfg, FillRun(cfg, m, n - 1), (n - 1) / 4, (n - 1) % 4, cfg.p)
  }

  /** The same with an arbitrary schedule for each slice. */
  ghost function ConcurrentRun(cfg: Config, m: Memory, scheds: seq<seq<nat>>): (m': Memory)
    requires cfg.Valid() && Shaped(cfg, m) && |scheds| <= 4 * cfg.t
    requires forall i | 0 <= i < |scheds| :: Completes(cfg, AllDone(cfg, 0), scheds[i])
    ensures Shaped(cfg, m')
  {
    if scheds == [] then m
    else
      var n := |scheds| - 1;
      Interleave(cfg, ConcurrentRun(cfg, m, scheds[..n]), n / 4, n % 4, AllDone(cfg, 0), scheds[n])
  }

  /** Lane order is irrelevant over the whole run. */
  lemma {:induction false} RunOrderIrrelevant(cfg: Config, m: Memory, scheds: seq<seq<nat>>)
    requires cfg.Valid() && Shaped(cfg, m) && |scheds| <= 4 * cfg.t
    requires forall i | 0 <= i < |scheds| :: Completes(cfg, AllDone(cfg, 0), scheds[i])
    ensures ConcurrentRun(cfg, m, scheds) == FillRun(cfg, m, |scheds|)
  {
    hide Interleave, SliceRun, Completes, AllDone;
    if scheds != [] {
      var n := |scheds| - 1;
      RunOrderIrrelevant(cfg, m, scheds[..n]);
      LaneOrderIrrelevant(cfg, FillRun(cfg, m, n), n / 4, n % 4, scheds[n]);
    }
  }

  // ----- No read of an empty slot ------------------------------------------------------------------

  /** Every column a lane has reached holds a block. */
  ghost predicate Filled(cfg: Config, m: Memory, pass: nat, slice: nat, done: Progress) {
    Shaped(cfg, m) && |done| == cfg.p
    && forall l, c | 0 <= l < cfg.p && 0 <= c < cfg.Q() && (pass > 0 || c < 2 || c < slice * cfg.seg + done[l]) ::
         m[l][c].Some?
  }

  /** The predecessor, the reference and, after the first pass, the old block are all there. */
  ghost predicate ReadsFilled(cfg: Config, m: Memory, pos: Pos)
    requires pos.Valid(cfg) && Shaped(cfg, m)
  {
    ColumnInLane(cfg, pos);
    var j := RandomWord(cfg, m, pos);
    && m[pos.lane][pos.PrevCol(cfg)].Some?
    && RefLane(cfg, pos, j) < cfg.p && RefCol(cfg, pos, j) < cfg.Q()
    && m[RefLane(cfg, pos, j)][RefCol(cfg, pos, j)].Some?
    && (pos.pass > 0 ==> m[pos.lane][pos.Col(cfg)].Some?)
  }

  lemma FilledReads(cfg: Config, m: Memory, done: Progress, pos: Pos)
    requires pos.Valid(cfg) && !pos.Skipped() && Filled(cfg, m, pos.pass, pos.slice, done)
    requires done[pos.lane] == pos.idx
    ensures ReadsFilled(cfg, m, pos)
  {
    hide PseudoRandom, RefColumn;
    ColumnInLane(cfg, pos);
    Segment(pos.slice, cfg.seg);
    ReferenceSafeAt(cfg, pos, RandomWord(cfg, m, pos));
  }

  lemma StepFills(cfg: Config, m: Memory, done: Progress, pos: Pos)
    requires pos.Valid(cfg) && Filled(cfg, m, pos.pass, pos.slice, done) && done[pos.lane] == pos.idx
    ensures Filled(cfg, Step(cfg, m, pos), pos.pass, pos.slice, done[pos.lane := pos.idx + 1])
  {
    hide NewBlock;
    ColumnInLane(cfg, pos);
  }

  /** No step of an interleaved slice reads an empty slot. */
  ghost predicate NeverReadsEmpty(cfg: Config, m: Memory, pass: nat, slice: nat, done: Progress, sched: seq<nat>)
    requires InSlice(cfg, pass, slice, done) && Shaped(cfg, m) && Completes(cfg, done, sched)
    decreases |sched|
  {
    sched == [] ||
    var l := sched[0];
    Advance(cfg, done, sched);
    var pos := Pos(pass, slice, l, done[l]);
    && (pos.Skipped() || ReadsFilled(cfg, m, pos))
    && NeverReadsEmpty(cfg, Step(cfg, m, pos), pass, slice, done[l := done[l] + 1], sched[1..])
  }

  lemma {:induction false} InterleaveReadsFilled(
    cfg: Config, m: Memory, pass: nat, slice: nat, done: Progress, sched: seq<nat>)
    requires InSlice(cfg, pass, slice, done) && Completes(cfg, done, sched)
    requires Filled(cfg, m, pass, slice, done)
    ensures NeverReadsEmpty(cfg, m, pass, slice, done, sched)
    ensures Filled(cfg, Interleave(cfg, m, pass, slice, done, sched), pass, slice, AllDone(cfg, cfg.p))
    decreases |sched|
  {
    hide Step, ReadsFilled;
    if sched == [] {
      assert done == AllDone(cfg, cfg.p);
    } else {
      var pos := Pos(pass, slice, sched[0], done[sched[0]]);
      Advance(cfg, done, sched);
      StepFills(cfg, m, done, pos);
      if !pos.Skipped() {
        FilledReads(cfg, m, done, pos);
      }
      InterleaveReadsFilled(cfg, Step(cfg, m, pos), pass, slice, done[pos.lane := pos.idx + 1], sched[1..]);
    }
  }

  lemma SliceEnds(cfg: Config, m: Memory, n: nat)
    requires cfg.Valid() && Filled(cfg, m, n / 4, n % 4, AllDone(cfg, cfg.p))
    ensures Filled(cfg, m, (n + 1) / 4, (n + 1) % 4, AllDone(cfg, 0))
  {
    Segment(n % 4, cfg.seg);
    DivModUnique(n + 1, if n % 4 == 3 then n / 4 + 1 else n / 4, if n % 4 == 3 then 0 else n % 4 + 1, 4);
  }

  /** No step of a concurrent run reads an empty slot. */
  ghost predicate RunNeverReadsEmpty(cfg: Config, m: Memory, scheds: seq<seq<nat>>)
    requires cfg.Valid() && Shaped(cfg, m) && |scheds| <= 4 * cfg.t
    requires forall i | 0 <= i < |scheds| :: Completes(cfg, AllDone(cfg, 0), scheds[i])
  {
    scheds == [] ||
    var n := |scheds| - 1;
    && RunNeverReadsEmpty(cfg, m, scheds[..n])
    && NeverReadsEmpty(cfg, ConcurrentRun(cfg, m, scheds[..n]), n / 4, n % 4, AllDone(cfg, 0), scheds[n])
  }

  /** The same over all passes, from the two given columns of each lane. */
  lemma {:induction false} RunReadsFilled(cfg: Config, m: Memory, scheds: seq<seq<nat>>)
    requires cfg.Valid() && |scheds| <= 4 * cfg.t && Filled(cfg, m, 0, 0, AllDone(cfg, 0))
    requires forall i | 0 <= i < |scheds| :: Completes(cfg, AllDone(cfg, 0), scheds[i])
    ensures RunNeverReadsEmpty(cfg, m, scheds)
    ensures var n := |scheds|; Filled(cfg, ConcurrentRun(cfg, m, scheds), n / 4, n % 4, AllDone(cfg, 0))
  {
    assert Shaped(cfg, m);
    hide Interleave, Completes, NeverReadsEmpty, Filled;
    if scheds != [] {
      var n := |scheds| - 1;
      RunReadsFilled(cfg, m, scheds[..n]);
      InterleaveReadsFilled(cfg, ConcurrentRun(cfg, m, scheds[..n]), n / 4, n % 4, AllDone(cfg, 0), scheds[n]);
      SliceEnds(cfg, ConcurrentRun(cfg, m, scheds), n);
    }
  }

  // ----- The loops in place ------------------------------------------------------------------------

  ghost function Contents(b: array2<Option<Block>>): Memory
    reads b
  {
    seq(b.Length0, l requires 0 <= l < b.Length0 reads b =>
      seq(b.Length1, c requires 0 <= c < b.Length1 reads b => b[l, c]))
  }

  ghost predicate AreAddresses(cfg: Config, pos: Pos, js: seq<Word>)
    requires pos.Valid(cfg)
  {
    |js| == cfg.seg && forall i | 0 <= i < cfg.seg :: js[i] == PseudoRandom(cfg, pos.pass, pos.lane, pos.slice, i)
  }

  method StoreBlock(b: array2<Option<Block>>, lane: nat, col: nat, z: Block)
    requires lane < b.Length0 && col < b.Length1
    modifies b
    ensures Contents(b) == old(Contents(b))[lane := old(Contents(b))[lane][col := Some(z)]]
  {
    ghost var m := Contents(b);
    b[lane, col] := Some(z);
    assert forall l | 0 <= l < b.Length0 :: Contents(b)[l] == m[lane := m[lane][col := Some(z)]][l];
  }

  /** The column to be written and the one before it, cyclically. */
  method Columns(cfg: Config, pos: Pos) returns (col: nat, prevCol: nat)
    requires pos.Valid(cfg)
    ensures col == pos.Col(cfg) && prevCol == pos.PrevCol(cfg)
  {
    ColumnInLane(cfg, pos);
    col := pos.slice * cfg.seg + pos.idx;
    prevCol := (col - 1) % (4 * cfg.seg);
  }

  /** Lane and column from the halves of the random word. */
  method Reference(cfg: Config, pos: Pos, j: Word) returns (refLane: nat, refCol: int)
    requires pos.Valid(cfg)
    ensures refLane == RefLane(cfg, pos, j) && refCol == RefCol(cfg, pos, j)
  {
    hide RefColumn;
    var j1, j2 := j % U32, (j / U32) % U32;
    refLane := if pos.pass == 0 && pos.slice == 0 then pos.lane else j2 % cfg.p;
    refCol := RefColumn(pos.pass, pos.slice, pos.idx, cfg.Q(), cfg.seg, j1, refLane == pos.lane);
  }

  /** The body of the innermost loop; every slot it reads holds a block. */
  method FillBlock(cfg: Config, b: array2<Option<Block>>, pos: Pos, addresses: Option<seq<Word>>, ghost done: Progress)
    requires pos.Valid(cfg) && b.Length0 == cfg.p && b.Length1 == cfg.Q()
    requires Filled(cfg, Contents(b), pos.pass, pos.slice, done) && done[pos.lane] == pos.idx
    requires addresses.Some? == cfg.Independent(pos.pass, pos.slice)
    requires addresses.Some? ==> AreAddresses(cfg, pos, addresses.value)
    modifies b
    ensures Contents(b) == Step(cfg, old(Contents(b)), pos)
    ensures Filled(cfg, Contents(b), pos.pass, pos.slice, done[pos.lane := pos.idx + 1])
  {
    ghost var m := Contents(b);
    StepFills(cfg, m, done, pos);
    if pos.pass == 0 && pos.slice == 0 && pos.idx < 2 {
      return;
    }
    FilledReads(cfg, m, done, pos);
    ColumnInLane(cfg, pos);
    hide G, PseudoRandom, RefLane, RefCol, XorBlocks, Filled, Pos.Col, Pos.PrevCol;
    var col, prevCol := Columns(cfg, pos);
    var prev := b[pos.lane, prevCol].value;
    var j := if addresses.Some? then addresses.value[pos.idx] else prev[0];
    assert j == RandomWord(cfg, m, pos);
    var refLane, refCol := Reference(cfg, pos, j);
    var withXor := pos.pass > 0;
    var z := Compress(prev, b[refLane, refCol].value, withXor, if withXor then b[pos.lane, col] else None);
    assert z == NewBlock(cfg, m, pos);
    StoreBlock(b, pos.lane, col, z);
  }

  method FillSegment(cfg: Config, b: array2<Option<Block>>, pass: nat, slice: nat, lane: nat)
    requires Pos(pass, slice, lane, 0).Valid(cfg) && b.Length0 == cfg.p && b.Length1 == cfg.Q()
    requires Filled(cfg, Contents(b), pass, slice, AllDone(cfg, lane))
    modifies b
    ensures Contents(b) == Solo(cfg, old(Contents(b)), pass, slice, lane, cfg.seg)
    ensures Filled(cfg, Contents(b), pass, slice, AllDone(cfg, lane + 1))
  {
    hide Step, PseudoRandom, Filled;
    var addresses := None;
    if cfg.kind == I || (cfg.kind == ID && pass == 0 && slice < 2) {
      MemoryFits(cfg);
      var js := GenerateAddresses(cfg, pass, lane, slice, cfg.p * (4 * cfg.seg), cfg.t,
                                  if cfg.kind == I then 1 else 2);
      addresses := Some(js);
    }
    ghost var done: Progress := AllDone(cfg, lane);
    assert done[lane := 0] == done;
    for idx := 0 to cfg.seg
      invariant Contents(b) == Solo(cfg, old(Contents(b)), pass, slice, lane, idx)
      invariant Filled(cfg, Contents(b), pass, slice, done[lane := idx])
    {
      ghost var now: Progress := done[lane := idx];
      FillBlock(cfg, b, Pos(pass, slice, lane, idx), addresses, now);
      assert now[lane := idx + 1] == done[lane := idx + 1];
    }
    assert done[lane := cfg.seg] == AllDone(cfg, lane + 1);
  }

  method FillSlice(cfg: Config, b: array2<Option<Block>>, pass: nat, slice: nat)
    requires Pos(pass, slice, 0, 0).Valid(cfg) && b.Length0 == cfg.p && b.Length1 == cfg.Q()
    requires Filled(cfg, Contents(b), pass, slice, AllDone(cfg, 0))
    modifies b
    ensures Contents(b) == SliceRun(cfg, old(Contents(b)), pass, slice, cfg.p)
    ensures Filled(cfg, Contents(b), pass, slice, AllDone(cfg, cfg.p))
  {
    hide Filled, Solo, AllDone;
    for lane := 0 to cfg.p
      invariant Contents(b) == SliceRun(cfg, old(Contents(b)), pass, slice, lane)
      invariant Filled(cfg, Contents(b), pass, slice, AllDone(cfg, lane))
    {
      FillSegment(cfg, b, pass, slice, lane);
    }
  }

  lemma NextSlice(cfg: Config, m: Memory, n: nat)
    requires cfg.Valid() && Shaped(cfg, m) && n < 4 * cfg.t
    ensures FillRun(cfg, m, n + 1) == SliceRun(cfg, FillRun(cfg, m, n), n / 4, n % 4, cfg.p)
  {
    hide SliceRun;
  }

  method FillPass(cfg: Config, b: array2<Option<Block>>, pass: nat, ghost m: Memory)
    requires cfg.Valid() && pass < cfg.t && b.Length0 == cfg.p && b.Length1 == cfg.Q()
    requires Shaped(cfg, m) && Contents(b) == FillRun(cfg, m, 4 * pass)
    requires Filled(cfg, Contents(b), pass, 0, AllDone(cfg, 0))
    modifies b
    ensures Contents(b) == FillRun(cfg, m, 4 * pass + 4)
    ensures Filled(cfg, Contents(b), pass + 1, 0, AllDone(cfg, 0))
  {
    hide FillRun, SliceRun, Contents, Filled, AllDone, Shaped;
    for slice := 0 to SYNC_POINTS
      invariant Contents(b) == FillRun(cfg, m, 4 * pass + slice)
      invariant Filled(cfg, Contents(b), (4 * pass + slice) / 4, (4 * pass + slice) % 4, AllDone(cfg, 0))
    {
      NextSlice(cfg, m, 4 * pass + slice);
      DivModUnique(4 * pass + slice, pass, slice, 4);
      FillSlice(cfg, b, pass, slice);
      SliceEnds(cfg, Contents(b), 4 * pass + slice);
    }
  }

  method FillPasses(cfg: Config, b: array2<Option<Block>>, ghost m: Memory)
    requires cfg.Valid() && b.Length0 == cfg.p && b.Length1 == cfg.Q()
    requires Shaped(cfg, m) && Contents(b) == FillRun(cfg, m, 0)
    requires Filled(cfg, Contents(b), 0, 0, AllDone(cfg, 0))
    modifies b
    ensures Contents(b) == FillRun(cfg, m, 4 * cfg.t)
    ensures Filled(cfg, Contents(b), cfg.t, 0, AllDone(cfg, 0))
  {
    hide FillRun, Contents, Filled, AllDone, Shaped;
    for pass := 0 to cfg.t
      invariant Contents(b) == FillRun(cfg, m, 4 * pass)
      invariant Filled(cfg, Contents(b), pass, 0, AllDone(cfg, 0))
    {
      FillPass(cfg, b, pass, m);
    }
  }

  /** The whole fill loop, from the two given columns of each lane to the memory that is hashed. */
  method FillMemory(cfg: Config, b: array2<Option<Block>>)
    requires cfg.Valid() && b.Length0 == cfg.p && b.Length1 == cfg.Q()
    requires forall l | 0 <= l < cfg.p :: b[l, 0].Some? && b[l, 1].Some?
    modifies b
    ensures Contents(b) == FillRun(cfg, old(Contents(b)), 4 * cfg.t)
    ensures cfg.t > 0 ==> forall l, c | 0 <= l < cfg.p && 0 <= c < cfg.Q() :: Contents(b)[l][c].Some?
  {
    ghost var m := Contents(b);
    assert FillRun(cfg, m, 0) == m && Filled(cfg, m, 0, 0, AllDone(cfg, 0));
    FillPasses(cfg, b, m);
  }
}
