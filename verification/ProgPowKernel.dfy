/**
 The generator of straight-line kernels: for a period it emits the statements of one pass of the inner loop, once in
 the words of OpenCL and once in those of CUDA. Running the statements is interpreting the loop.
 */
module ProgPowKernel {
  import opened Arithmetic
  import opened Kiss99
  import opened Options
  import opened ProgPow
  import opened Words

  // ----- Statements and their meaning ----------------------------------------------------------------

  datatype Target = OpenCL | Cuda

  /** Functions the two languages name differently, or share. */
  datatype UnaryFn = OpenCLClz | OpenCLPopcount | CudaClz | CudaPopc
  datatype BinaryFn = OpenCLMulHi | CudaUmulhi | MinCall | RolU32 | RorU32
  datatype InfixOp = Plus | Times | Amp | Bar | Caret

  datatype Operand = CachedWord | Data | Entry(i: nat)

  datatype Statement =
    | SetOffset(src: nat, mask: nat)          // dag_offset = hash[src] & mask
    | SetInfix(op: InfixOp, l: nat, r: nat)   // data = hash[l] op hash[r]
    | SetCall(f: BinaryFn, l: nat, r: nat)    // data = f(hash[l], hash[r])
    | SetSum(g: UnaryFn, l: nat, r: nat)      // data = g(hash[l]) + g(hash[r])
    | TimesPlus(x: nat, v: Operand)           // hash[x] = (hash[x] * 33) + v
    | XorTimes(x: nat, v: Operand)            // hash[x] = (hash[x] ^ v) * 33
    | RolXor(x: nat, n: nat, v: Operand)      // hash[x] = rol_u32(hash[x], n) ^ v
    | RorXor(x: nat, n: nat, v: Operand)      // hash[x] = ror_u32(hash[x], n) ^ v

  datatype Machine = Machine(hash: seq<Word32>, offset: nat, data: Word32)

  function ValueOfInfix(op: InfixOp, a: Word32, b: Word32): Word32 {
    match op
    case Plus => (a + b) % U32
    case Times => (a * b) % U32
    case Amp => And(a, b)
    case Bar => Or32(a, b)
    case Caret => Xor32(a, b)
  }

  function ValueOfCall(f: BinaryFn, a: Word32, b: Word32): Word32 {
    match f
    case OpenCLMulHi => HighProduct(a, b)
    case CudaUmulhi => HighProduct(a, b)
    case MinCall => if a <= b then a else b
    case RolU32 => Rol(a, b)
    case RorU32 => Ror(a, b)
  }

  function ValueOfUnary(g: UnaryFn, a: Word32): nat {
    match g
    case OpenCLClz => Clz(a)
    case CudaClz => Clz(a)
    case OpenCLPopcount => Popcount(a)
    case CudaPopc => Popcount(a)
  }

  /** The value of an operand, unless it is read outside its array. */
  function ValueOfOperand(v: Operand, m: Machine, e: Env): Option<Word32> {
    match v
    case CachedWord => if m.offset < |e.cache| then Some(e.cache[m.offset]) else None
    case Data => Some(m.data)
    case Entry(i) => if i < |e.entries| then Some(e.entries[i]) else None
  }

  /** The new value of a register, by the right-hand side of a merging statement. */
  function Merged(st: Statement, a: Word32, b: Word32): Word32
    requires st.TimesPlus? || st.XorTimes? || st.RolXor? || st.RorXor?
  {
    match st
    case TimesPlus(_, _) => (a * 33 + b) % U32
    case XorTimes(_, _) => (Xor32(a, b) * 33) % U32
    case RolXor(_, n, _) => Xor32(Rol(a, n), b)
    case RorXor(_, n, _) => Xor32(Ror(a, n), b)
  }

  /** One statement; nothing for one that reads or writes outside an array. */
  function Exec(st: Statement, m: Machine, e: Env): (r: Option<Machine>)
    ensures r.Some? ==> |r.value.hash| == |m.hash|
  {
    var n := |m.hash|;
    match st
    case SetOffset(src, mask) => if src < n then Some(m.(offset := And(m.hash[src], mask))) else None
    case SetInfix(op, l, r) =>
      if l < n && r < n then Some(m.(data := ValueOfInfix(op, m.hash[l], m.hash[r]))) else None
    case SetCall(f, l, r) =>
      if l < n && r < n then Some(m.(data := ValueOfCall(f, m.hash[l], m.hash[r]))) else None
    case SetSum(g, l, r) =>
      if l < n && r < n then Some(m.(data := (ValueOfUnary(g, m.hash[l]) + ValueOfUnary(g, m.hash[r])) % U32))
      else None
    case _ =>
      var v := ValueOfOperand(st.v, m, e);
      if st.x < n && v.Some? then Some(m.(hash := m.hash[st.x := Merged(st, m.hash[st.x], v.value)])) else None
  }

  function Run(lines: seq<Statement>, m: Machine, e: Env): (r: Option<Machine>)
    ensures r.Some? ==> |r.value.hash| == |m.hash|
  {
    if lines == [] then Some(m)
    else
      var before := Run(lines[..|lines| - 1], m, e);
      if before.Some? then Exec(lines[|lines| - 1], before.value, e) else None
  }

  lemma RunOneMore(lines: seq<Statement>, st: Statement, m: Machine, e: Env)
    ensures Run(lines + [st], m, e) ==
            var before := Run(lines, m, e);
            if before.Some? then Exec(st, before.value, e) else None
  {
    assert (lines + [st])[..|lines|] == lines;
    hide Exec;
  }

  // ----- What is emitted -----------------------------------------------------------------------------

  function MergeLine(x: nat, v: Operand, sel: Word32): Statement {
    var n := (sel / 0x10000) % 31 + 1;
    match sel % 4
    case 0 => TimesPlus(x, v)
    case 1 => XorTimes(x, v)
    case 2 => RolXor(x, n, v)
    case _ => RorXor(x, n, v)
  }

  /** An operation in the words of a target. */
  function MathLine(target: Target, op: MathOp, l: nat, r: nat): Statement {
    match op
    case Add => SetInfix(Plus, l, r)
    case Mul => SetInfix(Times, l, r)
    case MulHi => SetCall(if target.Cuda? then CudaUmulhi else OpenCLMulHi, l, r)
    case Min => SetCall(MinCall, l, r)
    case Rotl => SetCall(RolU32, l, r)
    case Rotr => SetCall(RorU32, l, r)
    case BitAnd => SetInfix(Amp, l, r)
    case BitOr => SetInfix(Bar, l, r)
    case BitXor => SetInfix(Caret, l, r)
    case ClzSum => SetSum(if target.Cuda? then CudaClz else OpenCLClz, l, r)
    case PopcountSum => SetSum(if target.Cuda? then CudaPopc else OpenCLPopcount, l, r)
  }

  lemma MergeLineMeaning(x: nat, v: Operand, sel: Word32, m: Machine, e: Env)
    requires x < |m.hash| && ValueOfOperand(v, m, e).Some?
    ensures Exec(MergeLine(x, v, sel), m, e) ==
            Some(m.(hash := m.hash[x := Merge(m.hash[x], ValueOfOperand(v, m, e).value, sel)]))
  {
    hide Xor32, Rol, Ror, ValueOfOperand;
  }

  lemma MathLineMeaning(target: Target, op: MathOp, l: nat, r: nat, m: Machine, e: Env)
    requires l < |m.hash| && r < |m.hash|
    ensures Exec(MathLine(target, op, l, r), m, e) == Some(m.(data := ProgPow.Value(op, m.hash[l], m.hash[r])))
  {
    hide Xor32, Or32, And, Rol, Ror, Clz, Popcount, HighProduct;
  }

  lemma OffsetMeaning(src: nat, m: Machine, e: Env)
    requires src < |m.hash|
    ensures Exec(SetOffset(src, CACHE_WORDS - 1), m, e) == Some(m.(offset := m.hash[src] % CACHE_WORDS))
  {
    assert Pow2(12) == 4096;
    AndOnes(m.hash[src], 12);
    hide And, Pow2;
  }

  // ----- Writers -------------------------------------------------------------------------------------

  /** The text written so far, as its statements. */
  class Stream {
    var lines: seq<Statement>

    constructor ()
      ensures lines == []
    {
      lines := [];
    }

    method Put(st: Statement)
      modifies this
      ensures lines == old(lines) + [st]
    {
      lines := lines + [st];
    }
  }

  /** The switch over the low bits of a selector. */
  method WriteMerge(ss: Stream, x: nat, v: Operand, sel: Word32)
    modifies ss
    ensures ss.lines == old(ss.lines) + [MergeLine(x, v, sel)]
  {
    match sel % 4
    case 0 => ss.Put(TimesPlus(x, v));
    case 1 => ss.Put(XorTimes(x, v));
    case 2 => ss.Put(RolXor(x, (sel / 0x10000) % 31 + 1, v));
    case 3 => ss.Put(RorXor(x, (sel / 0x10000) % 31 + 1, v));
  }

  /** The operation table of the first versions, for OpenCL. */
  method WriteMathMergeProgPowOpenCL(ss: Stream, dst: nat, src1: nat, src2: nat, selMath: Word32, selMerge: Word32)
    modifies ss
    ensures ss.lines == old(ss.lines) + [MathLine(OpenCL, Operation((selMath % 11 + 9) % 11), src1, src2),
                                          MergeLine(dst, Data, selMerge)]
  {
    match selMath % 11 {
      case 0 => ss.Put(SetSum(OpenCLClz, src1, src2));
      case 1 => ss.Put(SetSum(OpenCLPopcount, src1, src2));
      case 2 => ss.Put(SetInfix(Plus, src1, src2));
      case 3 => ss.Put(SetInfix(Times, src1, src2));
      case 4 => ss.Put(SetCall(OpenCLMulHi, src1, src2));
      case 5 => ss.Put(SetCall(MinCall, src1, src2));
      case 6 => ss.Put(SetCall(RolU32, src1, src2));
      case 7 => ss.Put(SetCall(RorU32, src1, src2));
      case 8 => ss.Put(SetInfix(Amp, src1, src2));
      case 9 => ss.Put(SetInfix(Bar, src1, src2));
      case 10 => ss.Put(SetInfix(Caret, src1, src2));
    }
    WriteMerge(ss, dst, Data, selMerge);
  }

  /** The operation table of the first versions, for CUDA. */
  method WriteMathMergeProgPowCuda(ss: Stream, dst: nat, src1: nat, src2: nat, selMath: Word32, selMerge: Word32)
    modifies ss
    ensures ss.lines == old(ss.lines) + [MathLine(Cuda, Operation((selMath % 11 + 9) % 11), src1, src2),
                                          MergeLine(dst, Data, selMerge)]
  {
    match selMath % 11 {
      case 0 => ss.Put(SetSum(CudaClz, src1, src2));
      case 1 => ss.Put(SetSum(CudaPopc, src1, src2));
      case 2 => ss.Put(SetInfix(Plus, src1, src2));
      case 3 => ss.Put(SetInfix(Times, src1, src2));
      case 4 => ss.Put(SetCall(CudaUmulhi, src1, src2));
      case 5 => ss.Put(SetCall(MinCall, src1, src2));
      case 6 => ss.Put(SetCall(RolU32, src1, src2));
      case 7 => ss.Put(SetCall(RorU32, src1, src2));
      case 8 => ss.Put(SetInfix(Amp, src1, src2));
      case 9 => ss.Put(SetInfix(Bar, src1, src2));
      case 10 => ss.Put(SetInfix(Caret, src1, src2));
    }
    WriteMerge(ss, dst, Data, selMerge);
  }

  /** The operation table of the later versions, for OpenCL. */
  method WriteMathMergeKawpowOpenCL(ss: Stream, dst: nat, src1: nat, src2: nat, selMath: Word32, selMerge: Word32)
    modifies ss
    ensures ss.lines == old(ss.lines) + [MathLine(OpenCL, Operation(selMath % 11), src1, src2),
                                          MergeLine(dst, Data, selMerge)]
  {
    match selMath % 11 {
      case 0 => ss.Put(SetInfix(Plus, src1, src2));
      case 1 => ss.Put(SetInfix(Times, src1, src2));
      case 2 => ss.Put(SetCall(OpenCLMulHi, src1, src2));
      case 3 => ss.Put(SetCall(MinCall, src1, src2));
      case 4 => ss.Put(SetCall(RolU32, src1, src2));
      case 5 => ss.Put(SetCall(RorU32, src1, src2));
      case 6 => ss.Put(SetInfix(Amp, src1, src2));
      case 7 => ss.Put(SetInfix(Bar, src1, src2));
      case 8 => ss.Put(SetInfix(Caret, src1, src2));
      case 9 => ss.Put(SetSum(OpenCLClz, src1, src2));
      case 10 => ss.Put(SetSum(OpenCLPopcount, src1, src2));
    }
    WriteMerge(ss, dst, Data, selMerge);
  }

  /** The operation table of the later versions, for CUDA. */
  method WriteMathMergeKawpowCuda(ss: Stream, dst: nat, src1: nat, src2: nat, selMath: Word32, selMerge: Word32)
    modifies ss
    ensures ss.lines == old(ss.lines) + [MathLine(Cuda, Operation(selMath % 11), src1, src2),
                                          MergeLine(dst, Data, selMerge)]
  {
    match selMath % 11 {
      case 0 => ss.Put(SetInfix(Plus, src1, src2));
      case 1 => ss.Put(SetInfix(Times, src1, src2));
      case 2 => ss.Put(SetCall(CudaUmulhi, src1, src2));
      case 3 => ss.Put(SetCall(MinCall, src1, src2));
      case 4 => ss.Put(SetCall(RolU32, src1, src2));
      case 5 => ss.Put(SetCall(RorU32, src1, src2));
      case 6 => ss.Put(SetInfix(Amp, src1, src2));
      case 7 => ss.Put(SetInfix(Bar, src1, src2));
      case 8 => ss.Put(SetInfix(Caret, src1, src2));
      case 9 => ss.Put(SetSum(CudaClz, src1, src2));
      case 10 => ss.Put(SetSum(CudaPopc, src1, src2));
    }
    WriteMerge(ss, dst, Data, selMerge);
  }

  function MathLines(target: Target, version: Version, dst: nat, src1: nat, src2: nat,
                     selMath: Word32, selMerge: Word32): seq<Statement>
  {
    [MathLine(target, OperationOf(version, selMath % 11), src1, src2), MergeLine(dst, Data, selMerge)]
  }

  method WriteMathMerge(target: Target, version: Version, ss: Stream, dst: nat, src1: nat, src2: nat,
                        selMath: Word32, selMerge: Word32)
    modifies ss
    ensures ss.lines == old(ss.lines) + MathLines(target, version, dst, src1, src2, selMath, selMerge)
  {
    hide MathLine, MergeLine;
    match version
    case V_0_9_2 | V_0_9_3 | V_0_9_4 =>
      if target.OpenCL? {
        WriteMathMergeProgPowOpenCL(ss, dst, src1, src2, selMath, selMerge);
      } else {
        WriteMathMergeProgPowCuda(ss, dst, src1, src2, selMath, selMerge);
      }
    case Kawpow | Meowpow | Firopow | EvrProgpow | ProgpowQuai =>
      if target.OpenCL? {
        WriteMathMergeKawpowOpenCL(ss, dst, src1, src2, selMath, selMerge);
      } else {
        WriteMathMergeKawpowCuda(ss, dst, src1, src2, selMath, selMerge);
      }
  }

  function CacheLines(src: nat, dst: nat, sel: Word32): seq<Statement> {
    [SetOffset(src, CACHE_WORDS - 1), MergeLine(dst, CachedWord, sel)]
  }

  method WriteMergeCache(ss: Stream, src: nat, dst: nat, sel: Word32)
    modifies ss
    ensures ss.lines == old(ss.lines) + CacheLines(src, dst, sel)
  {
    hide MergeLine;
    ss.Put(SetOffset(src, CACHE_WORDS - 1));
    WriteMerge(ss, dst, CachedWord, sel);
  }

  // ----- The generator -------------------------------------------------------------------------------

  /** The state of the generator, and what it has emitted. */
  datatype Gen = Gen(rng: State, dstCnt: nat, srcCnt: nat, lines: seq<Statement>)

  function EmitCache(o: Orders, regs: nat, g: Gen): Gen
    requires |o.dst| == |o.src| == regs > 0
  {
    var (rng, sel) := Next(g.rng);
    Gen(rng, g.dstCnt + 1, g.srcCnt + 1,
        g.lines + CacheLines(o.src[g.srcCnt % regs], o.dst[g.dstCnt % regs], sel))
  }

  function EmitMath(target: Target, version: Version, o: Orders, regs: nat, g: Gen): Gen
    requires |o.dst| == |o.src| == regs >= 2
  {
    var (rng1, rnd) := Next(g.rng);
    var (rng2, sel1) := Next(rng1);
    var (rng3, sel2) := Next(rng2);
    var (src1, src2) := DrawnSources(rnd, regs);
    Gen(rng3, g.dstCnt + 1, g.srcCnt,
        g.lines + MathLines(target, version, o.dst[g.dstCnt % regs], src1, src2, sel1, sel2))
  }

  function EmitLoop(target: Target, version: Version, counts: Counts, o: Orders, regs: nat, g: Gen, n: nat): Gen
    requires |o.dst| == |o.src| == regs >= 2
  {
    if n == 0 then g
    else
      var g1 := EmitLoop(target, version, counts, o, regs, g, n - 1);
      var g2 := if n - 1 < counts.cache then EmitCache(o, regs, g1) else g1;
      if n - 1 < counts.math then EmitMath(target, version, o, regs, g2) else g2
  }

  function EmitLoad(o: Orders, regs: nat, g: Gen, i: nat): Gen
    requires |o.dst| == |o.src| == regs >= 2
  {
    var x := if i == 0 then 0 else o.dst[g.dstCnt % regs];
    var (rng, sel) := Next(g.rng);
    Gen(rng, if i == 0 then g.dstCnt else g.dstCnt + 1, g.srcCnt, g.lines + [MergeLine(x, Entry(i), sel)])
  }

  function EmitLoads(o: Orders, regs: nat, g: Gen, n: nat): Gen
    requires |o.dst| == |o.src| == regs >= 2
  {
    if n == 0 then g else EmitLoad(o, regs, EmitLoads(o, regs, g, n - 1), n - 1)
  }

  /** The program of a period. */
  function Program(target: Target, version: Version, counts: Counts, period: Word, regs: nat): seq<Statement>
    requires regs >= 2
  {
    var (rng, dst, src) := Initial(period, regs);
    var o := Orders(dst, src);
    EmitLoads(o, regs, EmitLoop(target, version, counts, o, regs, Gen(rng, 0, 0, []), Larger(counts)), DAG_LOADS).lines
  }

  function Smaller(m: nat, n: nat): nat {
    if m < n then m else n
  }

  lemma TwoLinesEach(target: Target, version: Version, o: Orders, regs: nat, g: Gen)
    requires |o.dst| == |o.src| == regs >= 2
    ensures |EmitCache(o, regs, g).lines| == |EmitMath(target, version, o, regs, g).lines| == |g.lines| + 2
  {
    hide Next, MathLine, MergeLine, OperationOf, DrawnSources;
  }

  lemma {:induction false} LoopLength(target: Target, version: Version, counts: Counts, o: Orders, regs: nat,
                                      g: Gen, n: nat)
    requires |o.dst| == |o.src| == regs >= 2
    ensures |EmitLoop(target, version, counts, o, regs, g, n).lines|
         == |g.lines| + 2 * Smaller(n, counts.cache) + 2 * Smaller(n, counts.math)
  {
    hide EmitCache, EmitMath;
    if n > 0 {
      LoopLength(target, version, counts, o, regs, g, n - 1);
      var g1 := EmitLoop(target, version, counts, o, regs, g, n - 1);
      TwoLinesEach(target, version, o, regs, g1);
      TwoLinesEach(target, version, o, regs, if n - 1 < counts.cache then EmitCache(o, regs, g1) else g1);
    }
  }

  /** Two statements for every cache access and every operation, and one for each of the four loaded words. */
  lemma ProgramLength(target: Target, version: Version, counts: Counts, period: Word, regs: nat)
    requires regs >= 2
    ensures |Program(target, version, counts, period, regs)| == 2 * counts.cache + 2 * counts.math + 4
  {
    hide Initial, MergeLine, Next, EmitLoop;
    var (rng, dst, src) := Initial(period, regs);
    var o := Orders(dst, src);
    LoopLength(target, version, counts, o, regs, Gen(rng, 0, 0, []), Larger(counts));
    var loaded := EmitLoop(target, version, counts, o, regs, Gen(rng, 0, 0, []), Larger(counts));
    assert |EmitLoads(o, regs, loaded, 1).lines| == |loaded.lines| + 1;
    assert |EmitLoads(o, regs, loaded, 2).lines| == |loaded.lines| + 2;
    assert |EmitLoads(o, regs, loaded, 3).lines| == |loaded.lines| + 3;
  }

  // ----- Running the program is interpreting the loop ------------------------------------------------

  /** The generator and the interpreter are in step, and the program so far leaves the interpreter's registers. */
  ghost predicate InStep(g: Gen, s: Interp, m: Machine, e: Env) {
    && g.rng == s.rng && g.dstCnt == s.dstCnt && g.srcCnt == s.srcCnt
    && var r := Run(g.lines, m, e);
       r.Some? && r.value.hash == s.mix
  }

  lemma TwoMore(lines: seq<Statement>, s1: Statement, s2: Statement, m: Machine, e: Env)
    requires Run(lines, m, e).Some? && Exec(s1, Run(lines, m, e).value, e).Some?
    ensures Run(lines + [s1, s2], m, e) == Exec(s2, Exec(s1, Run(lines, m, e).value, e).value, e)
  {
    hide Exec, Run;
    RunOneMore(lines, s1, m, e);
    RunOneMore(lines + [s1], s2, m, e);
    assert lines + [s1, s2] == (lines + [s1]) + [s2];
  }

  lemma OrderInRange(o: Orders, n: nat, c: nat)
    requires o.Valid(n)
    ensures o.src[c % n] < n && o.dst[c % n] < n
  {
  }

  lemma CacheInStep(o: Orders, g: Gen, s: Interp, m: Machine, e: Env)
    requires o.Valid(|m.hash|) && e.Valid() && |s.mix| == |m.hash| && InStep(g, s, m, e)
    ensures InStep(EmitCache(o, |m.hash|, g), CacheStep(o, e, s), m, e)
  {
    hide Permutation, Run, Exec, MergeLine, Next, Merge;
    var n := |m.hash|;
    var src, d, sel := o.src[g.srcCnt % n], o.dst[g.dstCnt % n], Next(g.rng).1;
    OrderInRange(o, n, g.srcCnt);
    OrderInRange(o, n, g.dstCnt);
    var m1 := Run(g.lines, m, e).value;
    OffsetMeaning(src, m1, e);
    var m2 := m1.(offset := m1.hash[src] % CACHE_WORDS);
    MergeLineMeaning(d, CachedWord, sel, m2, e);
    TwoMore(g.lines, SetOffset(src, CACHE_WORDS - 1), MergeLine(d, CachedWord, sel), m, e);
  }

  lemma MathInStep(target: Target, version: Version, o: Orders, g: Gen, s: Interp, m: Machine, e: Env)
    requires o.Valid(|m.hash|) && e.Valid() && |s.mix| == |m.hash| && InStep(g, s, m, e)
    ensures InStep(EmitMath(target, version, o, |m.hash|, g), MathStep(version, o, s), m, e)
  {
    hide Permutation, Run, Exec, MergeLine, MathLine, Next, Merge, ProgPow.Value, DrawnSources, OperationOf;
    var n := |m.hash|;
    var (rng1, rnd) := Next(g.rng);
    var (rng2, sel1) := Next(rng1);
    var (rng3, sel2) := Next(rng2);
    var (src1, src2) := DrawnSources(rnd, n);
    var d := o.dst[g.dstCnt % n];
    OrderInRange(o, n, g.dstCnt);
    var m1 := Run(g.lines, m, e).value;
    var op := OperationOf(version, sel1 % 11);
    MathLineMeaning(target, op, src1, src2, m1, e);
    var m2 := m1.(data := ProgPow.Value(op, m1.hash[src1], m1.hash[src2]));
    MergeLineMeaning(d, Data, sel2, m2, e);
    TwoMore(g.lines, MathLine(target, op, src1, src2), MergeLine(d, Data, sel2), m, e);
  }

  lemma LoadInStep(o: Orders, g: Gen, s: Interp, m: Machine, e: Env, i: nat)
    requires o.Valid(|m.hash|) && e.Valid() && |s.mix| == |m.hash| && i < DAG_LOADS && InStep(g, s, m, e)
    ensures InStep(EmitLoad(o, |m.hash|, g, i), LoadStep(o, e, s, i), m, e)
  {
    hide Permutation, Run, Exec, MergeLine, Next, Merge;
    var n := |m.hash|;
    var x := if i == 0 then 0 else o.dst[g.dstCnt % n];
    var sel := Next(g.rng).1;
    OrderInRange(o, n, g.dstCnt);
    MergeLineMeaning(x, Entry(i), sel, Run(g.lines, m, e).value, e);
    RunOneMore(g.lines, MergeLine(x, Entry(i), sel), m, e);
  }

  lemma {:induction false} LoopInStep(target: Target, version: Version, counts: Counts, o: Orders,
                                      g: Gen, s: Interp, m: Machine, e: Env, n: nat)
    requires o.Valid(|m.hash|) && e.Valid() && |s.mix| == |m.hash| && InStep(g, s, m, e)
    ensures InStep(EmitLoop(target, version, counts, o, |m.hash|, g, n), Loop(version, counts, o, e, s, n), m, e)
  {
    hide InStep, EmitCache, EmitMath, CacheStep, MathStep, Permutation;
    if n > 0 {
      LoopInStep(target, version, counts, o, g, s, m, e, n - 1);
      var g1 := EmitLoop(target, version, counts, o, |m.hash|, g, n - 1);
      var s1 := Loop(version, counts, o, e, s, n - 1);
      if n - 1 < counts.cache {
        CacheInStep(o, g1, s1, m, e);
      }
      if n - 1 < counts.math {
        var g2 := if n - 1 < counts.cache then EmitCache(o, |m.hash|, g1) else g1;
        var s2 := if n - 1 < counts.cache then CacheStep(o, e, s1) else s1;
        MathInStep(target, version, o, g2, s2, m, e);
      }
    }
  }

  lemma {:induction false} LoadsInStep(o: Orders, g: Gen, s: Interp, m: Machine, e: Env, n: nat)
    requires o.Valid(|m.hash|) && e.Valid() && |s.mix| == |m.hash| && n <= DAG_LOADS && InStep(g, s, m, e)
    ensures InStep(EmitLoads(o, |m.hash|, g, n), Loads(o, e, s, n), m, e)
  {
    hide InStep, EmitLoad, LoadStep, Permutation;
    if n > 0 {
      LoadsInStep(o, g, s, m, e, n - 1);
      LoadInStep(o, EmitLoads(o, |m.hash|, g, n - 1), Loads(o, e, s, n - 1), m, e, n - 1);
    }
  }

  /** Compilation preserves meaning: the program never leaves its arrays and computes the pass of the loop. */
  lemma ProgramComputesLoop(target: Target, version: Version, counts: Counts, period: Word, m: Machine, e: Env)
    requires |m.hash| >= 2 && e.Valid()
    ensures
      var r := Run(Program(target, version, counts, period, |m.hash|), m, e);
      r.Some? && r.value.hash == ProgPowLoop(version, counts, period, e, m.hash)
  {
    var regs := |m.hash|;
    InitialOrders(period, regs);
    hide Initial, Permutation, EmitLoop, EmitLoads, Loop, Loads;
    var (rng, dst, src) := Initial(period, regs);
    var o := Orders(dst, src);
    var g, s := Gen(rng, 0, 0, []), Interp(rng, 0, 0, m.hash);
    assert Run([], m, e) == Some(m);
    hide Run;
    LoopInStep(target, version, counts, o, g, s, m, e, Larger(counts));
    LoadsInStep(o, EmitLoop(target, version, counts, o, regs, g, Larger(counts)),
                Loop(version, counts, o, e, s, Larger(counts)), m, e, DAG_LOADS);
  }

  /** The two targets compute the same registers. */
  lemma TargetsAgree(version: Version, counts: Counts, period: Word, m: Machine, e: Env)
    requires |m.hash| >= 2 && e.Valid()
    ensures
      var a := Run(Program(OpenCL, version, counts, period, |m.hash|), m, e);
      var b := Run(Program(Cuda, version, counts, period, |m.hash|), m, e);
      a.Some? && b.Some? && a.value.hash == b.value.hash
  {
    hide Run, Program, ProgPowLoop;
    ProgramComputesLoop(OpenCL, version, counts, period, m, e);
    ProgramComputesLoop(Cuda, version, counts, period, m, e);
  }

  // ----- The generator, imperatively -----------------------------------------------------------------

  method SwapAt(a: array<nat>, i: nat, j: nat)
    requires i < a.Length && j < a.Length
    modifies a
    ensures a[..] == Swap(old(a[..]), i, j)
  {
    a[i], a[j] := a[j], a[i];
  }

  /** Places 0, 1, 2 and so on. */
  method FillIdentity(a: array<nat>)
    modifies a
    ensures a[..] == Identity(a.Length)
  {
    for i := 0 to a.Length
      invariant a[..i] == Identity(a.Length)[..i]
    {
      a[i] := i;
    }
  }

  lemma ShuffleStep(s: State, s1: State, s2: State, r1: Word32, r2: Word32, dst: seq<nat>, src: seq<nat>, i: nat)
    requires 0 < i < |dst| == |src| && Next(s) == (s1, r1) && Next(s1) == (s2, r2)
    ensures Shuffle(Drawn, s, dst, src, i) ==
            Shuffle(Drawn, s2, Swap(dst, i, r1 % (i + 1)), Swap(src, i, r2 % (i + 1)), i - 1)
  {
    hide Step, Output, Swap;
  }

  lemma ShuffleDone<S>(next: S -> (S, nat), s: S, dst: seq<nat>, src: seq<nat>)
    requires 0 < |dst| == |src|
    ensures Shuffle(next, s, dst, src, 0) == (s, dst, src)
  {
  }

  /** Seeds the generator, and shuffles both orders in place with it. */
  method InitializeRound(period: Word, dst: array<nat>, src: array<nat>, regs: nat) returns (data: Generator)
    requires dst.Length == src.Length == regs > 0 && dst != src
    modifies dst, src
    ensures fresh(data) && (data.Current(), dst[..], src[..]) == Initial(period, regs)
  {
    hide Fnv1a, Step, Output, Swap, Shuffle;
    data := new Generator(State(0, 0, 0, 0));
    data.z := Fnv1a(FNV_OFFSET, period % U32);
    data.w := Fnv1a(data.z, period / U32);
    data.jsr := Fnv1a(data.w, period % U32);
    data.jcong := Fnv1a(data.jsr, period / U32);
    assert data.Current() == Seeded(period);
    FillIdentity(dst);
    FillIdentity(src);
    var i := regs - 1;
    while i > 0
      invariant 0 <= i < regs && fresh(data)
      invariant Shuffle(Drawn, data.Current(), dst[..], src[..], i) == Initial(period, regs)
    {
      ghost var s0, d, c := data.Current(), dst[..], src[..];
      var rndDst := data.Draw();
      var indexDst := rndDst % (i + 1);
      ghost var s1 := data.Current();
      var rndSrc := data.Draw();
      var indexSrc := rndSrc % (i + 1);
      SwapAt(dst, i, indexDst);
      SwapAt(src, i, indexSrc);
      ShuffleStep(s0, s1, data.Current(), rndDst, rndSrc, d, c, i);
      i := i - 1;
    }
    ShuffleDone(Drawn, data.Current(), dst[..], src[..]);
  }

  lemma NoLines(target: Target, version: Version, counts: Counts, o: Orders, regs: nat, g: Gen)
    requires |o.dst| == |o.src| == regs >= 2
    ensures EmitLoop(target, version, counts, o, regs, g, 0) == g
  {
  }

  lemma OneMoreIteration(target: Target, version: Version, counts: Counts, o: Orders, regs: nat, g: Gen, n: nat)
    requires |o.dst| == |o.src| == regs >= 2
    ensures
      var g1 := EmitLoop(target, version, counts, o, regs, g, n);
      var g2 := if n < counts.cache then EmitCache(o, regs, g1) else g1;
      EmitLoop(target, version, counts, o, regs, g, n + 1) ==
        if n < counts.math then EmitMath(target, version, o, regs, g2) else g2
  {
    hide EmitCache, EmitMath;
  }

  lemma NoLoads(o: Orders, regs: nat, g: Gen)
    requires |o.dst| == |o.src| == regs >= 2
    ensures EmitLoads(o, regs, g, 0) == g
  {
  }

  lemma OneMoreLoad(o: Orders, regs: nat, g: Gen, n: nat)
    requires |o.dst| == |o.src| == regs >= 2
    ensures EmitLoads(o, regs, g, n + 1) == EmitLoad(o, regs, EmitLoads(o, regs, g, n), n)
  {
    hide EmitLoad;
  }

  /** The cached read of one iteration. */
  method CacheIteration(ss: Stream, round: Generator, dst: array<nat>, src: array<nat>, regs: nat,
                        dstCnt: nat, srcCnt: nat) returns (dstCnt': nat, srcCnt': nat)
    requires dst.Length == src.Length == regs > 0
    modifies ss, round
    ensures Gen(round.Current(), dstCnt', srcCnt', ss.lines) ==
            EmitCache(Orders(dst[..], src[..]), regs, old(Gen(round.Current(), dstCnt, srcCnt, ss.lines)))
  {
    hide CacheLines, Step, Output;
    var srcValue, dstValue := src[srcCnt % regs], dst[dstCnt % regs];
    var sel := round.Draw();
    dstCnt', srcCnt' := dstCnt + 1, srcCnt + 1;
    WriteMergeCache(ss, srcValue, dstValue, sel);
  }

  /** The random operation of one iteration. */
  method MathIteration(target: Target, version: Version, ss: Stream, round: Generator, dst: array<nat>, regs: nat,
                       moduleSource: nat, dstCnt: nat, ghost srcCnt: nat, ghost o: Orders) returns (dstCnt': nat)
    requires dst.Length == |o.src| == regs >= 2 && o.dst == dst[..] && moduleSource == regs * (regs - 1)
    modifies ss, round
    ensures Gen(round.Current(), dstCnt', srcCnt, ss.lines) ==
            EmitMath(target, version, o, regs, old(Gen(round.Current(), dstCnt, srcCnt, ss.lines)))
  {
    hide MathLines, Step, Output;
    MulMono(1, regs - 1, regs);
    var rnd := round.Draw();
    var srcRnd := rnd % moduleSource;
    var src1 := srcRnd % regs;
    var src2 := srcRnd / regs;
    var sel1 := round.Draw();
    var sel2 := round.Draw();
    var dstValue := dst[dstCnt % regs];
    if src2 >= src1 {
      src2 := src2 + 1;
    }
    assert (src1, src2) == DrawnSources(rnd, regs);
    dstCnt' := dstCnt + 1;
    WriteMathMerge(target, version, ss, dstValue, src1, src2, sel1, sel2);
  }

  /** The merge of one loaded word. */
  method LoadIteration(ss: Stream, round: Generator, dst: array<nat>, regs: nat, dstCnt: nat, ghost srcCnt: nat,
                       i: nat, ghost o: Orders) returns (dstCnt': nat)
    requires dst.Length == |o.src| == regs >= 2 && o.dst == dst[..]
    modifies ss, round
    ensures Gen(round.Current(), dstCnt', srcCnt, ss.lines) ==
            EmitLoad(o, regs, old(Gen(round.Current(), dstCnt, srcCnt, ss.lines)), i)
  {
    hide MergeLine, Step, Output;
    var x := 0;
    dstCnt' := dstCnt;
    if i != 0 {
      x := dst[dstCnt % regs];
      dstCnt' := dstCnt + 1;
    }
    var sel := round.Draw();
    WriteMerge(ss, x, Entry(i), sel);
  }

  /** The OpenCL kernel of a period. */
  method WriteMathRandomKernelOpenCL(version: Version, period: Word, countCache: nat, countMath: nat,
                                     regs: nat, moduleSource: nat) returns (ss: Stream)
    requires regs >= 2 && moduleSource == regs * (regs - 1)
    ensures fresh(ss) && ss.lines == Program(OpenCL, version, Counts(countCache, countMath), period, regs)
  {
    hide Initial, EmitLoop, EmitCache, EmitMath, EmitLoads, EmitLoad, CacheLines, MathLines, MergeLine, Step, Output;
    var dst, src := new nat[regs], new nat[regs];
    var round := InitializeRound(period, dst, src, regs);
    ghost var o := Orders(dst[..], src[..]);
    ghost var counts := Counts(countCache, countMath);
    ss := new Stream();
    ghost var start := Gen(round.Current(), 0, 0, []);
    var dstCnt, srcCnt := 0, 0;
    var max := if countCache > countMath then countCache else countMath;
    NoLines(OpenCL, version, counts, o, regs, start);
    for i := 0 to max
      invariant fresh(round) && fresh(ss) && dst[..] == o.dst && src[..] == o.src
      invariant Gen(round.Current(), dstCnt, srcCnt, ss.lines) == EmitLoop(OpenCL, version, counts, o, regs, start, i)
    {
      OneMoreIteration(OpenCL, version, counts, o, regs, start, i);
      if i < countCache {
        dstCnt, srcCnt := CacheIteration(ss, round, dst, src, regs, dstCnt, srcCnt);
      }
      if i < countMath {
        dstCnt := MathIteration(OpenCL, version, ss, round, dst, regs, moduleSource, dstCnt, srcCnt, o);
      }
    }

    ghost var loaded := EmitLoop(OpenCL, version, counts, o, regs, start, max);
    NoLoads(o, regs, loaded);
    for i := 0 to DAG_LOADS
      invariant fresh(round) && fresh(ss) && dst[..] == o.dst && src[..] == o.src
      invariant Gen(round.Current(), dstCnt, srcCnt, ss.lines) == EmitLoads(o, regs, loaded, i)
    {
      OneMoreLoad(o, regs, loaded, i);
      dstCnt := LoadIteration(ss, round, dst, regs, dstCnt, srcCnt, i, o);
    }
  }

  /** The CUDA kernel of a period. */
  method WriteMathRandomKernelCuda(version: Version, period: Word, countCache: nat, countMath: nat,
                                     regs: nat, moduleSource: nat) returns (ss: Stream)
    requires regs >= 2 && moduleSource == regs * (regs - 1)
    ensures fresh(ss) && ss.lines == Program(Cuda, version, Counts(countCache, countMath), period, regs)
  {
    hide Initial, EmitLoop, EmitCache, EmitMath, EmitLoads, EmitLoad, CacheLines, MathLines, MergeLine, Step, Output;
    var dst, src := new nat[regs], new nat[regs];
    var round := InitializeRound(period, dst, src, regs);
    ghost var o := Orders(dst[..], src[..]);
    ghost var counts := Counts(countCache, countMath);
    ss := new Stream();
    ghost var start := Gen(round.Current(), 0, 0, []);
    var dstCnt, srcCnt := 0, 0;
    var max := if countCache > countMath then countCache else countMath;
    NoLines(Cuda, version, counts, o, regs, start);
    for i := 0 to max
      invariant fresh(round) && fresh(ss) && dst[..] == o.dst && src[..] == o.src
      invariant Gen(round.Current(), dstCnt, srcCnt, ss.lines) == EmitLoop(Cuda, version, counts, o, regs, start, i)
    {
      OneMoreIteration(Cuda, version, counts, o, regs, start, i);
      if i < countCache {
        dstCnt, srcCnt := CacheIteration(ss, round, dst, src, regs, dstCnt, srcCnt);
      }
      if i < countMath {
        dstCnt := MathIteration(Cuda, version, ss, round, dst, regs, moduleSource, dstCnt, srcCnt, o);
      }
    }

    ghost var loaded := EmitLoop(Cuda, version, counts, o, regs, start, max);
    NoLoads(o, regs, loaded);
    for i := 0 to DAG_LOADS
      invariant fresh(round) && fresh(ss) && dst[..] == o.dst && src[..] == o.src
      invariant Gen(round.Current(), dstCnt, srcCnt, ss.lines) == EmitLoads(o, regs, loaded, i)
    {
      OneMoreLoad(o, regs, loaded, i);
      dstCnt := LoadIteration(ss, round, dst, regs, dstCnt, srcCnt, i, o);
    }
  }
}
