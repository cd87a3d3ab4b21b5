/**
 The hand-over of jobs from the device manager to the worker thread of a device. Copies of a job and
 accesses to a counter are single steps; the steps of the two threads interleave in any order.
 */
module JobHandover {
  /** What decides which part of a device must be prepared again. */
  datatype Job = Job(epoch: int, header: int, headerBlob: int)

  /** The two prepared resources: the memory (DAG) of an epoch and the constants of a header. */
  datatype Resource = Memory | Constants

  function Key(r: Resource, job: Job): (int, int) {
    if r == Memory then (job.epoch, 0) else (job.header, job.headerBlob)
  }

  /** A counter that requests increment (`current`) and the worker acknowledges (`last`). */
  datatype Counter = Counter(current: nat, last: nat) {
    predicate IsEqual() { current == last }
    function Add(): Counter { this.(current := current + 1) }
    function Update(value: nat): Counter { this.(last := value) }
  }

  /** Where the manager is in `update`: before the constants, the memory and the job counter. */
  datatype Writer = Idle | Copied | ConstantsCounted | MemoryCounted

  /** Where the worker is: waiting for the first job, in `updateJob`, or about to run the kernel. */
  datatype Worker =
    | Waiting
    | Top
    | JobFlag(needJob: bool)
    | ConstantsFlag(needJob: bool, needConstants: bool)
    | Flags(needConstants: bool, needMemory: bool)
    | ReadJob(needConstants: bool, needMemory: bool, seenJob: nat)
    | ReadConstants(needConstants: bool, needMemory: bool, seenJob: nat, seenConstants: nat)
    | ReadMemory(needConstants: bool, needMemory: bool, seenJob: nat, seenConstants: nat, seenMemory: nat)
    | JobCopied(needConstants: bool, needMemory: bool, seenJob: nat, seenConstants: nat, seenMemory: nat)
    | JobStored(needConstants: bool, needMemory: bool, seenConstants: nat, seenMemory: nat)
    | MemoryDone(needConstants: bool, seenConstants: nat)
    | Kernel
    | Dead

  /**
   jobs lists the accepted jobs, the default job first; jobs are named by their position. `next` and
   `current` are the jobs in nextjobInfo and currentJobInfo, `dag` and `constants` the ones from which
   the memory and the constants were last built.
   */
  datatype State = State(
    jobs: seq<Job>, next: nat, current: nat, dag: nat, constants: nat,
    memoryCounter: Counter, constantsCounter: Counter, jobCounter: Counter,
    writer: Writer, worker: Worker)
  {
    function Built(r: Resource): nat { if r == Memory then dag else constants }
    function CounterOf(r: Resource): Counter { if r == Memory then memoryCounter else constantsCounter }
  }

  datatype Event = NewJob(job: Job) | WriterStep | WorkerStep(success: bool)

  /** The steps of a whole update. */
  function Announcement(job: Job): seq<Event> {
    [NewJob(job), WriterStep, WriterStep, WriterStep]
  }

  function Init(default: Job): State {
    State([default], 0, 0, 0, 0, Counter(0, 0), Counter(0, 0), Counter(0, 0), Idle, Waiting)
  }

  /** Whether job v asks for a resource to be built again. */
  predicate Requests(r: Resource, jobs: seq<Job>, v: nat)
    requires 0 < v < |jobs|
  {
    Key(r, jobs[v]) != Key(r, jobs[v - 1])
  }

  /** onUpdateJob and the copy in `update`: a job equal in epoch and header is skipped. */
  function Accept(s: State, job: Job): State
    requires s.jobs != []
  {
    var last := s.jobs[|s.jobs| - 1];
    if Key(Memory, job) == Key(Memory, last) && Key(Constants, job) == Key(Constants, last) then s
    else s.(jobs := s.jobs + [job], next := |s.jobs|, writer := Copied)
  }

  function AdvanceWriter(s: State): State
    requires |s.jobs| > 1
  {
    var v := |s.jobs| - 1;
    match s.writer
    case Idle => s
    case Copied =>
      s.(writer := ConstantsCounted,
         constantsCounter := if Requests(Constants, s.jobs, v) then s.constantsCounter.Add() else s.constantsCounter)
    case ConstantsCounted =>
      s.(writer := MemoryCounted,
         memoryCounter := if Requests(Memory, s.jobs, v) then s.memoryCounter.Add() else s.memoryCounter)
    case MemoryCounted => s.(writer := Idle, jobCounter := s.jobCounter.Add())
  }

  function AdvanceWorker(s: State, success: bool): State {
    match s.worker
    case Waiting => if s.jobCounter.IsEqual() then s else s.(worker := Top)
    case Top => s.(worker := JobFlag(!s.jobCounter.IsEqual()))
    case JobFlag(needJob) => s.(worker := ConstantsFlag(needJob, !s.constantsCounter.IsEqual()))
    case ConstantsFlag(needJob, needConstants) =>
      var needMemory := !s.memoryCounter.IsEqual();
      if !needJob || (!needConstants && !needMemory) then s.(worker := Kernel)
      else s.(worker := Flags(needConstants, needMemory))
    case Flags(c, m) => s.(worker := ReadJob(c, m, s.jobCounter.current))
    case ReadJob(c, m, j) => s.(worker := ReadConstants(c, m, j, s.constantsCounter.current))
    case ReadConstants(c, m, j, sc) => s.(worker := ReadMemory(c, m, j, sc, s.memoryCounter.current))
    case ReadMemory(c, m, j, sc, sm) => s.(worker := JobCopied(c, m, j, sc, sm), current := s.next)
    case JobCopied(c, m, j, sc, sm) => s.(worker := JobStored(c, m, sc, sm), jobCounter := s.jobCounter.Update(j))
    case JobStored(c, m, sc, sm) =>
      if !m then s.(worker := MemoryDone(c, sc))
      else if success then
        s.(worker := MemoryDone(c, sc), memoryCounter := s.memoryCounter.Update(sm), dag := s.current)
      else s.(worker := Dead, memoryCounter := s.memoryCounter.Update(sm))
    case MemoryDone(c, sc) =>
      if !c then s.(worker := Top)
      else if success then
        s.(worker := Top, constantsCounter := s.constantsCounter.Update(sc), constants := s.current)
      else s.(worker := Dead, constantsCounter := s.constantsCounter.Update(sc))
    case Kernel => s.(worker := if success then Top else Dead)
    case Dead => s
  }

  function Step(s: State, e: Event): (s': State)
    requires s.jobs != []
    ensures s'.jobs != []
  {
    match e
    case NewJob(job) => if s.writer == Idle then Accept(s, job) else s
    case WriterStep => if |s.jobs| > 1 then AdvanceWriter(s) else s
    case WorkerStep(success) => AdvanceWorker(s, success)
  }

  function Run(default: Job, events: seq<Event>): (s: State)
    ensures s.jobs != []
  {
    if events == [] then Init(default) else Step(Run(default, events[..|events| - 1]), events[|events| - 1])
  }

  // ----- Counting requests -----------------------------------------------------------------------

  /** The number of requests among jobs 1..n. */
  function Count(r: Resource, jobs: seq<Job>, n: nat): nat
    requires n < |jobs|
  {
    if n == 0 then 0 else Count(r, jobs, n - 1) + if Requests(r, jobs, n) then 1 else 0
  }

  lemma {:induction false} CountMonotone(r: Resource, jobs: seq<Job>, m: nat, n: nat)
    requires m <= n < |jobs|
    ensures Count(r, jobs, m) <= Count(r, jobs, n)
  {
    if m < n {
      CountMonotone(r, jobs, m, n - 1);
    }
  }

  /** Without a request in between the key stays the same. */
  lemma {:induction false} NoRequestSameKey(r: Resource, jobs: seq<Job>, m: nat, n: nat)
    requires m <= n < |jobs| && Count(r, jobs, m) == Count(r, jobs, n)
    ensures Key(r, jobs[m]) == Key(r, jobs[n])
    ensures forall v | m < v <= n :: !Requests(r, jobs, v)
  {
    if m < n {
      CountMonotone(r, jobs, m, n - 1);
      NoRequestSameKey(r, jobs, m, n - 1);
    }
  }

  lemma {:induction false} CountPrefix(r: Resource, jobs: seq<Job>, job: Job, n: nat)
    requires n < |jobs|
    ensures Count(r, jobs + [job], n) == Count(r, jobs, n)
  {
    if n > 0 {
      CountPrefix(r, jobs, job, n - 1);
    }
  }

  // ----- What every interleaving keeps -------------------------------------------------------------

  /** The newest accepted job. */
  function Last(s: State): int {
    |s.jobs| - 1
  }

  /** The newest job whose request for r, if it makes one, has been counted. */
  function Counted(r: Resource, s: State): int {
    if s.writer == Copied || (r == Memory && s.writer == ConstantsCounted) then Last(s) - 1 else Last(s)
  }

  /** Job positions are in order: built from jobs up to the current one, which is at most the newest. */
  ghost predicate Ordered(s: State) {
    && s.jobs != [] && s.next == Last(s) && s.current <= Last(s) && s.dag <= s.current && s.constants <= s.current
    && (s.writer != Idle ==> Last(s) >= 1)
  }

  /** The counter shows the counted requests, and the worker acknowledged none that its build does not serve. */
  ghost predicate Served(r: Resource, s: State)
    requires Ordered(s)
  {
    && s.CounterOf(r).current == Count(r, s.jobs, Counted(r, s))
    && (s.worker != Dead ==> s.CounterOf(r).last <= Count(r, s.jobs, s.Built(r)))
  }

  /** A counter value read in `updateJob` counts requests of jobs that the copy made after it includes. */
  ghost predicate ReadsServed(s: State)
    requires Ordered(s)
  {
    match s.worker
    case ReadConstants(c, m, j, sc) => sc <= Count(Constants, s.jobs, Last(s))
    case ReadMemory(c, m, j, sc, sm) =>
      sc <= Count(Constants, s.jobs, Last(s)) && sm <= Count(Memory, s.jobs, Last(s))
    case JobCopied(c, m, j, sc, sm) =>
      sc <= Count(Constants, s.jobs, s.current) && sm <= Count(Memory, s.jobs, s.current)
    case JobStored(c, m, sc, sm) =>
      sc <= Count(Constants, s.jobs, s.current) && sm <= Count(Memory, s.jobs, s.current)
    case MemoryDone(c, sc) => sc <= Count(Constants, s.jobs, s.current)
    case _ => true
  }

  ghost predicate Inv(s: State) {
    Ordered(s) && Served(Memory, s) && Served(Constants, s) && ReadsServed(s)
  }

  lemma AcceptKeepsInv(s: State, job: Job)
    requires Inv(s) && s.writer == Idle
    ensures Inv(Accept(s, job))
  {
    forall r: Resource, n: nat | n < |s.jobs|
      ensures Count(r, s.jobs + [job], n) == Count(r, s.jobs, n)
    {
      CountPrefix(r, s.jobs, job, n);
    }
    CountMonotone(Constants, s.jobs + [job], Last(s), Last(s) + 1);
    CountMonotone(Memory, s.jobs + [job], Last(s), Last(s) + 1);
  }

  lemma WriterKeepsInv(s: State)
    requires Inv(s) && |s.jobs| > 1
    ensures Inv(AdvanceWriter(s))
  {
    hide Key;
  }

  lemma FlagKeepsInv(s: State, success: bool)
    requires Inv(s)
    requires !(s.worker.ReadJob? || s.worker.ReadConstants? || s.worker.ReadMemory?)
    requires !(s.worker.JobStored? || s.worker.MemoryDone?)
    ensures Inv(AdvanceWorker(s, success))
  {
    hide Count, Requests, Key;
  }

  lemma ReadKeepsInv(s: State, success: bool)
    requires Inv(s) && (s.worker.ReadJob? || s.worker.ReadConstants? || s.worker.ReadMemory?)
    ensures Inv(AdvanceWorker(s, success))
  {
    hide Count, Requests, Key;
    CountMonotone(Constants, s.jobs, Counted(Constants, s), Last(s));
    CountMonotone(Memory, s.jobs, Counted(Memory, s), Last(s));
  }

  lemma StoreKeepsInv(s: State, success: bool)
    requires Inv(s) && (s.worker.JobStored? || s.worker.MemoryDone?)
    ensures Inv(AdvanceWorker(s, success))
  {
    hide Count, Requests, Key;
  }

  lemma WorkerKeepsInv(s: State, success: bool)
    requires Inv(s)
    ensures Inv(AdvanceWorker(s, success))
  {
    if s.worker.JobStored? || s.worker.MemoryDone? {
      StoreKeepsInv(s, success);
    } else if s.worker.ReadJob? || s.worker.ReadConstants? || s.worker.ReadMemory? {
      ReadKeepsInv(s, success);
    } else {
      FlagKeepsInv(s, success);
    }
  }

  lemma {:induction false} InvAlways(default: Job, events: seq<Event>)
    ensures Inv(Run(default, events))
  {
    if events != [] {
      var s := Run(default, events[..|events| - 1]);
      InvAlways(default, events[..|events| - 1]);
      match events[|events| - 1]
      case NewJob(job) => if s.writer == Idle { AcceptKeepsInv(s, job); }
      case WriterStep => if |s.jobs| > 1 { WriterKeepsInv(s); }
      case WorkerStep(success) => WorkerKeepsInv(s, success);
    }
  }

  /** As many requests up to b as up to n: none in between. */
  lemma ServedCovers(r: Resource, jobs: seq<Job>, b: nat, v: nat, n: nat)
    requires b < |jobs| && 0 < v <= n < |jobs| && Requests(r, jobs, v)
    requires Count(r, jobs, n) <= Count(r, jobs, b)
    ensures v <= b
  {
    hide Requests;
    CountMonotone(r, jobs, v, n);
    if v > b {
      CountMonotone(r, jobs, b, v - 1);
      assert false;
    }
  }

  /**
   In every interleaving: when a counter is caught up, the resource was built from a job at least as new
   as the newest counted request for it.
   */
  lemma CaughtUp(default: Job, events: seq<Event>, r: Resource, v: nat)
    requires var s := Run(default, events);
             s.worker == Kernel && s.CounterOf(r).IsEqual() && 0 < v <= Counted(r, s) && Requests(r, s.jobs, v)
    ensures v <= Run(default, events).Built(r)
  {
    var s := Run(default, events);
    InvAlways(default, events);
    hide Run, Count, Requests;
    ServedCovers(r, s.jobs, s.Built(r), v, Counted(r, s));
  }

  lemma CaughtUpMatches(s: State, r: Resource)
    requires Inv(s) && s.worker != Dead && s.CounterOf(r).IsEqual() && s.current <= Counted(r, s)
    ensures Key(r, s.jobs[s.Built(r)]) == Key(r, s.jobs[s.current])
  {
    CountMonotone(r, s.jobs, s.Built(r), s.current);
    CountMonotone(r, s.jobs, s.current, Counted(r, s));
    NoRequestSameKey(r, s.jobs, s.Built(r), s.current);
  }

  /** Caught up and no uncounted request at the current job: what was built fits the current job. */
  lemma CaughtUpKernelMatches(default: Job, events: seq<Event>, r: Resource)
    requires var s := Run(default, events);
             s.worker == Kernel && s.CounterOf(r).IsEqual() && s.current <= Counted(r, s)
    ensures var s := Run(default, events);
            Inv(s) && Key(r, s.jobs[s.Built(r)]) == Key(r, s.jobs[s.current])
  {
    InvAlways(default, events);
    CaughtUpMatches(Run(default, events), r);
  }

  /** A request that is accepted but not counted yet, and that what was built does not serve. */
  ghost predicate Uncounted(r: Resource, s: State)
    requires Ordered(s)
  {
    Counted(r, s) < Last(s) && Last(s) > 0 && Requests(r, s.jobs, Last(s)) && s.Built(r) < Last(s)
  }

  /** Caught up means built for every accepted request, exactly when none is uncounted. */
  lemma CaughtUpExactly(default: Job, events: seq<Event>, r: Resource)
    requires var s := Run(default, events); s.worker == Kernel && s.CounterOf(r).IsEqual()
    ensures var s := Run(default, events);
            Inv(s) &&
            ((forall v | 0 < v < |s.jobs| && Requests(r, s.jobs, v) :: v <= s.Built(r)) <==> !Uncounted(r, s))
  {
    var s := Run(default, events);
    InvAlways(default, events);
    hide Run, Requests;
    if !Uncounted(r, s) {
      forall v | 0 < v < |s.jobs| && Requests(r, s.jobs, v)
        ensures v <= s.Built(r)
      {
        if v <= Counted(r, s) {
          CaughtUp(default, events, r, v);
        }
      }
    }
  }

  /** Caught up means built to fit the current job, exactly when the current job's request is not an uncounted one. */
  lemma CaughtUpFitsExactly(default: Job, events: seq<Event>, r: Resource)
    requires var s := Run(default, events); s.worker == Kernel && s.CounterOf(r).IsEqual()
    ensures var s := Run(default, events);
            Inv(s) &&
            (Key(r, s.jobs[s.Built(r)]) == Key(r, s.jobs[s.current]) <==> !(Uncounted(r, s) && s.current == Last(s)))
  {
    var s := Run(default, events);
    InvAlways(default, events);
    hide Run;
    if s.current <= Counted(r, s) {
      CaughtUpMatches(s, r);
    } else if s.Built(r) < s.current {
      var before := s.current - 1;
      CountMonotone(r, s.jobs, s.Built(r), before);
      NoRequestSameKey(r, s.jobs, s.Built(r), before);
    }
  }

  // ----- What the flag reads know ------------------------------------------------------------------

  /** What a flag read finds: whether to build again, and the newest job whose request it can know of. */
  datatype Note = Note(need: bool, known: nat)

  ghost function NoteOf(r: Resource, s: State): Note
    requires Ordered(s)
  {
    var newest := if Counted(r, s) > s.Built(r) then Counted(r, s) else s.Built(r);
    Note(!s.CounterOf(r).IsEqual(), newest)
  }

  /** The worker is about to read the flag of r. */
  predicate AtFlag(r: Resource, w: Worker) {
    if r == Memory then w.ConstantsFlag? else w.JobFlag?
  }

  /** The note of the last flag read of r. */
  ghost function FlagNote(r: Resource, default: Job, events: seq<Event>): Note {
    if events == [] then Note(false, 0)
    else
      var before, e := events[..|events| - 1], events[|events| - 1];
      InvAlways(default, before);
      if e.WorkerStep? && AtFlag(r, Run(default, before).worker) then NoteOf(r, Run(default, before))
      else FlagNote(r, default, before)
  }

  /** The note in force when the current job was copied. */
  ghost function CopyNote(r: Resource, default: Job, events: seq<Event>): Note {
    if events == [] then Note(false, 0)
    else
      var before, e := events[..|events| - 1], events[|events| - 1];
      if e.WorkerStep? && Run(default, before).worker.ReadMemory? then FlagNote(r, default, before)
      else CopyNote(r, default, before)
  }

  ghost predicate Matches(r: Resource, s: State)
    requires Ordered(s)
  {
    Key(r, s.jobs[s.Built(r)]) == Key(r, s.jobs[s.current])
  }

  /** The worker has read the flag of r, and not copied the job yet. */
  predicate PastFlag(r: Resource, w: Worker) {
    w.Flags? || w.ReadJob? || w.ReadConstants? || w.ReadMemory? || (r == Constants && w.ConstantsFlag?)
  }

  /** The worker has copied the job, and not come to the building of r yet. */
  predicate BeforeBuild(r: Resource, w: Worker) {
    w.JobCopied? || w.JobStored? || (r == Constants && w.MemoryDone?)
  }

  function Need(r: Resource, w: Worker): bool
    requires PastFlag(r, w) || BeforeBuild(r, w)
  {
    if r == Memory then w.needMemory else w.needConstants
  }

  /** Where nothing is to be built, what was built fits the newest job known. */
  ghost predicate Remembers(r: Resource, s: State, n: Note)
    requires Ordered(s) && n.known <= Last(s) && (PastFlag(r, s.worker) || BeforeBuild(r, s.worker))
  {
    && Need(r, s.worker) == n.need
    && (!n.need ==> Key(r, s.jobs[s.Built(r)]) == Key(r, s.jobs[n.known]))
  }

  /** What was built fits the current job exactly when a build was asked for, or the newest job known was like it. */
  ghost predicate Fits(r: Resource, s: State, n: Note)
    requires Ordered(s) && n.known <= Last(s)
  {
    Matches(r, s) <==> n.need || Key(r, s.jobs[n.known]) == Key(r, s.jobs[s.current])
  }

  ghost predicate Noted(r: Resource, s: State, flag: Note, copy: Note)
    requires Ordered(s)
  {
    && flag.known <= Last(s) && copy.known <= Last(s)
    && (PastFlag(r, s.worker) ==> Remembers(r, s, flag))
    && (BeforeBuild(r, s.worker) ==> Remembers(r, s, copy))
    && (s.worker != Dead && !BeforeBuild(r, s.worker) ==> Fits(r, s, copy))
  }

  lemma NoteRemembers(r: Resource, s: State)
    requires Inv(s) && s.worker != Dead
    ensures var n := NoteOf(r, s);
            n.known <= Last(s) && (!n.need ==> Key(r, s.jobs[s.Built(r)]) == Key(r, s.jobs[n.known]))
  {
    if s.CounterOf(r).IsEqual() && s.Built(r) < Counted(r, s) {
      CountMonotone(r, s.jobs, s.Built(r), Counted(r, s));
      NoRequestSameKey(r, s.jobs, s.Built(r), Counted(r, s));
    }
  }

  /** A flag read of r. */
  lemma ReadingNotes(r: Resource, s: State, success: bool, flag: Note, copy: Note)
    requires Inv(s) && Noted(r, s, flag, copy) && AtFlag(r, s.worker)
    ensures Ordered(AdvanceWorker(s, success)) && Noted(r, AdvanceWorker(s, success), NoteOf(r, s), copy)
  {
    hide Key, Count, Requests, Counted, Served, ReadsServed;
    NoteRemembers(r, s);
  }

  /** The building of a resource, or the step that leaves it out. */
  lemma BuildingFits(r: Resource, s: State, success: bool, flag: Note, copy: Note)
    requires Inv(s) && Noted(r, s, flag, copy) && (s.worker.JobStored? || s.worker.MemoryDone?)
    ensures Ordered(AdvanceWorker(s, success)) && Noted(r, AdvanceWorker(s, success), flag, copy)
  {
    hide Key, Count, Requests, Counted, Served, ReadsServed;
  }

  /** The copy hands the note over. */
  lemma CopyHandsOver(r: Resource, s: State, success: bool, flag: Note, copy: Note)
    requires Ordered(s) && Noted(r, s, flag, copy) && s.worker.ReadMemory?
    ensures Ordered(AdvanceWorker(s, success)) && Noted(r, AdvanceWorker(s, success), flag, flag)
  {
    hide Key;
  }

  lemma SameBuilt(r: Resource, s: State, t: State)
    requires Ordered(s) && Ordered(t) && t.jobs == s.jobs && t.current == s.current && t.Built(r) == s.Built(r)
    ensures Matches(r, t) == Matches(r, s)
  {
    hide Key;
  }

  /** Any other step of the worker builds nothing and copies nothing. */
  lemma OtherStepsKeepNoted(r: Resource, s: State, success: bool, flag: Note, copy: Note)
    requires Ordered(s) && Noted(r, s, flag, copy) && !AtFlag(r, s.worker)
    requires !s.worker.ReadMemory? && !s.worker.JobStored? && !s.worker.MemoryDone?
    ensures Ordered(AdvanceWorker(s, success)) && Noted(r, AdvanceWorker(s, success), flag, copy)
  {
    hide Matches, Key;
    var t := AdvanceWorker(s, success);
    assert t.jobs == s.jobs && t.current == s.current && t.Built(r) == s.Built(r);
    assert Matches(r, t) == Matches(r, s) by {
      SameBuilt(r, s, t);
    }
  }

  lemma WorkerKeepsNoted(r: Resource, s: State, success: bool, flag: Note, copy: Note)
    requires Inv(s) && Noted(r, s, flag, copy)
    ensures Ordered(AdvanceWorker(s, success))
    ensures Noted(r, AdvanceWorker(s, success),
                  if AtFlag(r, s.worker) then NoteOf(r, s) else flag, if s.worker.ReadMemory? then flag else copy)
  {
    hide Noted, NoteOf, Served, ReadsServed, AdvanceWorker;
    if AtFlag(r, s.worker) {
      ReadingNotes(r, s, success, flag, copy);
    } else if s.worker.JobStored? || s.worker.MemoryDone? {
      BuildingFits(r, s, success, flag, copy);
    } else if s.worker.ReadMemory? {
      CopyHandsOver(r, s, success, flag, copy);
    } else {
      OtherStepsKeepNoted(r, s, success, flag, copy);
    }
  }

  /** Steps of the manager change no job that was accepted before. */
  lemma ManagerKeepsNoted(r: Resource, s: State, t: State, flag: Note, copy: Note)
    requires Ordered(s) && Noted(r, s, flag, copy) && Ordered(t) && t.worker == s.worker
    requires s.jobs <= t.jobs && t.current == s.current && t.dag == s.dag && t.constants == s.constants
    ensures Noted(r, t, flag, copy)
  {
    hide Key;
  }

  lemma {:induction false} NotedAlways(r: Resource, default: Job, events: seq<Event>)
    ensures var s := Run(default, events);
            Inv(s) && Noted(r, s, FlagNote(r, default, events), CopyNote(r, default, events))
  {
    InvAlways(default, events);
    if events != [] {
      var before, e := events[..|events| - 1], events[|events| - 1];
      var s := Run(default, before);
      NotedAlways(r, default, before);
      hide Noted, Inv, Key;
      match e
      case WorkerStep(success) =>
        WorkerKeepsNoted(r, s, success, FlagNote(r, default, before), CopyNote(r, default, before));
      case NewJob(job) =>
        ManagerKeepsNoted(r, s, Step(s, e), FlagNote(r, default, before), CopyNote(r, default, before));
      case WriterStep =>
        ManagerKeepsNoted(r, s, Step(s, e), FlagNote(r, default, before), CopyNote(r, default, before));
    }
  }

  /**
   At every kernel of every run: a resource fits the current job exactly when the flag read before the copy
   of that job asked to build it, or the newest job known at that flag read had the same key.
   */
  lemma KernelFitsExactly(r: Resource, default: Job, events: seq<Event>)
    requires Run(default, events).worker == Kernel
    ensures var s, n := Run(default, events), CopyNote(r, default, events);
            && Inv(s) && n.known <= Last(s)
            && (Key(r, s.jobs[s.Built(r)]) == Key(r, s.jobs[s.current]) <==>
                n.need || Key(r, s.jobs[n.known]) == Key(r, s.jobs[s.current]))
  {
    NotedAlways(r, default, events);
    hide Key;
  }

  // ----- Without an update between the flag reads and the copy -------------------------------------

  ghost predicate InWindow(w: Worker) {
    w.JobFlag? || w.ConstantsFlag? || w.Flags? || w.ReadJob? || w.ReadConstants? || w.ReadMemory? || w.JobCopied?
  }

  /** No update is under way now, nor was since the worker entered the window it is in. */
  ghost predicate OpenQuiet(default: Job, events: seq<Event>) {
    && Run(default, events).writer == Idle
    && (events != [] && InWindow(Run(default, events[..|events| - 1]).worker) ==>
          OpenQuiet(default, events[..|events| - 1]))
  }

  /** No update fell between the flag reads and the copy of the current job. */
  ghost predicate CopyQuiet(default: Job, events: seq<Event>) {
    events != [] ==>
      var before, e := events[..|events| - 1], events[|events| - 1];
      if e.WorkerStep? && Run(default, before).worker.ReadMemory? then OpenQuiet(default, before)
      else CopyQuiet(default, before)
  }

  /** A worker past the flag of r has just read it, or was past it before; no job came with the step. */
  lemma QuietStep(r: Resource, s: State, e: Event)
    requires Ordered(s) && Step(s, e).writer == Idle && PastFlag(r, Step(s, e).worker)
    ensures Last(Step(s, e)) == Last(s)
    ensures if e.WorkerStep? && AtFlag(r, s.worker) then NoteOf(r, s).known == Last(s)
            else PastFlag(r, s.worker) && InWindow(s.worker)
  {
    hide Key, Requests;
  }

  /** In a quiet window the newest job known stays the newest job. */
  lemma {:induction false} QuietKnowsNewest(r: Resource, default: Job, events: seq<Event>)
    requires OpenQuiet(default, events) && PastFlag(r, Run(default, events).worker)
    ensures FlagNote(r, default, events).known == Last(Run(default, events))
  {
    if events != [] {
      hide Step, NoteOf, Served, ReadsServed, PastFlag, AtFlag, InWindow;
      var before, e := events[..|events| - 1], events[|events| - 1];
      InvAlways(default, before);
      QuietStep(r, Run(default, before), e);
      if !(e.WorkerStep? && AtFlag(r, Run(default, before).worker)) {
        QuietKnowsNewest(r, default, before);
      }
    }
  }

  lemma {:induction false} QuietCopiesNewest(r: Resource, default: Job, events: seq<Event>)
    requires CopyQuiet(default, events)
    ensures CopyNote(r, default, events).known == Run(default, events).current
  {
    if events != [] {
      var before, e := events[..|events| - 1], events[|events| - 1];
      InvAlways(default, before);
      if e.WorkerStep? && Run(default, before).worker.ReadMemory? {
        QuietKnowsNewest(r, default, before);
      } else {
        QuietCopiesNewest(r, default, before);
      }
    }
  }

  /** Then the kernel runs with the memory epoch and the header of its current job, whatever was before. */
  lemma QuietKernelMatches(default: Job, events: seq<Event>)
    requires CopyQuiet(default, events) && Run(default, events).worker == Kernel
    ensures var s := Run(default, events);
            && Inv(s) && s.jobs[s.dag].epoch == s.jobs[s.current].epoch
            && s.jobs[s.constants].header == s.jobs[s.current].header
            && s.jobs[s.constants].headerBlob == s.jobs[s.current].headerBlob
  {
    KernelFitsExactly(Memory, default, events);
    KernelFitsExactly(Constants, default, events);
    QuietCopiesNewest(Memory, default, events);
    QuietCopiesNewest(Constants, default, events);
    hide Run, CopyNote, CopyQuiet;
  }

  /** No update begins or is under way in the window, at any time of the run. */
  ghost predicate Exclusive(default: Job, events: seq<Event>) {
    && (events != [] ==> Exclusive(default, events[..|events| - 1]))
    && var s := Run(default, events); (InWindow(s.worker) ==> s.writer == Idle)
  }

  /** No update is under way in any state of the run in which the worker is in the window. */
  lemma {:induction false} ExclusiveMeans(default: Job, events: seq<Event>)
    ensures Exclusive(default, events) <==>
            forall k | 0 <= k <= |events| ::
              InWindow(Run(default, events[..k]).worker) ==> Run(default, events[..k]).writer == Idle
  {
    hide Run, InWindow;
    assert events[..|events|] == events;
    if events != [] {
      var before := events[..|events| - 1];
      ExclusiveMeans(default, before);
      assert forall k | 0 <= k < |events| :: events[..k] == before[..k];
    }
  }

  lemma {:induction false} ExclusiveOpenQuiet(default: Job, events: seq<Event>)
    requires Exclusive(default, events) && InWindow(Run(default, events).worker)
    ensures OpenQuiet(default, events)
  {
    if events != [] && InWindow(Run(default, events[..|events| - 1]).worker) {
      ExclusiveOpenQuiet(default, events[..|events| - 1]);
    }
  }

  lemma {:induction false} ExclusiveCopyQuiet(default: Job, events: seq<Event>)
    requires Exclusive(default, events)
    ensures CopyQuiet(default, events)
  {
    if events != [] {
      var before, e := events[..|events| - 1], events[|events| - 1];
      if e.WorkerStep? && Run(default, before).worker.ReadMemory? {
        ExclusiveOpenQuiet(default, before);
      } else {
        ExclusiveCopyQuiet(default, before);
      }
    }
  }

  /** If no update ever falls in the window, every kernel runs with the memory epoch and the header of its job. */
  lemma ExclusiveKernelMatches(default: Job, events: seq<Event>)
    requires Exclusive(default, events) && Run(default, events).worker == Kernel
    ensures var s := Run(default, events);
            && Inv(s) && s.jobs[s.dag].epoch == s.jobs[s.current].epoch
            && s.jobs[s.constants].header == s.jobs[s.current].header
            && s.jobs[s.constants].headerBlob == s.jobs[s.current].headerBlob
  {
    ExclusiveCopyQuiet(default, events);
    QuietKernelMatches(default, events);
  }

  // ----- What goes wrong otherwise -----------------------------------------------------------------

  function Steps(s: State, events: seq<Event>): (s': State)
    requires s.jobs != []
    ensures s'.jobs != []
    decreases |events|
  {
    if events == [] then s else Steps(Step(s, events[0]), events[1..])
  }

  lemma {:induction false} RunThenSteps(default: Job, before: seq<Event>, events: seq<Event>)
    ensures Run(default, before + events) == Steps(Run(default, before), events)
    decreases |events|
  {
    if events == [] {
      assert before + events == before;
    } else {
      var next := before + [events[0]];
      assert next[..|next| - 1] == before && next + events[1..] == before + events;
      RunThenSteps(default, next, events[1..]);
    }
  }

  /** n worker steps, all successful. */
  function Work(n: nat): seq<Event> {
    if n == 0 then [] else [WorkerStep(true)] + Work(n - 1)
  }

  function WorkFrom(s: State, n: nat): (s': State)
    requires s.jobs != []
    ensures s'.jobs != []
    decreases n
  {
    if n == 0 then s else WorkFrom(AdvanceWorker(s, true), n - 1)
  }

  lemma {:induction false} StepsOfWork(s: State, n: nat)
    requires s.jobs != []
    ensures Steps(s, Work(n)) == WorkFrom(s, n)
    decreases n
  {
    if n > 0 {
      StepsOfWork(AdvanceWorker(s, true), n - 1);
    }
  }

  /** A whole update while the worker does not move. */
  lemma UpdateRuns(s: State, job: Job)
    requires s.jobs != [] && s.writer == Idle && s.jobs[|s.jobs| - 1] != job
    ensures var v, jobs := |s.jobs|, s.jobs + [job];
            Steps(s, Announcement(job)) ==
            s.(jobs := jobs, next := v, jobCounter := s.jobCounter.Add(),
               constantsCounter :=
                 if Requests(Constants, jobs, v) then s.constantsCounter.Add() else s.constantsCounter,
               memoryCounter := if Requests(Memory, jobs, v) then s.memoryCounter.Add() else s.memoryCounter)
  {
    var e := Announcement(job);
    var s1 := Accept(s, job);
    var s2 := AdvanceWriter(s1);
    var s3 := AdvanceWriter(s2);
    assert e[1..][1..] == e[2..] && e[2..][1..] == e[3..] && e[3..][1..] == [];
    assert s3.writer == MemoryCounted;
    hide AdvanceWriter, AdvanceWorker, Accept, Requests;
    assert Steps(s3, e[3..]) == AdvanceWriter(s3);
    assert Steps(s2, e[2..]) == AdvanceWriter(s3);
    assert Steps(s1, e[1..]) == AdvanceWriter(s3);
  }

  /** The flag reads of updateJob while the manager does not move. */
  lemma FlagReads(s: State)
    requires s.jobs != [] && s.worker == Top
    ensures var c, m := !s.constantsCounter.IsEqual(), !s.memoryCounter.IsEqual();
            WorkFrom(s, 3) == s.(worker := if s.jobCounter.IsEqual() || (!c && !m) then Kernel else Flags(c, m))
  {
    var s1 := AdvanceWorker(s, true);
    var s2 := AdvanceWorker(s1, true);
    assert WorkFrom(s2, 1) == AdvanceWorker(s2, true);
  }

  /** The rest of updateJob while the manager does not move. */
  lemma FinishUpdate(s: State)
    requires s.jobs != [] && s.worker.Flags?
    ensures var c, m := s.worker.needConstants, s.worker.needMemory;
            WorkFrom(s, 7) ==
            s.(worker := Top, current := s.next, jobCounter := s.jobCounter.Update(s.jobCounter.current),
               dag := if m then s.next else s.dag, constants := if c then s.next else s.constants,
               memoryCounter := if m then s.memoryCounter.Update(s.memoryCounter.current) else s.memoryCounter,
               constantsCounter :=
                 if c then s.constantsCounter.Update(s.constantsCounter.current) else s.constantsCounter)
  {
    var s3 := AdvanceWorker(AdvanceWorker(AdvanceWorker(s, true), true), true);
    var s6 := AdvanceWorker(AdvanceWorker(AdvanceWorker(s3, true), true), true);
    assert WorkFrom(s6, 1) == AdvanceWorker(s6, true);
    assert WorkFrom(s3, 4) == WorkFrom(s6, 1);
  }

  const DEFAULT_JOB := Job(-1, 0, 0)
  const FIRST := Job(5, 1, 0)
  const SECOND := Job(5, 2, 0)
  const THIRD := Job(6, 3, 0)

  /** The worker has prepared the first job; the second, of the same epoch, has been announced. */
  function SecondAnnounced(): State {
    State([DEFAULT_JOB, FIRST, SECOND], 2, 1, 1, 1, Counter(1, 1), Counter(2, 1), Counter(2, 1), Idle, Top)
  }

  lemma Extend(events: seq<Event>, s: State, more: seq<Event>)
    requires Run(DEFAULT_JOB, events) == s
    ensures s.jobs != [] && Run(DEFAULT_JOB, events + more) == Steps(s, more)
  {
    RunThenSteps(DEFAULT_JOB, events, more);
  }

  lemma ExtendWork(events: seq<Event>, s: State, n: nat)
    requires Run(DEFAULT_JOB, events) == s
    ensures s.jobs != [] && Run(DEFAULT_JOB, events + Work(n)) == WorkFrom(s, n)
  {
    Extend(events, s, Work(n));
    StepsOfWork(s, n);
  }

  lemma NothingRun()
    ensures Run(DEFAULT_JOB, []) == Init(DEFAULT_JOB)
  {
  }

  lemma LeaveWaiting(s: State)
    requires s.jobs != [] && (s.worker == Kernel || (s.worker == Waiting && !s.jobCounter.IsEqual()))
    ensures WorkFrom(s, 1) == s.(worker := Top)
  {
  }

  lemma ReachSecondAnnounced() returns (events: seq<Event>)
    ensures Run(DEFAULT_JOB, events) == SecondAnnounced()
  {
    hide WorkFrom, Steps, Run;
    var s0 := Init(DEFAULT_JOB);
    UpdateRuns(s0, FIRST);
    assert [DEFAULT_JOB] + [FIRST] == [DEFAULT_JOB, FIRST];
    var s1 := s0.(jobs := [DEFAULT_JOB, FIRST], next := 1,
                  memoryCounter := Counter(1, 0), constantsCounter := Counter(1, 0), jobCounter := Counter(1, 0));
    var s2 := s1.(worker := Top);
    FlagReads(s2);
    var s3 := s2.(worker := Flags(true, true));
    FinishUpdate(s3);
    var s4 := s2.(current := 1, dag := 1, constants := 1,
                  memoryCounter := Counter(1, 1), constantsCounter := Counter(1, 1), jobCounter := Counter(1, 1));
    UpdateRuns(s4, SECOND);
    assert [DEFAULT_JOB, FIRST] + [SECOND] == [DEFAULT_JOB, FIRST, SECOND];
    assert Run(DEFAULT_JOB, []) == s0 by { NothingRun(); }
    events := [] + Announcement(FIRST);
    Extend([], s0, Announcement(FIRST));
    ExtendWork(events, s1, 1);
    LeaveWaiting(s1);
    events := events + Work(1);
    ExtendWork(events, s2, 3);
    events := events + Work(3);
    ExtendWork(events, s3, 7);
    events := events + Work(7);
    Extend(events, s4, Announcement(SECOND));
    events := events + Announcement(SECOND);
  }

  /**
   An update that falls between the flag reads and the store of the job counter: the kernel runs the new
   job on the old memory although no update is under way, and goes on doing so until another job comes.
   */
  lemma StaleMemory() returns (events: seq<Event>)
    ensures var s := Run(DEFAULT_JOB, events);
            && s.worker == Kernel && s.writer == Idle && |s.jobs| == 4
            && s.current == 3 && s.dag == 1 && s.jobs[s.dag].epoch != s.jobs[s.current].epoch
            && Run(DEFAULT_JOB, events + Work(1) + Work(3)) == s
    ensures var s, n := Run(DEFAULT_JOB, events), CopyNote(Memory, DEFAULT_JOB, events);
            n.known < |s.jobs| && !n.need && s.jobs[n.known].epoch != s.jobs[s.current].epoch
  {
    events := ReachSecondAnnounced();
    hide WorkFrom, Steps, Run;
    var s0 := SecondAnnounced();
    FlagReads(s0);
    var s1 := s0.(worker := Flags(true, false));
    UpdateRuns(s1, THIRD);
    var s2 := s1.(jobs := s1.jobs + [THIRD], next := 3,
                  memoryCounter := Counter(2, 1), constantsCounter := Counter(3, 1), jobCounter := Counter(3, 1));
    FinishUpdate(s2);
    var s3 := s2.(worker := Top, current := 3, constants := 3,
                  constantsCounter := Counter(3, 3), jobCounter := Counter(3, 3));
    FlagReads(s3);
    var s4 := s3.(worker := Kernel);
    ExtendWork(events, s0, 3);
    events := events + Work(3);
    Extend(events, s1, Announcement(THIRD));
    events := events + Announcement(THIRD);
    ExtendWork(events, s2, 7);
    events := events + Work(7);
    ExtendWork(events, s3, 3);
    events := events + Work(3);
    LeaveWaiting(s4);
    ExtendWork(events, s4, 1);
    ExtendWork(events + Work(1), s3, 3);
    KernelFitsExactly(Memory, DEFAULT_JOB, events);
  }

  /**
   An update under way: its job is already copied, its memory request not yet counted, so the kernel runs
   a job of another epoch while the memory counter is caught up.
   */
  lemma UncountedRequest() returns (events: seq<Event>)
    ensures var s := Run(DEFAULT_JOB, events);
            && s.worker == Kernel && s.memoryCounter.IsEqual() && |s.jobs| == 4 && s.current == 3 > Counted(Memory, s)
            && s.dag == 1 && s.jobs[s.dag].epoch != s.jobs[s.current].epoch
  {
    events := ReachSecondAnnounced();
    var s0 := SecondAnnounced();
    var announce := [NewJob(THIRD), WriterStep];
    var s1 := s0.(jobs := s0.jobs + [THIRD], next := 3, constantsCounter := Counter(3, 1), writer := ConstantsCounted);
    assert Steps(s0, announce) == s1 by {
      assert announce[1..][1..] == [] && announce[1..][0] == WriterStep;
      assert Steps(Step(s0, announce[0]), announce[1..]) == s1;
    }
    hide WorkFrom, Steps, Run;
    FlagReads(s1);
    var s2 := s1.(worker := Flags(true, false));
    FinishUpdate(s2);
    var s3 := s1.(current := 3, constants := 3, constantsCounter := Counter(3, 3), jobCounter := Counter(2, 2));
    FlagReads(s3);
    Extend(events, s0, announce);
    events := events + announce;
    ExtendWork(events, s1, 3);
    events := events + Work(3);
    ExtendWork(events, s2, 7);
    events := events + Work(7);
    ExtendWork(events, s3, 3);
    events := events + Work(3);
  }
}
