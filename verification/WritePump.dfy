/**
 The pump that serialises the writes of a socket. The mutex makes `enqueue` and `onComplete` atomic up
 to the point where they call `transmit`; the call itself is a later step of the same thread.
 */
module WritePump {
  import opened Options

  /** The fields guarded by the mutex. */
  datatype Pump<P> = Pump(queue: seq<P>, writeInFlight: bool)

  /** The locked part of `enqueue`; the option is the payload to transmit afterwards. */
  function Enqueued<P>(s: Pump<P>, payload: P): (Pump<P>, Option<P>) {
    var queue := s.queue + [payload];
    if s.writeInFlight then (Pump(queue, true), None) else (Pump(queue, true), Some(queue[0]))
  }

  /** The locked part of `onComplete`. */
  function Completed<P>(s: Pump<P>, success: bool): (Pump<P>, Option<P>) {
    var popped := if s.queue != [] then s.queue[1..] else [];
    var queue := if success then popped else [];
    if queue == [] then (Pump([], false), None) else (Pump(queue, s.writeInFlight), Some(queue[0]))
  }

  class PumpObject<P> {
    var queue: seq<P>
    var writeInFlight: bool

    constructor ()
      ensures queue == [] && !writeInFlight
    {
      queue := [];
      writeInFlight := false;
    }

    method Enqueue(payload: P) returns (next: Option<P>)
      modifies this
      ensures (Pump(queue, writeInFlight), next) == Enqueued(old(Pump(queue, writeInFlight)), payload)
    {
      queue := queue + [payload];
      if writeInFlight {
        return None;
      }
      writeInFlight := true;
      next := Some(queue[0]);
    }

    method OnComplete(success: bool) returns (next: Option<P>)
      modifies this
      ensures (Pump(queue, writeInFlight), next) == Completed(old(Pump(queue, writeInFlight)), success)
    {
      if |queue| != 0 {
        queue := queue[1..];
      }
      if !success {
        queue := [];
      }
      if |queue| == 0 {
        writeInFlight := false;
        return None;
      }
      next := Some(queue[0]);
    }
  }

  // ----- Threads around the pump -------------------------------------------------------------------

  /**
   The pump with its surroundings: payloads that threads carry from the unlock to their call of
   `transmit`, payloads transmitted and not yet acknowledged. For the record: everything enqueued,
   everything transmitted, and the positions in the log of what was transmitted and of what a failure
   dropped from the queue.
   */
  datatype World<P> = World(
    pump: Pump<P>, carried: seq<P>, outstanding: seq<P>,
    log: seq<P>, sent: seq<P>, handed: seq<nat>, dropped: set<nat>)

  datatype Event<P> = Enqueue(payload: P) | Transmit(thread: nat) | Complete(write: nat, success: bool)

  function Init<P>(): World<P> {
    World(Pump([], false), [], [], [], [], [], {})
  }

  function Without<T>(s: seq<T>, i: nat): seq<T>
    requires i < |s|
  {
    s[..i] + s[i + 1..]
  }

  function Carry<P>(next: Option<P>): seq<P> {
    if next.Some? then [next.value] else []
  }

  /** The positions from first to last - 1. */
  function Positions(first: nat, last: nat): (s: set<nat>)
    ensures forall k: nat :: k in s <==> (first <= k < last)
    decreases if first < last then last - first else 0
  {
    if first < last then {first} + Positions(first + 1, last) else {}
  }

  /** Position in the log of the head of the queue. */
  function Head<P>(w: World<P>): int {
    |w.log| - |w.pump.queue|
  }

  /** One step; an event that cannot happen changes nothing. A completion belongs to one transmitted payload. */
  function Step<P>(w: World<P>, e: Event<P>): World<P> {
    match e
    case Enqueue(payload) =>
      var (pump, next) := Enqueued(w.pump, payload);
      w.(pump := pump, carried := w.carried + Carry(next), log := w.log + [payload])
    case Transmit(thread) =>
      if thread >= |w.carried| || Head(w) < 0 then w
      else
        w.(carried := Without(w.carried, thread), outstanding := w.outstanding + [w.carried[thread]],
           sent := w.sent + [w.carried[thread]], handed := w.handed + [Head(w)])
    case Complete(write, success) =>
      if write >= |w.outstanding| || Head(w) < 0 then w
      else
        var (pump, next) := Completed(w.pump, success);
        var lost := if success then {} else Positions(Head(w) + 1, |w.log|);
        w.(pump := pump, carried := w.carried + Carry(next), outstanding := Without(w.outstanding, write),
           dropped := w.dropped + lost)
  }

  function Run<P>(events: seq<Event<P>>): World<P> {
    if events == [] then Init() else Step(Run(events[..|events| - 1]), events[|events| - 1])
  }

  /** At most one payload is under way, the head of the queue, and there is one exactly when the queue is not empty. */
  ghost predicate OneUnderWay<P>(w: World<P>) {
    && (w.pump.writeInFlight <==> w.pump.queue != [])
    && w.carried + w.outstanding == (if w.pump.queue == [] then [] else [w.pump.queue[0]])
  }

  /** The queue is the end of the log; everything before was transmitted or dropped, the head at most transmitted. */
  ghost predicate Accounted<P>(w: World<P>) {
    && Head(w) >= 0 && w.pump.queue == w.log[Head(w)..]
    && (forall k: nat :: k < Head(w) ==> (k in w.handed <==> k !in w.dropped))
    && (forall k | k in w.dropped :: k < Head(w))
    && (forall k | k in w.handed :: k < Head(w) || (k == Head(w) && w.outstanding != []))
    && (w.outstanding != [] ==> Head(w) in w.handed)
  }

  /** Payloads are transmitted in the order in which they were enqueued, each at most once. */
  ghost predicate Fifo<P>(w: World<P>) {
    && |w.sent| == |w.handed|
    && (forall i | 0 <= i < |w.handed| :: w.handed[i] < |w.log| && w.sent[i] == w.log[w.handed[i]])
    && (forall i, j | 0 <= i < j < |w.handed| :: w.handed[i] < w.handed[j])
  }

  ghost predicate Safe<P>(w: World<P>) {
    OneUnderWay(w) && Accounted(w) && Fifo(w)
  }

  lemma AppendAccounted<P>(w: World<P>, w': World<P>, payload: P)
    requires Accounted(w) && w'.pump.queue == w.pump.queue + [payload] && w'.log == w.log + [payload]
    requires w'.handed == w.handed && w'.dropped == w.dropped && w'.outstanding == w.outstanding
    ensures Accounted(w')
  {
    assert w'.log[Head(w')..] == w.log[Head(w)..] + [payload];
  }

  lemma AppendFifo<P>(w: World<P>, w': World<P>, payload: P)
    requires Fifo(w) && w'.log == w.log + [payload] && w'.handed == w.handed && w'.sent == w.sent
    ensures Fifo(w')
  {
    assert forall k: nat | k < |w.log| :: w'.log[k] == w.log[k];
  }

  lemma AppendSafe<P>(w: World<P>, w': World<P>, payload: P)
    requires Safe(w)
    requires w' == w.(pump := Pump(w.pump.queue + [payload], true), log := w.log + [payload],
                      carried := w.carried + if w.pump.queue == [] then [payload] else [])
    ensures Safe(w')
  {
    hide Accounted, Fifo;
    AppendAccounted(w, w', payload);
    AppendFifo(w, w', payload);
  }

  lemma EnqueueSafe<P>(w: World<P>, payload: P)
    requires Safe(w)
    ensures Safe(Step(w, Enqueue(payload)))
  {
    hide Accounted, Fifo;
    assert w.pump.queue == [] ==> w.pump.queue + [payload] == [payload];
    AppendSafe(w, Step(w, Enqueue(payload)), payload);
  }

  lemma HandOutAccounted<P>(w: World<P>, w': World<P>)
    requires Accounted(w) && w.outstanding == [] && w.pump.queue != [] && w.carried != []
    requires w' == w.(carried := [], outstanding := w.carried, sent := w.sent + w.carried,
                      handed := w.handed + [Head(w)])
    ensures Accounted(w')
  {
    assert forall k :: k in w'.handed <==> k in w.handed || k == Head(w);
  }

  lemma HandOutFifo<P>(w: World<P>, w': World<P>)
    requires Accounted(w) && Fifo(w) && w.outstanding == [] && w.pump.queue != [] && w.carried == [w.pump.queue[0]]
    requires w' == w.(carried := [], outstanding := w.carried, sent := w.sent + w.carried,
                      handed := w.handed + [Head(w)])
    ensures Fifo(w')
  {
    assert w.log[Head(w)] == w.pump.queue[0];
    assert forall i | 0 <= i < |w.handed| :: w.handed[i] in w.handed && w.handed[i] < Head(w);
  }

  /** The head of the queue goes out. */
  lemma HandOutSafe<P>(w: World<P>, w': World<P>)
    requires Safe(w) && w.carried != []
    requires w' == w.(carried := [], outstanding := w.carried, sent := w.sent + w.carried,
                      handed := w.handed + [Head(w)])
    ensures Safe(w')
  {
    assert w.carried == [w.pump.queue[0]] && w.outstanding == [] by {
      assert |w.carried| + |w.outstanding| == 1;
    }
    hide Accounted, Fifo;
    assert w'.carried + w'.outstanding == w.carried;
    assert OneUnderWay(w');
    HandOutAccounted(w, w');
    HandOutFifo(w, w');
  }

  lemma TransmitSafe<P>(w: World<P>, thread: nat)
    requires Safe(w)
    ensures Safe(Step(w, Transmit(thread)))
  {
    if thread < |w.carried| {
      assert w.carried == [w.pump.queue[0]] && w.outstanding == [] by {
        assert |w.carried| + |w.outstanding| == 1;
      }
      assert Without(w.carried, thread) == [];
      HandOutSafe(w, Step(w, Transmit(thread)));
    }
  }

  /** The head leaves the queue after a successful write. */
  lemma PopSafe<P>(w: World<P>, w': World<P>)
    requires Safe(w) && w.outstanding != []
    requires w' == w.(pump := Pump(w.pump.queue[1..], w.pump.queue[1..] != []), outstanding := [],
                      carried := if w.pump.queue[1..] == [] then [] else [w.pump.queue[1]])
    ensures Safe(w')
  {
    assert w.pump.queue[1..] == w.log[Head(w) + 1..];
    assert w'.carried + w'.outstanding == w'.carried;
  }

  /** The head and everything behind it leave the queue after a failed write. */
  lemma DropSafe<P>(w: World<P>, w': World<P>)
    requires Safe(w) && w.outstanding != []
    requires w' == w.(pump := Pump([], false), outstanding := [], carried := [],
                      dropped := w.dropped + Positions(Head(w) + 1, |w.log|))
    ensures Safe(w')
  {
    assert w.log[|w.log|..] == [];
  }

  lemma CompleteSafe<P>(w: World<P>, write: nat, success: bool)
    requires Safe(w)
    ensures Safe(Step(w, Complete(write, success)))
  {
    assert Head(w) >= 0;
    hide Accounted, Fifo;
    var w' := Step(w, Complete(write, success));
    if write < |w.outstanding| {
      assert w.outstanding == [w.pump.queue[0]] && w.carried == [] by {
        assert |w.carried| + |w.outstanding| == 1;
      }
      assert w'.outstanding == [];
      if success {
        PopSafe(w, w');
      } else {
        DropSafe(w, w');
      }
    }
  }

  /** Every reachable state is safe, whatever the threads do, provided each transmit is completed once. */
  lemma {:induction false} AlwaysSafe<P>(events: seq<Event<P>>)
    ensures Safe(Run(events))
  {
    if events != [] {
      var before, e := Run(events[..|events| - 1]), events[|events| - 1];
      AlwaysSafe(events[..|events| - 1]);
      match e
      case Enqueue(payload) => EnqueueSafe(before, payload);
      case Transmit(thread) => TransmitSafe(before, thread);
      case Complete(write, success) => CompleteSafe(before, write, success);
    }
  }

  /** What was transmitted is what was enqueued, in the same order and without repetition, one payload at a time. */
  lemma HandedOutInOrder<P>(events: seq<Event<P>>)
    ensures var w := Run(events);
            && |w.carried| + |w.outstanding| <= 1 && |w.sent| == |w.handed|
            && (forall i | 0 <= i < |w.sent| :: w.handed[i] < |w.log| && w.sent[i] == w.log[w.handed[i]])
            && (forall i, j | 0 <= i < j < |w.sent| :: w.handed[i] < w.handed[j])
  {
    AlwaysSafe(events);
    hide Run;
    var w := Run(events);
    assert |w.carried + w.outstanding| <= 1;
  }

  function Elements(s: seq<nat>): set<nat> {
    set k | k in s
  }

  /** Every enqueued payload is handed out, dropped or queued; the head alone can be handed out and queued. */
  lemma Conservation<P>(events: seq<Event<P>>)
    ensures var w := Run(events);
            Head(w) >= 0 &&
            var handed, queued := Elements(w.handed), Positions(Head(w), |w.log|);
            && Positions(0, |w.log|) == handed + w.dropped + queued
            && handed !! w.dropped && queued !! w.dropped
            && handed * queued == if w.outstanding == [] then {} else {Head(w)}
  {
    AlwaysSafe(events);
  }

  /** When nothing is under way, nothing waits: an idle pump has transmitted or dropped everything. */
  lemma IdleMeansEmpty<P>(events: seq<Event<P>>)
    requires Run(events).carried == [] && Run(events).outstanding == []
    ensures Run(events).pump == Pump([], false)
    ensures forall k: nat | k < |Run(events).log| :: k in Run(events).handed || k in Run(events).dropped
  {
    AlwaysSafe(events);
  }

  lemma RunOn<P>(events: seq<Event<P>>, e: Event<P>)
    ensures Run(events + [e]) == Step(Run(events), e)
  {
    assert (events + [e])[..|events|] == events;
  }

  lemma OneTransmitted<P>(a: P)
    ensures Run([Enqueue(a), Transmit(0)]).pump == Pump([a], true)
  {
    var e1 := [Enqueue(a)];
    RunOn([], Enqueue(a));
    RunOn(e1, Transmit(0));
    assert [] + e1 == e1 && e1 + [Transmit(0)] == [Enqueue(a), Transmit(0)];
    assert Run<P>([]) == Init();
    hide Run;
    assert Step(Init(), Enqueue(a)).pump == Pump([] + [a], true);
  }

  lemma ThreeQueued<P>(a: P, b: P, c: P)
    ensures Run([Enqueue(a), Transmit(0), Enqueue(b), Enqueue(c)]).pump == Pump([a, b, c], true)
  {
    hide Run;
    var e2 := [Enqueue(a), Transmit(0)];
    var e3 := e2 + [Enqueue(b)];
    OneTransmitted(a);
    RunOn(e2, Enqueue(b));
    RunOn(e3, Enqueue(c));
    assert e3 + [Enqueue(c)] == [Enqueue(a), Transmit(0), Enqueue(b), Enqueue(c)];
    assert Run(e3).pump == Pump([a] + [b], true);
    assert [a] + [b] + [c] == [a, b, c];
  }

  /** Without "exactly one completion per transmit" two payloads are under way at once. */
  lemma SpuriousCompletion<P>(a: P, b: P, c: P)
    ensures var w := Run([Enqueue(a), Transmit(0), Enqueue(b), Enqueue(c)]);
            var (pump, next) := Completed(w.pump, true);
            var (pump', next') := Completed(pump, true);
            w.pump.queue == [a, b, c] && next == Some(b) && next' == Some(c)
  {
    ThreeQueued(a, b, c);
    hide Run;
    assert [a, b, c][1..] == [b, c] && [b, c][1..] == [c];
  }
}
