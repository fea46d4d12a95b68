/** The event queue protocol: the NIC writes event words into a 512-slot ring, the driver
    recognises an unread slot only by its not holding a marker (all ones or zero), zeroes
    what it reads, and reports progress through a 9-bit read pointer on a doorbell.

    `Queue` holds the shared ring and the driver's pointer next to the NIC's history, which
    is unbounded. The steps are single slot accesses, so a run interleaves the NIC's writes
    with the inside of a poll loop as well as with whole polls. */
module EventQueue {
  import opened Rings
  import opened Options

  datatype Queue = Queue(
    ring: seq<Word>,     // shared memory
    rptr: nat,           // driver: evq_read_ptr
    doorbell: nat,       // last value written to the RPTR doorbell
    log: seq<Word>,      // NIC: every event it has ever written
    taken: nat,          // events the driver has consumed
    acked: nat)          // NIC: how many of them it knows to be consumed

  predicate IsMarker(w: Word) {
    w == ALL_ONES || w == 0
  }

  /** The ring agrees with the history: unread events are in their slots and every other
      slot holds a marker. */
  ghost predicate RingHolds(ring: seq<Word>, log: seq<Word>, taken: nat)
    requires taken <= |log| <= taken + RING
  {
    && |ring| == RING
    && (forall i :: taken <= i < |log| ==> Unread(ring, log, i))
    && (forall i :: |log| <= i < taken + RING ==> Blank(ring, i))
    && (forall i :: 0 <= i < |log| ==> !IsMarker(log[i]))
  }

  ghost predicate Unread(ring: seq<Word>, log: seq<Word>, i: nat)
    requires |ring| == RING && i < |log|
  {
    ring[Slot(i)] == log[i]
  }

  ghost predicate Blank(ring: seq<Word>, i: nat)
    requires |ring| == RING
  {
    IsMarker(ring[Slot(i)])
  }

  ghost predicate Inv(q: Queue) {
    && q.acked <= q.taken <= |q.log|
    && |q.log| - q.acked < RING
    && q.rptr == Slot(q.taken)
    && RingHolds(q.ring, q.log, q.taken)
  }

  /** The NIC has room when fewer than 511 events are unacknowledged. */
  predicate HasRoom(q: Queue) {
    |q.log| < q.acked + RING - 1
  }

  /** A freshly primed queue: the ring is all ones and INIT_EVQ has just run. */
  function Fresh(): Queue {
    Queue(seq(RING, i => ALL_ONES), 0, 0, [], 0, 0)
  }

  lemma FreshInv()
    ensures Inv(Fresh())
  {
  }

  // ------------------------------------------------------------------ steps

  /** The NIC's DMA of one event. */
  function Write(q: Queue, w: Word): Queue
    requires |q.ring| == RING
  {
    q.(ring := q.ring[Slot(|q.log|) := w], log := q.log + [w])
  }

  /** One turn of the driver's loop: look at the slot, stop on a marker, otherwise zero
      the slot and advance. */
  function Take(q: Queue): (Queue, Option<Word>)
    requires |q.ring| == RING && q.rptr < RING
  {
    var w := q.ring[q.rptr];
    if IsMarker(w) then (q, None)
    else (q.(ring := q.ring[q.rptr := 0], rptr := (q.rptr + 1) % RING, taken := q.taken + 1), Some(w))
  }

  /** The RPTR doorbell, and what the NIC concludes from it. */
  function Ack(q: Queue): Queue
    requires q.rptr < RING
  {
    q.(doorbell := q.rptr, acked := Recover(q.acked, q.rptr))
  }

  lemma RingHoldsWrite(ring: seq<Word>, log: seq<Word>, taken: nat, w: Word)
    requires taken <= |log| < taken + RING
    requires RingHolds(ring, log, taken) && !IsMarker(w)
    ensures RingHolds(ring[Slot(|log|) := w], log + [w], taken)
  {
    var ring' := ring[Slot(|log|) := w];
    forall i | taken <= i < |log| + 1
      ensures Unread(ring', log + [w], i)
    {
      if i < |log| {
        SlotsDistinct(i, |log|);
        assert Unread(ring, log, i);
      }
    }
    forall i | |log| + 1 <= i < taken + RING
      ensures Blank(ring', i)
    {
      SlotsDistinct(|log|, i);
      assert Blank(ring, i);
    }
  }

  lemma RingHoldsTake(ring: seq<Word>, log: seq<Word>, taken: nat)
    requires taken < |log| <= taken + RING
    requires RingHolds(ring, log, taken)
    ensures ring[Slot(taken)] == log[taken]
    ensures RingHolds(ring[Slot(taken) := 0], log, taken + 1)
  {
    assert Unread(ring, log, taken);
    var ring' := ring[Slot(taken) := 0];
    forall i | taken + 1 <= i < |log|
      ensures Unread(ring', log, i)
    {
      SlotsDistinct(taken, i);
      assert Unread(ring, log, i);
    }
    forall i | |log| <= i < taken + 1 + RING
      ensures Blank(ring', i)
    {
      if i < taken + RING {
        SlotsDistinct(taken, i);
        assert Blank(ring, i);
      }
    }
  }

  lemma WriteInv(q: Queue, w: Word)
    requires Inv(q) && HasRoom(q) && !IsMarker(w)
    ensures Inv(Write(q, w))
  {
    RingHoldsWrite(q.ring, q.log, q.taken, w);
  }

  /** The in-band marker test is exact: it answers "is anything unread?", and what it
      yields is the oldest unread event. */
  lemma TakeExact(q: Queue)
    requires Inv(q)
    ensures Take(q).1.None? <==> q.taken == |q.log|
    ensures Take(q).1.None? ==> Take(q).0 == q
    ensures Take(q).1.Some? ==> Take(q).1.value == q.log[q.taken] && Take(q).0.taken == q.taken + 1
    ensures Inv(Take(q).0)
  {
    if q.taken < |q.log| {
      RingHoldsTake(q.ring, q.log, q.taken);
      SlotSucc(q.taken);
    } else {
      assert Blank(q.ring, q.taken);
    }
  }

  /** The doorbell tells the NIC exactly how far the driver has read. */
  lemma AckExact(q: Queue)
    requires Inv(q)
    ensures Inv(Ack(q)) && Ack(q).acked == q.taken
  {
    RecoverExact(q.acked, q.taken);
  }

  // ------------------------------------------------------------------ runs

  datatype Step = NicWrites(w: Word) | DriverTakes | DriverAcks

  /** One step, with the events handed to the application so far. */
  ghost predicate Next(q: Queue, out: seq<Word>, step: Step, q': Queue, out': seq<Word>) {
    && |q.ring| == RING && q.rptr < RING
    && match step
       case NicWrites(w) =>
         HasRoom(q) && !IsMarker(w) && q' == Write(q, w) && out' == out
       case DriverTakes =>
         q' == Take(q).0 && out' == (if Take(q).1.Some? then out + [Take(q).1.value] else out)
       case DriverAcks =>
         q' == Ack(q) && out' == out
  }

  ghost predicate Run(qs: seq<Queue>, outs: seq<seq<Word>>, steps: seq<Step>) {
    && |qs| == |outs| == |steps| + 1
    && qs[0] == Fresh() && outs[0] == []
    && forall k :: 0 <= k < |steps| ==> Next(qs[k], outs[k], steps[k], qs[k + 1], outs[k + 1])
  }

  /** The ring refines an unbounded FIFO: at every point of every interleaving the events
      handed out are exactly the first `taken` events the NIC wrote, in order. */
  lemma {:induction false} RunIsFifo(qs: seq<Queue>, outs: seq<seq<Word>>, steps: seq<Step>, k: nat)
    requires Run(qs, outs, steps) && k < |qs|
    ensures Inv(qs[k]) && outs[k] == qs[k].log[..qs[k].taken]
  {
    if k == 0 {
      FreshInv();
    } else {
      RunIsFifo(qs, outs, steps, k - 1);
      var q := qs[k - 1];
      assert Next(q, outs[k - 1], steps[k - 1], qs[k], outs[k]);
      match steps[k - 1]
      case NicWrites(w) =>
        WriteInv(q, w);
      case DriverTakes =>
        TakeExact(q);
      case DriverAcks =>
        AckExact(q);
    }
  }

  /** A look at the ring in any run finds nothing exactly when nothing is unread: events
      are never missed, never read twice, and a stale word from an earlier lap is never
      taken for a new one. */
  lemma RunNeverMisses(qs: seq<Queue>, outs: seq<seq<Word>>, steps: seq<Step>, k: nat)
    requires Run(qs, outs, steps) && k < |qs|
    ensures |qs[k].ring| == RING && qs[k].rptr < RING
    ensures outs[k] <= qs[k].log
    ensures Take(qs[k]).1 == (if |outs[k]| == |qs[k].log| then None else Some(qs[k].log[|outs[k]|]))
  {
    RunIsFifo(qs, outs, steps, k);
    TakeExact(qs[k]);
  }

  // ------------------------------------------------------------------ batching

  /** A quiescent `sfc7120_poll` of at most `max` events. */
  function Drain(q: Queue, max: nat): (r: (Queue, seq<Word>))
    requires |q.ring| == RING && q.rptr < RING
    ensures |r.0.ring| == RING && r.0.rptr < RING
    decreases max
  {
    if max == 0 || Take(q).1.None? then (q, [])
    else
      var (q', rest) := Drain(Take(q).0, max - 1);
      (q', [Take(q).1.value] + rest)
  }

  function Poll(q: Queue, max: int): (r: (Queue, seq<Word>))
    requires |q.ring| == RING && q.rptr < RING
    ensures |r.0.ring| == RING && r.0.rptr < RING
  {
    if max <= 0 then (q, [])
    else
      var (q', evs) := Drain(q, max);
      (if evs == [] then q' else Ack(q'), evs)
  }

  /** A whole schedule of polls, the events concatenated. */
  function PollAll(q: Queue, schedule: seq<int>): (r: (Queue, seq<Word>))
    requires |q.ring| == RING && q.rptr < RING
    ensures |r.0.ring| == RING && r.0.rptr < RING
    decreases |schedule|
  {
    if schedule == [] then (q, [])
    else
      var (q', evs) := Poll(q, schedule[0]);
      var (q'', rest) := PollAll(q', schedule[1..]);
      (q'', evs + rest)
  }

  /** The budget a schedule of polls adds up to; a poll that is refused adds nothing. */
  function Budget(schedule: seq<int>): nat {
    if schedule == [] then 0
    else (if schedule[0] <= 0 then 0 else schedule[0]) + Budget(schedule[1..])
  }

  /** Draining in two goes is draining in one. */
  lemma {:induction false} DrainSplits(q: Queue, a: nat, b: nat)
    requires Inv(q)
    ensures Inv(Drain(q, a).0)
    ensures Drain(q, a + b) == (Drain(Drain(q, a).0, b).0, Drain(q, a).1 + Drain(Drain(q, a).0, b).1)
    decreases a
  {
    TakeExact(q);
    if a == 0 {
      assert [] + Drain(q, b).1 == Drain(q, b).1;
    } else if Take(q).1.None? {
      assert Drain(q, b) == (q, []);
    } else {
      var q1 := Take(q).0;
      DrainSplits(q1, a - 1, b);
      var w := [Take(q).1.value];
      assert (w + Drain(q1, a - 1).1) + Drain(Drain(q1, a - 1).0, b).1
          == w + (Drain(q1, a - 1).1 + Drain(Drain(q1, a - 1).0, b).1);
    }
  }

  /** A drain consumes a prefix of the unread events: as many as asked for, or all. */
  lemma {:induction false} DrainTakesPrefix(q: Queue, max: nat)
    requires Inv(q)
    ensures var n := if max <= |q.log| - q.taken then max else |q.log| - q.taken;
            && Drain(q, max).1 == q.log[q.taken..q.taken + n]
            && Drain(q, max).0.taken == q.taken + n
            && Drain(q, max).0.log == q.log
    decreases max
  {
    TakeExact(q);
    if max > 0 && Take(q).1.Some? {
      DrainTakesPrefix(Take(q).0, max - 1);
    }
  }

  /** Acknowledging early does not change what is drained afterwards. */
  lemma {:induction false} DrainIgnoresAck(q: Queue, max: nat)
    requires Inv(q)
    ensures Drain(Ack(q), max).1 == Drain(q, max).1
    ensures Drain(q, max).1 == [] ==> Drain(q, max).0 == q && Drain(Ack(q), max).0 == Ack(q)
    ensures Inv(Drain(q, max).0) && Inv(Drain(Ack(q), max).0)
    ensures Ack(Drain(Ack(q), max).0) == Ack(Drain(q, max).0)
    decreases max
  {
    TakeExact(q);
    AckExact(q);
    DrainSplits(q, max, 0);
    DrainSplits(Ack(q), max, 0);
    if max > 0 && Take(q).1.Some? {
      var q1, q2 := Take(q).0, Take(Ack(q)).0;
      AckExact(q1);
      TakeExact(Ack(q));
      DrainForgetsAck(q1, q2, max - 1);
    }
    AckExact(Drain(q, max).0);
    AckExact(Drain(Ack(q), max).0);
  }

  /** Two queues that differ only in what has been acknowledged drain alike. */
  lemma {:induction false} DrainForgetsAck(a: Queue, b: Queue, max: nat)
    requires Inv(a) && Inv(b)
    requires b == a.(doorbell := b.doorbell, acked := b.acked)
    ensures Drain(b, max).1 == Drain(a, max).1
    ensures Drain(b, max).0 == Drain(a, max).0.(doorbell := b.doorbell, acked := b.acked)
    decreases max
  {
    TakeExact(a);
    TakeExact(b);
    if max > 0 && Take(a).1.Some? {
      DrainForgetsAck(Take(a).0, Take(b).0, max - 1);
    }
  }

  /** Polling twice is polling once with the budgets added. */
  lemma PollSplits(q: Queue, a: nat, b: nat)
    requires Inv(q)
    ensures Inv(Poll(q, a).0)
    ensures Poll(q, a + b) == (Poll(Poll(q, a).0, b).0, Poll(q, a).1 + Poll(Poll(q, a).0, b).1)
  {
    DrainSplits(q, a, b);
    var d := Drain(q, a).0;
    AckExact(d);
    DrainIgnoresAck(d, b);
    DrainSplits(d, b, 0);
    var e := Drain(d, b).1;
    assert e + [] == e && [] + e == e && Drain(q, a).1 + [] == Drain(q, a).1;
    if Drain(q, a).1 == [] {
      DrainIgnoresAck(q, a);
    }
  }

  lemma {:induction false} PollAllIsPoll(q: Queue, schedule: seq<int>)
    requires Inv(q)
    ensures PollAll(q, schedule) == Poll(q, Budget(schedule))
    decreases |schedule|
  {
    if schedule != [] {
      var a := if schedule[0] <= 0 then 0 else schedule[0];
      assert Poll(q, schedule[0]) == Poll(q, a);
      PollSplits(q, a, Budget(schedule[1..]));
      PollAllIsPoll(Poll(q, a).0, schedule[1..]);
    }
  }

  // ------------------------------------------------------------------ the ioctl handler's loop

  /** EV_CODE 0 in bits 63:60. */
  predicate IsRx(w: Word) {
    w / 0x1000_0000_0000_0000 % 0x10 == 0
  }

  /** The quiescent spin of `SFC7120_RX`: consume everything up to and including the first RX
      event. On a marker the rest of the tries find the same marker. */
  function Spin(q: Queue, tries: nat): (r: (Queue, seq<Word>))
    requires |q.ring| == RING && q.rptr < RING
    ensures |r.0.ring| == RING && r.0.rptr < RING && |r.1| <= tries
    decreases tries
  {
    if tries == 0 || Take(q).1.None? then (q, [])
    else
      var w := Take(q).1.value;
      if IsRx(w) then (Take(q).0, [w])
      else
        var (q', rest) := Spin(Take(q).0, tries - 1);
        (q', [w] + rest)
  }

  /** One handler call: the spin, then one doorbell if anything was consumed. */
  function Handle(q: Queue, tries: nat): (r: (Queue, seq<Word>))
    requires |q.ring| == RING && q.rptr < RING
    ensures |r.0.ring| == RING && r.0.rptr < RING
  {
    var (q', evs) := Spin(q, tries);
    (if evs == [] then q' else Ack(q'), evs)
  }

  /** A sequence of handler calls, the events concatenated. */
  function HandleAll(q: Queue, calls: seq<nat>): (r: (Queue, seq<Word>))
    requires |q.ring| == RING && q.rptr < RING
    ensures |r.0.ring| == RING && r.0.rptr < RING
    decreases |calls|
  {
    if calls == [] then (q, [])
    else
      var (q', evs) := Handle(q, calls[0]);
      var (q'', rest) := HandleAll(q', calls[1..]);
      (q'', evs + rest)
  }

  lemma {:induction false} SpinIsDrain(q: Queue, tries: nat)
    requires Inv(q)
    ensures Spin(q, tries) == Drain(q, |Spin(q, tries).1|)
    decreases tries
  {
    if tries > 0 && Take(q).1.Some? {
      TakeExact(q);
      if IsRx(Take(q).1.value) {
        var w := [Take(q).1.value];
        assert w + [] == w;
        assert Drain(q, 1) == (Take(q).0, w);
      } else {
        SpinIsDrain(Take(q).0, tries - 1);
      }
    }
  }

  /** The spin ends at the first RX event, on an empty ring or out of tries: no event ahead of
      the last one is an RX event, and if the last is none either, then every try took an
      event or nothing is left to take. */
  lemma {:induction false} SpinStopsAtRx(q: Queue, tries: nat)
    requires |q.ring| == RING && q.rptr < RING
    ensures var (q', evs) := Spin(q, tries);
            && (forall j :: 0 <= j < |evs| - 1 ==> !IsRx(evs[j]))
            && (|evs| == tries || Take(q').1.None? || (evs != [] && IsRx(evs[|evs| - 1])))
    decreases tries
  {
    if tries > 0 && Take(q).1.Some? && !IsRx(Take(q).1.value) {
      SpinStopsAtRx(Take(q).0, tries - 1);
    }
  }

  lemma HandleIsPoll(q: Queue, tries: nat)
    requires Inv(q)
    ensures Handle(q, tries) == Poll(q, |Handle(q, tries).1|) && Inv(Handle(q, tries).0)
  {
    SpinIsDrain(q, tries);
    PollSplits(q, |Handle(q, tries).1|, 0);
  }

  lemma {:induction false} HandleAllIsPoll(q: Queue, calls: seq<nat>)
    requires Inv(q)
    ensures HandleAll(q, calls) == Poll(q, |HandleAll(q, calls).1|)
    decreases |calls|
  {
    if calls != [] {
      var (q', evs) := Handle(q, calls[0]);
      HandleIsPoll(q, calls[0]);
      HandleAllIsPoll(q', calls[1..]);
      PollSplits(q, |evs|, |HandleAll(q', calls[1..]).1|);
    }
  }

  lemma PollTooMuch(q: Queue, a: nat, b: nat)
    requires Inv(q) && Poll(q, a).0.taken == |Poll(q, a).0.log|
    ensures Poll(q, a + b) == Poll(q, a)
  {
    PollSplits(q, a, b);
    TakeExact(Poll(q, a).0);
    var evs := Poll(q, a).1;
    assert evs + [] == evs;
    assert Poll(Poll(q, a).0, b) == (Poll(q, a).0, []);
  }

  /** Batch independence: on a quiescent queue any schedule of polls returns the same events,
      and leaves the same ring, read pointer and doorbell, as any sequence of handler calls
      that consumes as much, or that consumes all while the schedule asks for no less. */
  lemma BatchIndependence(q: Queue, schedule: seq<int>, calls: seq<nat>)
    requires Inv(q)
    requires var (q', evs) := HandleAll(q, calls);
             Budget(schedule) == |evs| || (Budget(schedule) > |evs| && q'.taken == |q'.log|)
    ensures PollAll(q, schedule) == HandleAll(q, calls)
  {
    PollAllIsPoll(q, schedule);
    HandleAllIsPoll(q, calls);
    var (q', evs) := HandleAll(q, calls);
    if Budget(schedule) > |evs| {
      PollTooMuch(q, |evs|, Budget(schedule) - |evs|);
    }
  }
}
