/** sfc7120_interrupt_handler: the drain of control event queue 0. */
module Interrupt {
  import opened Rings
  import opened Options
  import opened EventQueue

  datatype Link = Link(up: bool, fullDuplex: bool, speedMbps: nat, fcntl: nat)

  const EV_CODE_MCDI: nat := 12
  const MCDI_EV_LINKCHANGE: nat := 4

  function SpeedMbps(code: nat): nat {
    match code
    case 1 => 100
    case 2 => 1000
    case 3 => 10000
    case 4 => 40000
    case 5 => 25000
    case 6 => 50000
    case 7 => 100000
    case _ => 0
  }

  /** EV_CODE in bits 63:60 and, below it, the MCDI subcode in bits 51:44. */
  predicate IsLinkChange(ev: Word) {
    ev / 0x1000_0000_0000_0000 % 0x10 == EV_CODE_MCDI && ev / 0x1000_0000_0000 % 0x100 == MCDI_EV_LINKCHANGE
  }

  /** The payload in the low dword: flags 31:24, flow control 23:20, speed 19:16. */
  function LinkOf(ev: Word): Link {
    Link(ev / 0x100_0000 % 2 == 1, ev / 0x200_0000 % 2 == 1,
         SpeedMbps(ev / 0x1_0000 % 0x10), ev / 0x10_0000 % 0x10)
  }

  /** The link state after the handler has seen events `lo..hi`. */
  function LinkAfter(before: Link, log: seq<Word>, lo: nat, hi: nat): Link
    requires lo <= hi <= |log|
  {
    if lo == hi then before
    else if IsLinkChange(log[hi - 1]) then LinkOf(log[hi - 1])
    else LinkAfter(before, log, lo, hi - 1)
  }

  ghost predicate ChangeAt(log: seq<Word>, i: nat)
    requires i < |log|
  {
    IsLinkChange(log[i])
  }

  ghost predicate NoChange(log: seq<Word>, lo: nat, hi: nat)
    requires hi <= |log|
  {
    forall i :: lo <= i < hi ==> !ChangeAt(log, i)
  }

  /** Without a LINKCHANGE among them it is unchanged. */
  lemma {:induction false} LinkAfterNone(before: Link, log: seq<Word>, lo: nat, hi: nat)
    requires lo <= hi <= |log| && NoChange(log, lo, hi)
    ensures LinkAfter(before, log, lo, hi) == before
    decreases hi
  {
    if lo < hi {
      assert !ChangeAt(log, hi - 1);
      LinkAfterNone(before, log, lo, hi - 1);
    }
  }

  /** Otherwise it is what the last of them says. */
  lemma {:induction false} LinkAfterLast(before: Link, log: seq<Word>, lo: nat, hi: nat, k: nat)
    requires lo <= k < hi <= |log| && ChangeAt(log, k) && NoChange(log, k + 1, hi)
    ensures LinkAfter(before, log, lo, hi) == LinkOf(log[k])
    decreases hi
  {
    if k < hi - 1 {
      assert !ChangeAt(log, hi - 1);
      LinkAfterLast(before, log, lo, hi - 1, k);
    }
  }

  lemma {:induction false} LinkAfterSplits(before: Link, log: seq<Word>, lo: nat, mid: nat, hi: nat)
    requires lo <= mid <= hi <= |log|
    ensures LinkAfter(LinkAfter(before, log, lo, mid), log, mid, hi) == LinkAfter(before, log, lo, hi)
    decreases hi
  {
    if mid < hi {
      LinkAfterSplits(before, log, lo, mid, hi - 1);
    }
  }

  lemma {:induction false} LinkAfterGrows(before: Link, log: seq<Word>, log': seq<Word>, lo: nat, hi: nat)
    requires lo <= hi <= |log| && log <= log'
    ensures LinkAfter(before, log', lo, hi) == LinkAfter(before, log, lo, hi)
    decreases hi
  {
    if lo < hi {
      assert log'[hi - 1] == log[hi - 1];
      LinkAfterGrows(before, log, log', lo, hi - 1);
    }
  }

  // ------------------------------------------------------------------ an event field by field

  /** The fields of an event word, from bit 63 down: 4, 8, 8, 12, 8, 4, 4 and 16 bits. */
  datatype Fields = Fields(code: nat, top: nat, sub: nat, mid: nat, flags: nat, fcntl: nat, speed: nat, low: nat)

  predicate Bounded(f: Fields) {
    f.code < 0x10 && f.top < 0x100 && f.sub < 0x100 && f.mid < 0x1000
    && f.flags < 0x100 && f.fcntl < 0x10 && f.speed < 0x10 && f.low < 0x1_0000
  }

  function Composed(f: Fields): Word
    requires Bounded(f)
  {
    f.code * 0x1000_0000_0000_0000 + f.top * 0x10_0000_0000_0000 + f.sub * 0x1000_0000_0000 + f.mid * 0x1_0000_0000
    + f.flags * 0x100_0000 + f.fcntl * 0x10_0000 + f.speed * 0x1_0000 + f.low
  }

  /** The word announces a change of link with these fields. */
  predicate Announces(ev: Word, f: Fields) {
    Bounded(f) && ev == Composed(f) && f.code == 12 && f.sub == 4
  }

  /** The link state those fields describe. */
  predicate Shows(link: Link, f: Fields) {
    && link.up == (f.flags % 2 == 1) && link.fullDuplex == (f.flags / 2 % 2 == 1) && link.fcntl == f.fcntl
    && link.speedMbps == (if 1 <= f.speed <= 7 then [100, 1000, 10000, 40000, 25000, 50000, 100000][f.speed - 1] else 0)
  }

  lemma Quotient(d: nat, q: nat, r: nat)
    requires r < d
    ensures (r + d * q) / d == q && (r + d * q) % d == r
  {
    var a := r + d * q;
    var n := a / d;
    assert n < q ==> d * (n + 1) <= d * q;
    assert n > q ==> d * (q + 1) <= d * n;
  }

  /** A field of width `w` above `d`. */
  lemma FieldAt(rest: nat, d: nat, x: nat, w: nat, above: nat)
    requires rest < d && x < w
    ensures (rest + d * (x + w * above)) / d % w == x
  {
    Quotient(d, x + w * above, rest);
    Quotient(w, above, x);
  }

  lemma LowFields(f: Fields)
    requires Bounded(f)
    ensures Composed(f) / 0x1_0000 % 0x10 == f.speed && Composed(f) / 0x10_0000 % 0x10 == f.fcntl
  {
    var high := f.mid + 0x1000 * (f.sub + 0x100 * (f.top + 0x100 * f.code));
    FieldAt(f.low, 0x1_0000, f.speed, 0x10, f.fcntl + 0x10 * (f.flags + 0x100 * high));
    FieldAt(f.low + 0x1_0000 * f.speed, 0x10_0000, f.fcntl, 0x10, f.flags + 0x100 * high);
  }

  lemma HighFields(f: Fields)
    requires Bounded(f)
    ensures Composed(f) / 0x1000_0000_0000 % 0x100 == f.sub
    ensures Composed(f) / 0x1000_0000_0000_0000 % 0x10 == f.code
  {
    var low := f.low + 0x1_0000 * f.speed + 0x10_0000 * f.fcntl + 0x100_0000 * f.flags + 0x1_0000_0000 * f.mid;
    FieldAt(low, 0x1000_0000_0000, f.sub, 0x100, f.top + 0x100 * f.code);
    FieldAt(low + 0x1000_0000_0000 * f.sub + 0x10_0000_0000_0000 * f.top, 0x1000_0000_0000_0000, f.code, 0x10, 0);
  }

  /** The two flag bits. */
  lemma FlagBits(f: Fields)
    requires Bounded(f)
    ensures Composed(f) / 0x100_0000 % 2 == f.flags % 2 && Composed(f) / 0x200_0000 % 2 == f.flags / 2 % 2
  {
    var high := f.mid + 0x1000 * (f.sub + 0x100 * (f.top + 0x100 * f.code));
    var low := f.low + 0x1_0000 * f.speed + 0x10_0000 * f.fcntl;
    var half := f.flags / 2;
    var b0, b1, rest := f.flags % 2, half % 2, half / 2;
    assert f.flags == b0 + 2 * half && half == b1 + 2 * rest;
    FieldAt(low, 0x100_0000, b0, 2, half + 0x80 * high);
    FieldAt(low + 0x100_0000 * b0, 0x200_0000, b1, 2, rest + 0x40 * high);
  }

  /** What the handler makes of an event, whatever its other bits: it is a change of link
      exactly with code 12 and subcode 4, and then the link is what its fields show. */
  lemma LinkChangeExact(f: Fields)
    requires Bounded(f)
    ensures IsLinkChange(Composed(f)) <==> Announces(Composed(f), f)
    ensures Shows(LinkOf(Composed(f)), f)
  {
    LowFields(f);
    HighFields(f);
    FlagBits(f);
  }

  /** Every word is composed of its fields. */
  lemma EveryWord(ev: Word) returns (f: Fields)
    ensures Bounded(f) && ev == Composed(f)
  {
    var w1 := ev / 0x1_0000;
    var w2 := w1 / 0x10;
    var w3 := w2 / 0x10;
    var w4 := w3 / 0x100;
    var w5 := w4 / 0x1000;
    var w6 := w5 / 0x100;
    f := Fields(w6 / 0x100, w6 % 0x100, w5 % 0x100, w4 % 0x1000, w3 % 0x100, w2 % 0x10, w1 % 0x10, ev % 0x1_0000);
  }

  /** Fields are read off a word in one way only. */
  lemma AnnouncedIff(ev: Word)
    ensures IsLinkChange(ev) <==> exists f: Fields :: Announces(ev, f)
    ensures forall f: Fields :: Announces(ev, f) ==> Shows(LinkOf(ev), f)
  {
    var f := EveryWord(ev);
    LinkChangeExact(f);
    forall g: Fields | Announces(ev, g) ensures IsLinkChange(ev) && Shows(LinkOf(ev), g) { LinkChangeExact(g); }
  }

  ghost predicate SilentAt(log: seq<Word>, i: nat)
    requires i < |log|
  {
    forall f: Fields :: !Announces(log[i], f)
  }

  ghost predicate Silent(log: seq<Word>, lo: nat, hi: nat)
    requires hi <= |log|
  {
    forall i :: lo <= i < hi ==> SilentAt(log, i)
  }

  ghost predicate SpokenAt(log: seq<Word>, k: nat, hi: nat, f: Fields)
    requires k < hi <= |log|
  {
    Announces(log[k], f) && Silent(log, k + 1, hi)
  }

  /** The link after events `lo..hi`: what the last of them to announce a change shows, or
      unchanged if none does. */
  ghost predicate Tells(before: Link, after: Link, log: seq<Word>, lo: nat, hi: nat)
    requires lo <= hi <= |log|
  {
    if Silent(log, lo, hi) then after == before
    else exists k: nat, f: Fields :: lo <= k < hi && SpokenAt(log, k, hi, f) && Shows(after, f)
  }

  lemma {:induction false} LinkAfterTells(before: Link, log: seq<Word>, lo: nat, hi: nat)
    requires lo <= hi <= |log|
    ensures Tells(before, LinkAfter(before, log, lo, hi), log, lo, hi)
    decreases hi
  {
    if lo == hi { return; }
    var last: nat := hi - 1;
    AnnouncedIff(log[last]);
    if IsLinkChange(log[last]) {
      var f: Fields :| Announces(log[last], f);
      assert !SilentAt(log, last);
      assert SpokenAt(log, last, hi, f);
    } else {
      LinkAfterTells(before, log, lo, last);
      assert SilentAt(log, last);
      if !Silent(log, lo, last) {
        var k: nat, f: Fields :| lo <= k < last && SpokenAt(log, k, last, f)
                                 && Shows(LinkAfter(before, log, lo, last), f);
        assert SpokenAt(log, k, hi, f);
      }
    }
  }

  // ------------------------------------------------------------------ the second INIT_EVQ

  /** A run of the handler on a queue: the events it has seen, and whether any of them is
      still to be acknowledged. It rings the doorbell only if it has consumed something. */
  datatype Watch = Watch(q: Queue, out: seq<Word>, pending: bool)

  ghost predicate Follows(a: Watch, step: Step, b: Watch) {
    && |a.q.ring| == RING && a.q.rptr < RING
    && match step
       case NicWrites(w) => HasRoom(a.q) && !IsMarker(w) && b == a.(q := Write(a.q, w))
       case DriverTakes =>
         b == if Take(a.q).1.None? then a else Watch(Take(a.q).0, a.out + [Take(a.q).1.value], true)
       case DriverAcks => a.pending && b == a.(q := Ack(a.q), pending := false)
  }

  ghost predicate RunFrom(q: Queue, ws: seq<Watch>, steps: seq<Step>) {
    && |ws| == |steps| + 1 && ws[0] == Watch(q, [], false)
    && forall k: nat :: k < |steps| ==> Follows(ws[k], steps[k], ws[k + 1])
  }

  /** The handler has seen the events from `base` on, in order and without a gap, and finds
      nothing exactly when there is nothing left to see. */
  ghost predicate FifoAt(w: Watch, base: nat) {
    && |w.q.ring| == RING && w.q.rptr < RING
    && base + |w.out| <= |w.q.log| && w.out == w.q.log[base..base + |w.out|]
    && (Take(w.q).1.None? <==> base + |w.out| == |w.q.log|)
  }

  ghost predicate StaysFifo(q: Queue) {
    forall ws: seq<Watch>, steps: seq<Step>, k: nat :: RunFrom(q, ws, steps) && k < |ws| ==> FifoAt(ws[k], q.taken)
  }

  /** Whatever is written, the handler never sees an event. */
  ghost predicate Deaf(q: Queue) {
    forall ws: seq<Watch>, steps: seq<Step>, k: nat :: RunFrom(q, ws, steps) && k < |ws| ==> ws[k].out == []
  }

  /** A queue between two invocations of the handler. */
  ghost predicate Settled(q: Queue) {
    Inv(q) && q.acked == q.taken
  }

  lemma {:induction false} InPhase(q: Queue, ws: seq<Watch>, steps: seq<Step>, k: nat)
    requires Inv(q) && RunFrom(q, ws, steps) && k < |ws|
    ensures Inv(ws[k].q) && ws[k].q.taken == q.taken + |ws[k].out|
    ensures ws[k].out == ws[k].q.log[q.taken..ws[k].q.taken]
  {
    if k > 0 {
      InPhase(q, ws, steps, k - 1);
      var a := ws[k - 1];
      assert Follows(a, steps[k - 1], ws[k]);
      match steps[k - 1]
      case NicWrites(w) => WriteInv(a.q, w);
      case DriverTakes => TakeExact(a.q);
      case DriverAcks => AckExact(a.q);
    }
  }

  lemma Extend(q: Queue, ws: seq<Watch>, steps: seq<Step>, step: Step, w: Watch)
    requires RunFrom(q, ws, steps) && Follows(ws[|steps|], step, w)
    ensures RunFrom(q, ws + [w], steps + [step])
  {
    var ws', steps' := ws + [w], steps + [step];
    forall k: nat | k < |steps'| ensures Follows(ws'[k], steps'[k], ws'[k + 1]) {
      if k < |steps| { assert Follows(ws[k], steps[k], ws[k + 1]); }
    }
  }

  /** The queue as it would be with its read pointer in place. */
  function Restored(q: Queue): Queue { q.(rptr := Slot(q.taken)) }

  /** The first position at or after `taken` that lies in slot 0. */
  function NextZero(taken: nat): (p: nat)
    ensures taken <= p < taken + RING && Slot(p) == 0
  {
    Recover(taken, 0)
  }

  /** Nothing but writes since a misplaced pointer was set to slot 0. */
  ghost predicate Misplaced(w: Watch, taken: nat) {
    && Inv(Restored(w.q)) && w.q.rptr == 0 && w.q.taken == w.q.acked == taken && taken % RING != 0
    && w.out == [] && !w.pending
  }

  lemma MisplacedTake(w: Watch, taken: nat)
    requires Misplaced(w, taken)
    ensures var p := NextZero(taken);
            Take(w.q).1 == if p < |w.q.log| then Some(w.q.log[p]) else None
  {
    var p := NextZero(taken);
    if p < |w.q.log| {
      assert Unread(w.q.ring, w.q.log, p);
    } else {
      assert Blank(w.q.ring, p);
    }
  }

  lemma MisplacedWrite(w: Watch, taken: nat, v: Word)
    requires Misplaced(w, taken) && HasRoom(w.q) && !IsMarker(v)
    ensures Misplaced(w.(q := Write(w.q, v)), taken)
  {
    WriteInv(Restored(w.q), v);
    assert Restored(Write(w.q, v)) == Write(Restored(w.q), v);
  }

  /** The rest of the log lies in the ring from the read pointer on, then a marker. */
  ghost predicate Tail(q: Queue, i: nat) {
    && |q.ring| == RING && i <= |q.log| < i + RING && q.rptr == Slot(i)
    && (forall j :: i <= j < |q.log| ==> Unread(q.ring, q.log, j))
    && (forall j :: i <= j < |q.log| ==> !IsMarker(q.log[j]))
    && Blank(q.ring, |q.log|)
  }

  lemma TailTake(q: Queue, i: nat)
    requires Tail(q, i)
    ensures i == |q.log| ==> Take(q).1 == None
    ensures i < |q.log| ==> Take(q).1.Some? && Tail(Take(q).0, i + 1) && Take(q).0.log == q.log
  {
    if i < |q.log| {
      assert Unread(q.ring, q.log, i);
      SlotSucc(i);
      var q' := Take(q).0;
      forall j | i + 1 <= j < |q.log| ensures Unread(q'.ring, q.log, j) {
        SlotsDistinct(i, j);
        assert Unread(q.ring, q.log, j);
      }
    }
  }

  /** Taking until nothing is found. */
  lemma {:induction false} TailRun(q: Queue, ws: seq<Watch>, steps: seq<Step>, i: nat)
    returns (ws': seq<Watch>, steps': seq<Step>)
    requires RunFrom(q, ws, steps) && Tail(ws[|steps|].q, i)
    ensures RunFrom(q, ws', steps') && ws'[|steps'|].q.log == ws[|steps|].q.log
    ensures |ws'[|steps'|].out| == |ws[|steps|].out| + |ws[|steps|].q.log| - i
    ensures |ws'[|steps'|].q.ring| == RING && ws'[|steps'|].q.rptr < RING && Take(ws'[|steps'|].q).1 == None
    decreases |ws[|steps|].q.log| - i
  {
    var w := ws[|steps|];
    TailTake(w.q, i);
    if i == |w.q.log| {
      ws', steps' := ws, steps;
    } else {
      var next := Watch(Take(w.q).0, w.out + [Take(w.q).1.value], true);
      Extend(q, ws, steps, DriverTakes, next);
      ws', steps' := TailRun(q, ws + [next], steps + [DriverTakes], i + 1);
    }
  }

  /** With the pointer out of place, some run comes to a point where the handler finds
      nothing although events are unread. */
  lemma Misses(q: Queue) returns (ws: seq<Watch>, steps: seq<Step>)
    requires Misplaced(Watch(q, [], false), q.taken)
    ensures RunFrom(q, ws, steps)
    ensures var w := ws[|steps|];
            |w.q.ring| == RING && w.q.rptr < RING && Take(w.q).1 == None && q.taken + |w.out| < |w.q.log|
  {
    ws, steps := [Watch(q, [], false)], [];
    if |q.log| == q.taken {
      MisplacedWrite(ws[0], q.taken, 1);
      var next := ws[0].(q := Write(q, 1));
      Extend(q, ws, steps, NicWrites(1), next);
      ws, steps := ws + [next], steps + [NicWrites(1)];
    }
    var p := NextZero(q.taken);
    MisplacedTake(ws[|steps|], q.taken);
    if p < |ws[|steps|].q.log| {
      assert Blank(ws[|steps|].q.ring, |ws[|steps|].q.log|);
      ws, steps := TailRun(q, ws, steps, p);
    }
  }

  /** `init_evq` writes 0 to EVQ 0's read pointer whichever instance it sets up. Done for
      instance 1 between two invocations of the handler, the handler goes on seeing every
      event in order exactly when EVQ 0 had consumed whole laps, as when it had consumed
      nothing. */
  lemma SecondInitFifoIff(q: Queue)
    requires Settled(q)
    ensures StaysFifo(q.(rptr := 0)) <==> q.taken % RING == 0
  {
    var r := q.(rptr := 0);
    if q.taken % RING == 0 {
      forall ws: seq<Watch>, steps: seq<Step>, k: nat | RunFrom(r, ws, steps) && k < |ws|
        ensures FifoAt(ws[k], r.taken)
      {
        InPhase(r, ws, steps, k);
        TakeExact(ws[k].q);
      }
    } else {
      assert Restored(r) == q;
      var ws, steps := Misses(r);
      assert !FifoAt(ws[|steps|], r.taken);
    }
  }

  lemma {:induction false} DeafRun(q: Queue, ws: seq<Watch>, steps: seq<Step>, k: nat)
    requires Misplaced(Watch(q, [], false), q.taken) && q.taken % RING == 1
    requires RunFrom(q, ws, steps) && k < |ws|
    ensures Misplaced(ws[k], q.taken)
  {
    if k > 0 {
      DeafRun(q, ws, steps, k - 1);
      var a := ws[k - 1];
      assert Follows(a, steps[k - 1], ws[k]);
      if steps[k - 1].NicWrites? {
        MisplacedWrite(a, q.taken, steps[k - 1].w);
      } else {
        MisplacedTake(a, q.taken);
        assert NextZero(q.taken) == q.taken + RING - 1;
      }
    }
  }

  /** Writes until the slot at the pointer is reached, then the event in it. */
  lemma {:induction false} OutOfOrderRun(q: Queue, ws: seq<Watch>, steps: seq<Step>)
    returns (ws': seq<Watch>, steps': seq<Step>)
    requires RunFrom(q, ws, steps) && Misplaced(ws[|steps|], q.taken) && q.taken % RING > 1
    ensures RunFrom(q, ws', steps')
    ensures var p, w := NextZero(q.taken), ws'[|steps'|];
            q.taken < p < |w.q.log| && w.out == [w.q.log[p]]
    decreases NextZero(q.taken) + 1 - |ws[|steps|].q.log|
  {
    var w := ws[|steps|];
    var p := NextZero(q.taken);
    MisplacedTake(w, q.taken);
    if p < |w.q.log| {
      var next := Watch(Take(w.q).0, w.out + [Take(w.q).1.value], true);
      Extend(q, ws, steps, DriverTakes, next);
      ws', steps' := ws + [next], steps + [DriverTakes];
    } else {
      MisplacedWrite(w, q.taken, 1);
      var next := w.(q := Write(w.q, 1));
      Extend(q, ws, steps, NicWrites(1), next);
      ws', steps' := OutOfOrderRun(q, ws + [next], steps + [NicWrites(1)]);
    }
  }

  /** A misplaced handler is deaf for good exactly when one event of the lap had been
      consumed: the NIC then runs out of room just before it reaches the slot looked at.
      Otherwise some run hands out an event ahead of an older one that is unread. */
  lemma SecondInitDeafIff(q: Queue)
    requires Settled(q) && q.taken % RING != 0
    ensures Deaf(q.(rptr := 0)) <==> q.taken % RING == 1
  {
    var r := q.(rptr := 0);
    assert Restored(r) == q;
    var start := [Watch(r, [], false)];
    if q.taken % RING == 1 {
      forall ws: seq<Watch>, steps: seq<Step>, k: nat | RunFrom(r, ws, steps) && k < |ws| ensures ws[k].out == [] {
        DeafRun(r, ws, steps, k);
      }
    } else {
      assert RunFrom(r, start, []);
      var ws, steps := OutOfOrderRun(r, start, []);
      assert ws[|steps|].out != [];
    }
  }

  class ControlQueue {
    const ring: array<Word>
    var evqReadPtr: nat
    var dying: bool
    var evqInitialized: bool
    var link: Link
    // the device's side
    var log: seq<Word>
    var taken: nat
    var acked: nat
    var doorbell: nat
    var agenda: seq<seq<Word>>

    constructor (ring: array<Word>)
      requires ring.Length == RING && ring[..] == seq(RING, i => ALL_ONES)
      ensures this.ring == ring && Valid() && log == [] && !dying && !evqInitialized
    {
      this.ring, evqReadPtr, dying, evqInitialized := ring, 0, false, false;
      link := Link(false, false, 0, 0);
      log, taken, acked, doorbell, agenda := [], 0, 0, 0, [];
    }

    ghost function Q(): Queue
      reads this, ring
    {
      Queue(ring[..], evqReadPtr, doorbell, log, taken, acked)
    }

    ghost predicate Valid()
      reads this, ring
    {
      ring.Length == RING && Inv(Q())
    }

    /** The device writes what it has room for. */
    method DeviceRuns()
      requires Valid()
      modifies this`log, this`agenda, ring
      ensures Valid() && old(log) <= log
    {
      if agenda != [] {
        var burst := agenda[0];
        agenda := agenda[1..];
        for i := 0 to |burst|
          invariant Valid() && old(log) <= log
        {
          if |log| < acked + RING - 1 && !IsMarker(burst[i]) {
            WriteInv(Q(), burst[i]);
            ghost var q := Q();
            ring[Slot(|log|)] := burst[i];
            log := log + [burst[i]];
            assert Q() == Write(q, burst[i]);
          }
        }
      }
    }

    /** One turn of the loop: stop on a marker, otherwise note a LINKCHANGE and consume. */
    method HandleOne() returns (more: bool)
      requires Valid()
      modifies this`evqReadPtr, this`link, this`taken, ring
      ensures Valid()
      ensures more == (old(taken) < |log|)
      ensures taken == old(taken) + (if more then 1 else 0)
      ensures link == LinkAfter(old(link), log, old(taken), taken)
    {
      ghost var q := Q();
      TakeExact(q);
      var ev := ring[evqReadPtr];
      if IsMarker(ev) {
        return false;
      }
      if IsLinkChange(ev) {
        link := LinkOf(ev);
      }
      ring[evqReadPtr] := 0;
      evqReadPtr := (evqReadPtr + 1) % RING;
      taken := taken + 1;
      assert Q() == Take(q).0;
      return true;
    }

    /** The loop. The cap of 512 events is never what stops it: the device cannot have more
        than 511 unacknowledged, and nothing is acknowledged before the loop ends. */
    method Drain() returns (processed: nat)
      requires Valid()
      modifies this`evqReadPtr, this`link, this`log, this`taken, this`agenda, ring
      ensures Valid() && old(log) <= log && acked == old(acked)
      ensures taken == old(taken) + processed == |log| && processed < RING
      ensures link == LinkAfter(old(link), log, old(taken), taken)
    {
      processed := 0;
      ghost var before, t0 := link, taken;
      while true
        invariant Valid() && old(log) <= log
        invariant taken == t0 + processed && processed < RING
        invariant link == LinkAfter(before, log, t0, taken)
        decreases RING - processed
      {
        ghost var log0, t1 := log, taken;
        DeviceRuns();
        LinkAfterGrows(before, log0, log, t0, taken);
        var more := HandleOne();
        LinkAfterSplits(before, log, t0, t1, taken);
        if !more {
          break;
        }
        processed := processed + 1;
        if processed >= RING {
          break;
        }
      }
    }

    /** The handler. Whatever arrives meanwhile, everything written is consumed and
        acknowledged, and the link state is what the last LINKCHANGE consumed says. */
    method Interrupt()
      requires Valid()
      modifies this`evqReadPtr, this`link, this`log, this`taken, this`acked, this`doorbell, this`agenda, ring
      ensures Valid() && (old(Settled(Q())) ==> Settled(Q()))
      ensures dying || !evqInitialized ==> Q() == old(Q()) && link == old(link)
      ensures !dying && evqInitialized ==>
                && old(log) <= log && old(taken) <= taken == |log|
                && Tells(old(link), link, log, old(taken), taken)
                && link == LinkAfter(old(link), log, old(taken), taken)
                && acked == (if taken > old(taken) then taken else old(acked))
    {
      if dying || !evqInitialized {
        return;
      }
      ghost var before, t := link, taken;
      var processed := Drain();
      LinkAfterTells(before, log, t, taken);
      if processed > 0 {
        RingReadPtr();
      }
    }

    /** The RPTR doorbell. */
    method RingReadPtr()
      requires Valid()
      modifies this`acked, this`doorbell
      ensures Valid() && acked == taken
    {
      ghost var q := Q();
      AckExact(q);
      doorbell := evqReadPtr % 0x8000;
      acked := Recover(acked, doorbell);
      assert Q() == Ack(q);
    }
  }
}
