/** userlib/bench.c, run_throughput: two ports keep a window of W frames circulating for each
    of S frame sizes in turn. The windows of earlier sizes are never drained, and neither
    `sfc7120_tx_post` nor the RX rings check for space; what keeps them safe is that frames
    are only ever passed on, one for one. The host is modelled by its single calls in any
    order its loops allow, the devices and the wire by single frames. */
module Throughput {
  import opened Rings

  const TPUT_WINDOW: nat := 128
  const N_SIZES: nat := 3

  datatype Side = Side(
    posted: nat, sent: nat,             // TX frames handed over, put on the wire
    filled: nat, taken: nat, done: nat) // RX slots filled, RX events polled, slots recycled

  datatype World = World(
    a: Side, b: Side,     // PF0 and PF1
    toB: nat, toA: nat,   // frames on the wire
    handA: nat, handB: nat, // frames received and about to be passed on
    sizes: nat,           // sizes started
    primed: nat)          // frames primed for the current size

  datatype Step =
    | Prime | NextSize
    | Poll(onA: bool) | Recv(onA: bool) | Post(onA: bool)
    | Send(fromA: bool) | Deliver(onA: bool)

  function FreeDescriptors(s: Side): int {
    s.done + RING - 1 - s.filled
  }

  function Unsent(s: Side): int {
    s.posted - s.sent
  }

  function Sender(s: Side): Side {
    s.(posted := s.posted + 1)
  }

  /** What each step needs. The host's are its loops': prime W frames, then poll, receive
      what was polled, pass on what was received, and start the next size only with
      nothing in hand. */
  predicate Enabled(window: nat, total: nat, w: World, step: Step) {
    match step
    case Prime => 0 < w.sizes && w.primed < window
    case NextSize =>
      w.sizes < total && (w.sizes == 0 || w.primed == window)
      && w.handA == w.handB == 0 && w.a.taken == w.a.done && w.b.taken == w.b.done
    case Poll(onA) =>
      w.sizes > 0 && w.primed == window && (if onA then w.a.taken < w.a.filled else w.b.taken < w.b.filled)
    case Recv(onA) => w.handA == w.handB == 0 && (if onA then w.a.done < w.a.taken else w.b.done < w.b.taken)
    case Post(onA) => if onA then w.handA > 0 else w.handB > 0
    case Send(fromA) => if fromA then w.a.sent < w.a.posted else w.b.sent < w.b.posted
    case Deliver(onA) =>
      if onA then w.toA > 0 && FreeDescriptors(w.a) > 0 else w.toB > 0 && FreeDescriptors(w.b) > 0
  }

  function Next(w: World, step: Step): World {
    match step
    case Prime => w.(a := Sender(w.a), primed := w.primed + 1)
    case NextSize => w.(sizes := w.sizes + 1, primed := 0)
    case Poll(onA) =>
      if onA then w.(a := w.a.(taken := w.a.taken + 1)) else w.(b := w.b.(taken := w.b.taken + 1))
    case Recv(onA) =>
      if onA then w.(a := w.a.(done := w.a.done + 1), handA := w.handA + 1)
      else w.(b := w.b.(done := w.b.done + 1), handB := w.handB + 1)
    case Post(onA) =>
      if onA && w.handA > 0 then w.(a := Sender(w.a), handA := w.handA - 1)
      else if !onA && w.handB > 0 then w.(b := Sender(w.b), handB := w.handB - 1)
      else w
    case Send(fromA) =>
      if fromA then w.(a := w.a.(sent := w.a.sent + 1), toB := w.toB + 1)
      else w.(b := w.b.(sent := w.b.sent + 1), toA := w.toA + 1)
    case Deliver(onA) =>
      if onA && w.toA > 0 then w.(a := w.a.(filled := w.a.filled + 1), toA := w.toA - 1)
      else if !onA && w.toB > 0 then w.(b := w.b.(filled := w.b.filled + 1), toB := w.toB - 1)
      else w
  }

  /** Frames in flight: in a TX ring, on the wire, in an RX ring or in the host's hand. */
  function InFlight(w: World): int {
    Unsent(w.a) + w.toB + (w.b.filled - w.b.done) + w.handB
    + Unsent(w.b) + w.toA + (w.a.filled - w.a.done) + w.handA
  }

  function Primed(window: nat, w: World): int {
    if w.sizes == 0 then 0 else window * (w.sizes - 1) + w.primed
  }

  ghost predicate Inv(window: nat, total: nat, w: World) {
    && w.a.sent <= w.a.posted && w.b.sent <= w.b.posted
    && w.a.done <= w.a.taken <= w.a.filled && w.b.done <= w.b.taken <= w.b.filled
    && w.sizes <= total && w.primed <= window && (w.sizes == 0 ==> w.primed == 0)
    && InFlight(w) == Primed(window, w)
  }

  const START: World := World(Side(0, 0, 0, 0, 0), Side(0, 0, 0, 0, 0), 0, 0, 0, 0, 0, 0)

  ghost predicate Run(window: nat, total: nat, ws: seq<World>, steps: seq<Step>) {
    && |ws| == |steps| + 1
    && ws[0] == START
    && forall k :: 0 <= k < |steps| ==> Enabled(window, total, ws[k], steps[k]) && ws[k + 1] == Next(ws[k], steps[k])
  }

  /** Priming, and starting the next size. */
  lemma PrimingInv(window: nat, total: nat, w: World, step: Step)
    requires Inv(window, total, w) && Enabled(window, total, w, step) && (step.Prime? || step.NextSize?)
    ensures Inv(window, total, Next(w, step))
  {
    if step.NextSize? && w.sizes > 0 {
      Distribute(window, w.sizes);
    }
  }

  /** Everything else only moves frames. */
  lemma MovingInv(window: nat, total: nat, w: World, step: Step)
    requires Inv(window, total, w) && Enabled(window, total, w, step) && !step.Prime? && !step.NextSize?
    ensures Inv(window, total, Next(w, step))
  {
    var w' := Next(w, step);
    assert InFlight(w') == InFlight(w) && Primed(window, w') == Primed(window, w);
  }

  lemma NextInv(window: nat, total: nat, w: World, step: Step)
    requires Inv(window, total, w) && Enabled(window, total, w, step)
    ensures Inv(window, total, Next(w, step))
  {
    if step.Prime? || step.NextSize? {
      PrimingInv(window, total, w, step);
    } else {
      MovingInv(window, total, w, step);
    }
  }

  lemma {:induction false} RunInv(window: nat, total: nat, ws: seq<World>, steps: seq<Step>, k: nat)
    requires Run(window, total, ws, steps) && k < |ws|
    ensures Inv(window, total, ws[k])
  {
    if k > 0 {
      RunInv(window, total, ws, steps, k - 1);
      var before, step, after := ws[k - 1], steps[k - 1], ws[k];
      assert Enabled(window, total, before, step) && after == Next(before, step);
      NextInv(window, total, before, step);
    }
  }

  lemma PrimedBound(window: nat, total: nat, w: World)
    requires Inv(window, total, w)
    ensures Primed(window, w) <= window * total
  {
    if w.sizes > 0 {
      Monotone(window, w.sizes, total);
      Distribute(window, w.sizes);
    } else {
      Monotone(window, 0, total);
    }
  }

  lemma {:induction false} Monotone(x: nat, a: nat, b: nat)
    requires a <= b
    ensures x * a <= x * b
    decreases b
  {
    if a < b {
      Monotone(x, a, b - 1);
    }
  }

  lemma Distribute(x: nat, a: nat)
    requires a > 0
    ensures x * a == x * (a - 1) + x
  {
  }

  /** Conservation: in every run, between primings, the frames in flight are the window times
      the number of sizes started, wherever they are. */
  lemma InFlightIsWindowTimesSizes(window: nat, total: nat, ws: seq<World>, steps: seq<Step>, k: nat)
    requires Run(window, total, ws, steps) && k < |ws|
    ensures InFlight(ws[k]) == Primed(window, ws[k]) <= window * total
    ensures ws[k].sizes > 0 && ws[k].primed == window ==> InFlight(ws[k]) == window * ws[k].sizes
  {
    RunInv(window, total, ws, steps, k);
    PrimedBound(window, total, ws[k]);
    if ws[k].sizes > 0 {
      Distribute(window, ws[k].sizes);
    }
  }

  /** A step posts a frame onto the given port's TX ring. */
  predicate Posts(step: Step, onA: bool) {
    if onA then step == Prime || step == Post(true) else step == Post(false)
  }

  /** A post is safe below 511 unsent frames (Driver.SubmitSafeIff). */
  predicate SafePost(w: World, step: Step) {
    && (Posts(step, true) ==> Unsent(w.a) < RING - 1)
    && (Posts(step, false) ==> Unsent(w.b) < RING - 1)
  }

  ghost predicate AlwaysSafe(window: nat, total: nat) {
    forall ws, steps, k :: Run(window, total, ws, steps) && 0 <= k < |steps| ==> SafePost(ws[k], steps[k])
  }

  lemma SafeBelow(window: nat, total: nat, ws: seq<World>, steps: seq<Step>, k: nat)
    requires window * total < RING && Run(window, total, ws, steps) && k < |steps|
    ensures SafePost(ws[k], steps[k])
    ensures FreeDescriptors(ws[k].a) >= 0 && FreeDescriptors(ws[k].b) >= 0
    ensures ws[k].toA > 0 ==> FreeDescriptors(ws[k].a) > 0
    ensures ws[k].toB > 0 ==> FreeDescriptors(ws[k].b) > 0
  {
    RunInv(window, total, ws, steps, k);
    PrimedBound(window, total, ws[k]);
    RunInv(window, total, ws, steps, k + 1);
    PrimedBound(window, total, ws[k + 1]);
  }

  /** With the constants of the benchmark at most 384 frames are in flight: no post ever
      overruns a TX ring and no NIC ever lacks an RX descriptor for a frame on the wire. */
  lemma BenchmarkIsSafe(ws: seq<World>, steps: seq<Step>, k: nat)
    requires Run(TPUT_WINDOW, N_SIZES, ws, steps) && k < |steps|
    ensures InFlight(ws[k]) <= 384
    ensures SafePost(ws[k], steps[k])
    ensures ws[k].toA > 0 ==> FreeDescriptors(ws[k].a) > 0
    ensures ws[k].toB > 0 ==> FreeDescriptors(ws[k].b) > 0
  {
    InFlightIsWindowTimesSizes(TPUT_WINDOW, N_SIZES, ws, steps, k);
    SafeBelow(TPUT_WINDOW, N_SIZES, ws, steps, k);
  }

  // ------------------------------------------------------------------ the bound is exact

  /** Priming alone, the devices idle: the sizes run out their time and the frames pile up. */
  function Stalled(window: nat, size: nat, primed: nat): World
    requires size > 0
  {
    World(Side(window * (size - 1) + primed, 0, 0, 0, 0), START.b, 0, 0, 0, 0, size, primed)
  }

  lemma {:induction false} StalledRun(window: nat, total: nat, size: nat, primed: nat)
    returns (ws: seq<World>, steps: seq<Step>)
    requires 0 < size <= total && primed <= window
    ensures Run(window, total, ws, steps) && |steps| > 0 && ws[|steps|] == Stalled(window, size, primed)
    ensures primed > 0 ==> steps[|steps| - 1] == Prime && ws[|steps| - 1] == Stalled(window, size, primed - 1)
    decreases size, primed
  {
    if primed > 0 {
      ws, steps := StalledRun(window, total, size, primed - 1);
      ws, steps := Extend(window, total, ws, steps, Prime);
    } else if size > 1 {
      ws, steps := StalledRun(window, total, size - 1, window);
      Distribute(window, size - 1);
      ws, steps := Extend(window, total, ws, steps, NextSize);
    } else {
      ws, steps := [START, Next(START, NextSize)], [NextSize];
    }
  }

  lemma Extend(window: nat, total: nat, ws: seq<World>, steps: seq<Step>, step: Step)
    returns (ws': seq<World>, steps': seq<Step>)
    requires Run(window, total, ws, steps) && Enabled(window, total, ws[|steps|], step)
    ensures Run(window, total, ws', steps')
    ensures steps' == steps + [step] && ws' == ws + [Next(ws[|steps|], step)]
  {
    ws', steps' := ws + [Next(ws[|steps|], step)], steps + [step];
    forall k | 0 <= k < |steps'|
      ensures Enabled(window, total, ws'[k], steps'[k]) && ws'[k + 1] == Next(ws'[k], steps'[k])
    {
      if k < |steps| {
        assert Enabled(window, total, ws[k], steps[k]) && ws[k + 1] == Next(ws[k], steps[k]);
      }
    }
  }

  /** For any window and any number of sizes: every run keeps the TX rings intact if and only
      if window times sizes stays below the ring size. */
  lemma WindowSafeIff(window: nat, total: nat)
    requires window > 0 && total > 0
    ensures AlwaysSafe(window, total) <==> window * total < RING
  {
    if window * total < RING {
      forall ws, steps, k | Run(window, total, ws, steps) && 0 <= k < |steps|
        ensures SafePost(ws[k], steps[k])
      {
        SafeBelow(window, total, ws, steps, k);
      }
    } else {
      var size, primed := (RING - 1) / window + 1, (RING - 1) % window + 1;
      assert window * (size - 1) + primed == RING;
      if size > total {
        Monotone(window, total, size - 1);
      }
      var ws, steps := StalledRun(window, total, size, primed);
      assert !SafePost(ws[|steps| - 1], steps[|steps| - 1]);
    }
  }
}
