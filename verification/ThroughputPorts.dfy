/** `run_throughput` on two real ports: the calls of the host's loops in any order they allow,
    the devices and a lossless wire on their own. Port A posts a frame of the host's own for
    each it receives, port B what it received with the two addresses swapped. The counting
    system of `Throughput` is what its states come to when only the numbers are kept. */
module ThroughputPorts {
  import opened Rings
  import EventQueue
  import opened Port
  import opened Driver
  import opened Simulation
  import Throughput

  /** Both ports, the frames on the wire each way, and those received and not yet answered. */
  datatype Bench = Bench(a: State, b: State, toB: seq<Bytes>, toA: seq<Bytes>,
                         handA: seq<Bytes>, handB: seq<Bytes>, sizes: nat, primed: nat)

  datatype Step =
    | Prime(frame: Bytes) | NextSize
    | Look(onA: bool) | Ack(onA: bool) | Recv(onA: bool) | Post(onA: bool, frame: Bytes)
    | Acts(onA: bool, act: Action)

  /** Seen from the other port. */
  function Turned(w: Bench): Bench {
    Bench(w.b, w.a, w.toA, w.toB, w.handB, w.handA, w.sizes, w.primed)
  }

  ghost predicate Consistent(w: Bench) { Good(w.a) && Good(w.b) }

  predicate Countable(w: Bench) {
    w.a.d.ev.taken <= |w.a.d.ev.log| && w.b.d.ev.taken <= |w.b.d.ev.log|
  }

  function Numbers(w: Bench): Throughput.World
    requires Countable(w)
  {
    Throughput.World(Counts(w.a.d), Counts(w.b.d), |w.toB|, |w.toA|, |w.handA|, |w.handB|, w.sizes, w.primed)
  }

  /** The step of the counting system a step stands for. */
  function Named(step: Step): Throughput.Step {
    match step
    case Prime(_) => Throughput.Prime
    case NextSize => Throughput.NextSize
    case Look(onA) => Throughput.Poll(onA)
    case Ack(onA) => Throughput.Poll(onA)
    case Recv(onA) => Throughput.Recv(onA)
    case Post(onA, _) => Throughput.Post(onA)
    case Acts(onA, act) => if act.Send? then Throughput.Send(onA) else Throughput.Deliver(onA)
  }

  /** `swap_mac`: the two addresses change places. Of a frame too short to hold them the rest
      comes from whatever was in the buffer. */
  predicate Reflects(frame: Bytes, got: Bytes) {
    |frame| == |got| && (|got| >= 12 ==> frame == got[6..12] + got[..6] + got[12..])
  }

  /** What the loops and the wire allow. Only a frame on the wire arrives, the oldest first. */
  predicate Allowed(window: nat, total: nat, w: Bench, step: Step) {
    && Countable(w) && Sized(w.a.m) && InRange(w.a.p) && Sized(w.b.m) && InRange(w.b.p)
    && match step
       case Prime(frame) =>
         Throughput.Enabled(window, total, Numbers(w), Throughput.Prime) && 0 < |frame| <= BUFFER_SIZE
       case NextSize => Throughput.Enabled(window, total, Numbers(w), Throughput.NextSize)
       case Look(_) => w.sizes > 0 && w.primed == window
       case Ack(_) => true
       case Recv(onA) => Throughput.Enabled(window, total, Numbers(w), Throughput.Recv(onA))
       case Post(onA, frame) =>
         if onA then w.handA != [] && |frame| <= BUFFER_SIZE else w.handB != [] && Reflects(frame, w.handB[0])
       case Acts(onA, act) =>
         act.Receive? ==> var wire := if onA then w.toA else w.toB; wire != [] && act.packet.frame == wire[0]
  }

  /** A step of port A. */
  function StepA(w: Bench, step: Step): Bench
    requires Sized(w.a.m) && InRange(w.a.p)
  {
    match step
    case Prime(frame) => w.(a := Submit(w.a, frame), primed := w.primed + 1)
    case NextSize => w.(sizes := w.sizes + 1, primed := 0)
    case Look(_) => if EventQueue.IsMarker(w.a.m.ev[w.a.p.ev]) then w else w.(a := Consume(w.a))
    case Ack(_) => w.(a := Acknowledge(w.a))
    case Recv(_) =>
      if w.a.d.rx.done < |w.a.d.rx.arrivals| then
        w.(a := Recycle(w.a), handA := w.handA + [w.a.d.rx.arrivals[w.a.d.rx.done].frame])
      else w
    case Post(_, frame) => if w.handA == [] then w else w.(a := Submit(w.a, frame), handA := w.handA[1..])
    case Acts(_, act) =>
      var (m, d) := Act(w.a.m, w.a.d, act);
      w.(a := w.a.(m := m, d := d),
         toB := w.toB + (if |w.a.d.tx.wire| < |d.tx.wire| then [d.tx.wire[|w.a.d.tx.wire|]] else []),
         toA := if |w.a.d.rx.arrivals| < |d.rx.arrivals| && w.toA != [] then w.toA[1..] else w.toA)
  }

  /** Whether a step is port A's. */
  predicate OnA(step: Step) {
    match step
    case Prime(_) => true
    case NextSize => true
    case Look(onA) => onA
    case Ack(onA) => onA
    case Recv(onA) => onA
    case Post(onA, _) => onA
    case Acts(onA, _) => onA
  }

  function Next(w: Bench, step: Step): Bench
    requires Sized(w.a.m) && InRange(w.a.p) && Sized(w.b.m) && InRange(w.b.p)
  {
    if OnA(step) then StepA(w, step) else Turned(StepA(Turned(w), step))
  }

  function Frames(arrivals: seq<Packet>): (fs: seq<Bytes>)
    ensures |fs| == |arrivals|
  {
    seq(|arrivals|, i requires 0 <= i < |arrivals| => arrivals[i].frame)
  }

  /** Whatever one port has put on the wire has arrived at the other or is on its way. */
  ghost predicate Carried(sent: seq<Bytes>, wire: seq<Bytes>, arrivals: seq<Packet>) {
    Frames(arrivals) + wire == sent
  }

  ghost predicate CarriedBoth(w: Bench) {
    Carried(w.a.d.tx.wire, w.toB, w.b.d.rx.arrivals) && Carried(w.b.d.tx.wire, w.toA, w.a.d.rx.arrivals)
  }

  /** What is in hand was received, and so fits a slot. */
  ghost predicate HandsFit(w: Bench) {
    && (forall i :: 0 <= i < |w.handA| ==> |w.handA[i]| <= BUFFER_SIZE)
    && (forall i :: 0 <= i < |w.handB| ==> |w.handB[i]| <= BUFFER_SIZE)
  }

  ghost predicate Conserves(window: nat, total: nat, w: Bench) {
    Countable(w) && Throughput.Inv(window, total, Numbers(w))
  }

  ghost predicate Inv(window: nat, total: nat, w: Bench) {
    Consistent(w) && Conserves(window, total, w) && CarriedBoth(w) && HandsFit(w)
  }

  // ------------------------------------------------------------------ one step of one port

  lemma PostMoves(w: Bench, frame: Bytes)
    requires Consistent(w) && |frame| <= BUFFER_SIZE && Throughput.Unsent(Counts(w.a.d)) < RING - 1
    ensures Good(Submit(w.a, frame))
    ensures Counts(Submit(w.a, frame).d) == Throughput.Sender(Counts(w.a.d))
  {
    CountsSafe(w.a, frame);
    CountsDriver(w.a, frame);
  }

  lemma LookMoves(s: State)
    requires Good(s) && !EventQueue.IsMarker(s.m.ev[s.p.ev])
    ensures s.d.ev.taken < |s.d.ev.log| && Good(Consume(s))
    ensures var c := Counts(s.d);
            if s.d.ev.log[s.d.ev.taken].kind == RxEvent
            then c.taken < c.filled && Counts(Consume(s).d) == c.(taken := c.taken + 1)
            else Counts(Consume(s).d) == c
  {
    LookExact(s);
    ConsumeGood(s);
    CountsDriver(s, []);
  }

  lemma RecvMoves(s: State)
    requires Good(s) && Counts(s.d).done < Counts(s.d).taken
    ensures s.d.rx.done < |s.d.rx.arrivals| && Good(Recycle(s))
    ensures Counts(Recycle(s).d) == Counts(s.d).(done := Counts(s.d).done + 1)
  {
    OwedIsFilled(s.m, s.d);
    RecycleGood(s);
    CountsDriver(s, []);
  }

  lemma AckMoves(s: State)
    requires Good(s)
    ensures Good(Acknowledge(s)) && Counts(Acknowledge(s).d) == Counts(s.d)
  {
    AcknowledgeGood(s);
    CountsDriver(s, []);
  }

  lemma FramesSnoc(arrivals: seq<Packet>, p: Packet)
    ensures Frames(arrivals + [p]) == Frames(arrivals) + [p.frame]
  {
  }

  lemma ActsGood(s: State, act: Action)
    requires Good(s)
    ensures Good(s.(m := Act(s.m, s.d, act).0, d := Act(s.m, s.d, act).1))
  {
    ActInv(s.m, s.d, act);
  }

  /** What an action does to the counts and to the two ends of the wire. */
  ghost predicate ActMoves(d: Device, act: Action, d': Device) {
    && d.ev.taken == d'.ev.taken <= |d.ev.log| && d'.ev.taken <= |d'.ev.log|
    && Counts(d') == Counts(d).(sent := |d'.tx.wire|, filled := |d'.rx.arrivals|)
    && (d'.tx.wire == d.tx.wire ||
        (act.Send? && |d'.tx.wire| == |d.tx.wire| + 1 && d.tx.wire <= d'.tx.wire && Counts(d).sent < Counts(d).posted))
    && (d'.rx.arrivals == d.rx.arrivals ||
        (act.Receive? && d'.rx.arrivals == d.rx.arrivals + [act.packet] && Throughput.FreeDescriptors(Counts(d)) > 0))
  }

  lemma ActsMove(s: State, act: Action)
    requires Good(s)
    ensures ActMoves(s.d, act, Act(s.m, s.d, act).1)
  {
    ActInv(s.m, s.d, act);
    CountsAct(s.m, s.d, act);
  }

  // ------------------------------------------------------------------ soundness

  /** In a state that keeps the conservation law and is about to post, there is room. */
  lemma RoomToPost(window: nat, total: nat, t: Throughput.World, step: Throughput.Step)
    requires window * total < RING && Throughput.Inv(window, total, t)
    requires Throughput.Enabled(window, total, t, step) && (step == Throughput.Prime || step == Throughput.Post(true))
    ensures Throughput.Unsent(t.a) < RING - 1
  {
    Throughput.NextInv(window, total, t, step);
    Throughput.PrimedBound(window, total, Throughput.Next(t, step));
  }

  lemma StepGood(window: nat, total: nat, w: Bench, step: Step)
    requires window * total < RING && Inv(window, total, w) && Allowed(window, total, w, step) && OnA(step)
    ensures Good(StepA(w, step).a)
  {
    match step
    case Prime(frame) =>
      RoomToPost(window, total, Numbers(w), Throughput.Prime);
      PostMoves(w, frame);
    case Post(_, frame) =>
      RoomToPost(window, total, Numbers(w), Throughput.Post(true));
      PostMoves(w, frame);
    case Look(_) => if !EventQueue.IsMarker(w.a.m.ev[w.a.p.ev]) { LookMoves(w.a); }
    case Ack(_) => AckMoves(w.a);
    case Recv(_) => RecvMoves(w.a);
    case Acts(_, act) => ActsGood(w.a, act);
    case NextSize =>
  }

  // ------------------------------------------------------------------ numbers

  /** Whether a step on port `d` is one of the counting system's: a look that finds an RX
      event, a frame sent or received, and every other step but an acknowledgement. */
  predicate Counted(d: Device, step: Step) {
    match step
    case Look(_) => d.ev.taken < |d.ev.log| && d.ev.log[d.ev.taken].kind == RxEvent
    case Ack(_) => false
    case Acts(_, act) => Enabled(d, act) && (act.Send? || act.Receive?)
    case _ => true
  }

  /** The counting system does its own step exactly when the step counts, and otherwise
      nothing. */
  ghost predicate Follows(window: nat, total: nat, w: Bench, step: Step, w': Bench) {
    && Countable(w) && Countable(w')
    && if Counted(if OnA(step) then w.a.d else w.b.d, step) then
         Throughput.Enabled(window, total, Numbers(w), Named(step)) &&
         Numbers(w') == Throughput.Next(Numbers(w), Named(step))
       else Numbers(w') == Numbers(w)
  }

  lemma PostFollows(window: nat, total: nat, w: Bench, step: Step)
    requires window * total < RING && Inv(window, total, w) && Allowed(window, total, w, step)
    requires step.Prime? || (step.Post? && step.onA)
    ensures Follows(window, total, w, step, StepA(w, step))
  {
    RoomToPost(window, total, Numbers(w), Named(step));
    PostMoves(w, step.frame);
  }

  lemma HostFollows(window: nat, total: nat, w: Bench, step: Step)
    requires Consistent(w) && Allowed(window, total, w, step)
    requires step == NextSize || step == Look(true) || step == Ack(true) || step == Recv(true)
    ensures Follows(window, total, w, step, StepA(w, step))
  {
    match step
    case Look(_) =>
      LookExact(w.a);
      if !EventQueue.IsMarker(w.a.m.ev[w.a.p.ev]) { LookMoves(w.a); }
    case Ack(_) => AckMoves(w.a);
    case Recv(_) => RecvMoves(w.a);
    case NextSize =>
  }

  lemma ActsFollow(window: nat, total: nat, w: Bench, act: Action)
    requires Consistent(w) && Allowed(window, total, w, Acts(true, act))
    ensures Follows(window, total, w, Acts(true, act), StepA(w, Acts(true, act)))
  {
    ActsMove(w.a, act);
    CountsAct(w.a.m, w.a.d, act);
  }

  lemma StepFollows(window: nat, total: nat, w: Bench, step: Step)
    requires window * total < RING && Inv(window, total, w) && Allowed(window, total, w, step) && OnA(step)
    ensures Follows(window, total, w, step, StepA(w, step))
  {
    match step
    case Prime(_) => PostFollows(window, total, w, step);
    case Post(_, _) => PostFollows(window, total, w, step);
    case Acts(_, act) => ActsFollow(window, total, w, act);
    case _ => HostFollows(window, total, w, step);
  }

  lemma FollowsConserves(window: nat, total: nat, w: Bench, step: Step, w': Bench)
    requires Conserves(window, total, w) && Follows(window, total, w, step, w')
    ensures Conserves(window, total, w')
  {
    if Numbers(w') != Numbers(w) { Throughput.NextInv(window, total, Numbers(w), Named(step)); }
  }

  // ------------------------------------------------------------------ frames

  lemma ActsCarry(w: Bench, act: Action)
    requires CarriedBoth(w) && Sized(w.a.m) && InRange(w.a.p) && ActMoves(w.a.d, act, Act(w.a.m, w.a.d, act).1)
    requires act.Receive? ==> w.toA != [] && act.packet.frame == w.toA[0]
    ensures CarriedBoth(StepA(w, Acts(true, act)))
  {
    var d := Act(w.a.m, w.a.d, act).1;
    if |w.a.d.tx.wire| < |d.tx.wire| {
      assert d.tx.wire == w.a.d.tx.wire + [d.tx.wire[|w.a.d.tx.wire|]];
    }
    if |w.a.d.rx.arrivals| < |d.rx.arrivals| {
      FramesSnoc(w.a.d.rx.arrivals, act.packet);
      assert w.toA == [w.toA[0]] + w.toA[1..];
    }
  }

  lemma StepCarries(window: nat, total: nat, w: Bench, step: Step)
    requires Inv(window, total, w) && Allowed(window, total, w, step) && OnA(step)
    ensures CarriedBoth(StepA(w, step))
  {
    if step.Acts? {
      ActsMove(w.a, step.act);
      ActsCarry(w, step.act);
    }
  }

  /** A packet that has arrived fits a slot. */
  lemma StepFits(w: Bench, step: Step)
    requires Good(w.a) && HandsFit(w)
    ensures HandsFit(StepA(w, step))
  {
  }

  // ------------------------------------------------------------------ one step of the system

  lemma StepAInv(window: nat, total: nat, w: Bench, step: Step)
    requires window * total < RING && Inv(window, total, w) && Allowed(window, total, w, step) && OnA(step)
    ensures Inv(window, total, StepA(w, step))
  {
    StepGood(window, total, w, step);
    StepFollows(window, total, w, step);
    FollowsConserves(window, total, w, step, StepA(w, step));
    StepCarries(window, total, w, step);
    StepFits(w, step);
  }

  /** The numbers from the other side. */
  function Mirror(t: Throughput.World): Throughput.World {
    Throughput.World(t.b, t.a, t.toA, t.toB, t.handB, t.handA, t.sizes, t.primed)
  }

  lemma TurnedConserves(window: nat, total: nat, w: Bench)
    requires Conserves(window, total, w)
    ensures Conserves(window, total, Turned(w))
  {
    assert Numbers(Turned(w)) == Mirror(Numbers(w));
    assert Throughput.InFlight(Mirror(Numbers(w))) == Throughput.InFlight(Numbers(w));
  }

  lemma TurnedInv(window: nat, total: nat, w: Bench)
    requires Inv(window, total, w)
    ensures Inv(window, total, Turned(w))
  {
    TurnedConserves(window, total, w);
  }

  lemma TurnedAllowed(window: nat, total: nat, w: Bench, step: Step)
    requires Allowed(window, total, w, step) && !OnA(step) && HandsFit(w)
    ensures Allowed(window, total, Turned(w), Other(step)) && OnA(Other(step))
    ensures StepA(Turned(w), Other(step)) == StepA(Turned(w), step)
  {
    assert Numbers(Turned(w)) == Mirror(Numbers(w));
  }

  /** The same step, seen from the other port. */
  function Other(step: Step): Step {
    match step
    case Look(onA) => Look(!onA)
    case Ack(onA) => Ack(!onA)
    case Recv(onA) => Recv(!onA)
    case Post(onA, frame) => Post(!onA, frame)
    case Acts(onA, act) => Acts(!onA, act)
    case _ => step
  }

  lemma NextInv(window: nat, total: nat, w: Bench, step: Step)
    requires window * total < RING && Inv(window, total, w) && Allowed(window, total, w, step)
    ensures Inv(window, total, Next(w, step))
  {
    if OnA(step) {
      StepAInv(window, total, w, step);
    } else {
      TurnedInv(window, total, w);
      TurnedAllowed(window, total, w, step);
      StepAInv(window, total, Turned(w), Other(step));
      TurnedInv(window, total, StepA(Turned(w), step));
    }
  }

  lemma MirrorNext(window: nat, total: nat, t: Throughput.World, step: Step)
    requires !OnA(step)
    ensures Throughput.Enabled(window, total, Mirror(t), Named(Other(step)))
       <==> Throughput.Enabled(window, total, t, Named(step))
    ensures Throughput.Next(Mirror(t), Named(Other(step))) == Mirror(Throughput.Next(t, Named(step)))
  {
  }

  /** Every step of the two ports is what the counting system does, or leaves its numbers
      alone if it is none of its steps. */
  lemma NextFollows(window: nat, total: nat, w: Bench, step: Step)
    requires window * total < RING && Inv(window, total, w) && Allowed(window, total, w, step)
    ensures Follows(window, total, w, step, Next(w, step))
  {
    if OnA(step) {
      StepFollows(window, total, w, step);
    } else {
      TurnedInv(window, total, w);
      TurnedAllowed(window, total, w, step);
      StepFollows(window, total, Turned(w), Other(step));
      MirrorNext(window, total, Numbers(w), step);
      assert Numbers(Turned(w)) == Mirror(Numbers(w));
      assert Numbers(Turned(Next(w, step))) == Mirror(Numbers(Next(w, step)));
    }
  }

  // ------------------------------------------------------------------ the frames themselves

  /** What a port has received, and what of it has been answered: all but the latest, which
      are in hand. */
  function Received(d: Device): seq<Bytes>
    requires d.rx.done <= |d.rx.arrivals|
  {
    Frames(d.rx.arrivals[..d.rx.done])
  }

  ghost predicate HandIs(d: Device, hand: seq<Bytes>) {
    && d.rx.done <= |d.rx.arrivals| && |hand| <= d.rx.done
    && Received(d)[d.rx.done - |hand|..] == hand
  }

  function Answered(d: Device, hand: seq<Bytes>): seq<Bytes>
    requires d.rx.done <= |d.rx.arrivals| && |hand| <= d.rx.done
  {
    Received(d)[..d.rx.done - |hand|]
  }

  ghost predicate ReflectsAt(frames: seq<Bytes>, got: seq<Bytes>, i: nat) {
    i < |frames| && i < |got| ==> Reflects(frames[i], got[i])
  }

  ghost predicate ReflectsAll(frames: seq<Bytes>, got: seq<Bytes>) {
    |frames| == |got| && forall i: nat :: ReflectsAt(frames, got, i)
  }

  lemma ReflectsSnoc(frames: seq<Bytes>, got: seq<Bytes>, f: Bytes, g: Bytes)
    requires ReflectsAll(frames, got) && Reflects(f, g)
    ensures ReflectsAll(frames + [f], got + [g])
  {
    forall i: nat ensures ReflectsAt(frames + [f], got + [g], i) { assert ReflectsAt(frames, got, i); }
  }

  /** What a step hands to its port's TX ring. */
  function Posted(step: Step): seq<Bytes> {
    if step.Prime? || step.Post? then [step.frame] else []
  }

  /** ... and what it takes out of the hand. */
  function Taken(hand: seq<Bytes>, step: Step): seq<Bytes> {
    if step.Post? && hand != [] then [hand[0]] else []
  }

  lemma PostMovesHand(d: Device, hand: seq<Bytes>, d': Device)
    requires HandIs(d, hand) && hand != [] && d'.rx == d.rx
    ensures HandIs(d', hand[1..]) && Answered(d', hand[1..]) == Answered(d, hand) + [hand[0]]
  {
    var all, n := Received(d), d.rx.done - |hand|;
    assert all[n] == all[n..][0];
    assert all[n + 1..] == all[n..][1..];
  }

  lemma RecvMovesHand(d: Device, hand: seq<Bytes>, d': Device)
    requires HandIs(d, hand) && d.rx.done < |d.rx.arrivals|
    requires d'.rx.done == d.rx.done + 1 && d'.rx.arrivals == d.rx.arrivals
    ensures var hand' := hand + [d.rx.arrivals[d.rx.done].frame];
            HandIs(d', hand') && Answered(d', hand') == Answered(d, hand)
  {
    var p := d.rx.arrivals[d.rx.done];
    assert d.rx.arrivals[..d.rx.done + 1] == d.rx.arrivals[..d.rx.done] + [p];
    FramesSnoc(d.rx.arrivals[..d.rx.done], p);
    var n := d.rx.done - |hand|;
    assert Received(d') == Received(d) + [p.frame];
    assert Received(d')[..n] == Received(d)[..n];
    assert Received(d')[n..] == Received(d)[n..] + [p.frame];
  }

  lemma ArrivalMovesHand(d: Device, hand: seq<Bytes>, d': Device)
    requires HandIs(d, hand) && d'.rx.done == d.rx.done && d.rx.arrivals <= d'.rx.arrivals
    ensures HandIs(d', hand) && Answered(d', hand) == Answered(d, hand)
  {
    assert d'.rx.arrivals[..d.rx.done] == d.rx.arrivals[..d.rx.done];
  }

  /** What a step of port A does to its hand. */
  ghost predicate HandMoves(w: Bench, step: Step, w': Bench) {
    && HandIs(w.a.d, w.handA) && HandIs(w'.a.d, w'.handA)
    && Answered(w'.a.d, w'.handA) == Answered(w.a.d, w.handA) + Taken(w.handA, step)
  }

  /** ... and to its TX ring; port B has no part in it. */
  ghost predicate RingMoves(w: Bench, step: Step, w': Bench) {
    && w'.a.d.tx.submitted == w.a.d.tx.submitted + Posted(step)
    && w'.b == w.b && w'.handB == w.handB
  }

  lemma StepMovesRing(w: Bench, step: Step)
    requires Sized(w.a.m) && InRange(w.a.p) && (step.Post? ==> w.handA != [])
    ensures RingMoves(w, step, StepA(w, step))
  {
  }

  lemma StepMovesHand(window: nat, total: nat, w: Bench, step: Step)
    requires Inv(window, total, w) && Allowed(window, total, w, step) && OnA(step) && HandIs(w.a.d, w.handA)
    ensures HandMoves(w, step, StepA(w, step))
  {
    var d := w.a.d;
    match step
    case Post(_, frame) => PostMovesHand(d, w.handA, Submit(w.a, frame).d);
    case Recv(_) =>
      RecvMoves(w.a);
      RecvMovesHand(d, w.handA, Recycle(w.a).d);
    case Acts(_, act) =>
      ActsMove(w.a, act);
      ArrivalMovesHand(d, w.handA, Act(w.a.m, d, act).1);
    case Look(_) => ArrivalMovesHand(d, w.handA, StepA(w, step).a.d);
    case Ack(_) => ArrivalMovesHand(d, w.handA, Acknowledge(w.a).d);
    case Prime(frame) => ArrivalMovesHand(d, w.handA, Submit(w.a, frame).d);
    case NextSize =>
  }

  /** The hands hold what was received last; port A has posted the host's own frames, and
      port B the reflection of what it received, in order. */
  ghost predicate Answers(w: Bench, built: seq<Bytes>) {
    && HandIs(w.a.d, w.handA) && HandIs(w.b.d, w.handB)
    && w.a.d.tx.submitted == built
    && ReflectsAll(w.b.d.tx.submitted, Answered(w.b.d, w.handB))
  }

  /** What the host has built for port A. */
  function BuiltBy(step: Step): seq<Bytes> {
    if OnA(step) then Posted(step) else []
  }

  function Built(steps: seq<Step>): seq<Bytes> {
    if steps == [] then [] else Built(steps[..|steps| - 1]) + BuiltBy(steps[|steps| - 1])
  }

  lemma BuiltSnoc(steps: seq<Step>, k: nat)
    requires k < |steps|
    ensures Built(steps[..k + 1]) == Built(steps[..k]) + BuiltBy(steps[k])
  {
    assert steps[..k + 1][..k] == steps[..k];
  }

  lemma ReflectsMore(w: Bench, step: Step, w': Bench)
    requires HandMoves(w, step, w') && RingMoves(w, step, w')
    requires ReflectsAll(w.a.d.tx.submitted, Answered(w.a.d, w.handA))
    requires !step.Prime? && (step.Post? ==> w.handA != [] && Reflects(step.frame, w.handA[0]))
    ensures ReflectsAll(w'.a.d.tx.submitted, Answered(w'.a.d, w'.handA))
  {
    var sent, answered := w.a.d.tx.submitted, Answered(w.a.d, w.handA);
    if step.Post? {
      ReflectsSnoc(sent, answered, step.frame, w.handA[0]);
    } else {
      assert sent + [] == sent && answered + [] == answered;
    }
  }

  lemma NextAnswersB(window: nat, total: nat, w: Bench, step: Step, built: seq<Bytes>)
    requires Inv(window, total, w) && Allowed(window, total, w, step) && Answers(w, built) && !OnA(step)
    ensures Answers(Next(w, step), built)
  {
    TurnedInv(window, total, w);
    TurnedAllowed(window, total, w, step);
    var v := Turned(w);
    StepMovesHand(window, total, v, Other(step));
    StepMovesRing(v, Other(step));
    ReflectsMore(v, Other(step), StepA(v, step));
  }

  lemma NextAnswersA(window: nat, total: nat, w: Bench, step: Step, built: seq<Bytes>)
    requires Inv(window, total, w) && Allowed(window, total, w, step) && Answers(w, built) && OnA(step)
    ensures Answers(Next(w, step), built + BuiltBy(step))
  {
    StepMovesHand(window, total, w, step);
    StepMovesRing(w, step);
  }

  lemma NextAnswers(window: nat, total: nat, w: Bench, step: Step, built: seq<Bytes>)
    requires Inv(window, total, w) && Allowed(window, total, w, step) && Answers(w, built)
    ensures Answers(Next(w, step), built + BuiltBy(step))
  {
    if OnA(step) {
      NextAnswersA(window, total, w, step, built);
    } else {
      NextAnswersB(window, total, w, step, built);
      assert built + BuiltBy(step) == built;
    }
  }

  // ------------------------------------------------------------------ runs

  /** A sound port nothing has passed through yet, as attach leaves it. */
  ghost predicate Rested(s: State) {
    Good(s) && s.d.ev.log == [] && s.d.tx.submitted == s.d.tx.wire == [] && s.d.rx.arrivals == [] && s.d.rx.done == 0
  }

  lemma SeededIsRested(s: State)
    requires Seeded(s)
    ensures Rested(s)
  {
    SeededGood(s);
  }

  ghost predicate Starts(w: Bench) {
    && Rested(w.a) && Rested(w.b) && w.toA == w.toB == w.handA == w.handB == [] && w.sizes == w.primed == 0
  }

  ghost predicate Moved(window: nat, total: nat, w: Bench, step: Step, w': Bench) {
    Allowed(window, total, w, step) && w' == Next(w, step)
  }

  ghost predicate Run(window: nat, total: nat, ws: seq<Bench>, steps: seq<Step>) {
    && |ws| == |steps| + 1 && Starts(ws[0])
    && forall k: nat :: k < |steps| ==> Moved(window, total, ws[k], steps[k], ws[k + 1])
  }

  lemma RestedCounts(s: State)
    requires Rested(s)
    ensures s.d.ev.taken == 0 && Counts(s.d) == Throughput.Side(0, 0, 0, 0, 0)
  {
  }

  lemma IdleConserves(window: nat, total: nat, t: Throughput.World)
    requires t == Throughput.START
    ensures Throughput.Inv(window, total, t)
  {
  }

  lemma StartsConserves(window: nat, total: nat, w: Bench)
    requires Countable(w) && Counts(w.a.d) == Counts(w.b.d) == Throughput.Side(0, 0, 0, 0, 0)
    requires w.toA == w.toB == w.handA == w.handB == [] && w.sizes == w.primed == 0
    ensures Conserves(window, total, w)
  {
    IdleConserves(window, total, Numbers(w));
  }

  lemma StartsCarried(w: Bench)
    requires w.a.d.tx.wire == w.b.d.tx.wire == w.toA == w.toB == []
    requires w.a.d.rx.arrivals == w.b.d.rx.arrivals == []
    ensures CarriedBoth(w)
  {
  }

  lemma StartsCounted(window: nat, total: nat, w: Bench)
    requires Starts(w)
    ensures Conserves(window, total, w)
  {
    RestedCounts(w.a);
    RestedCounts(w.b);
    assert Countable(w);
    StartsConserves(window, total, w);
  }

  lemma StartsInv(window: nat, total: nat, w: Bench)
    requires Starts(w)
    ensures Inv(window, total, w)
  {
    StartsCounted(window, total, w);
    StartsCarried(w);
    assert HandsFit(w);
  }

  lemma {:induction false} RunInv(window: nat, total: nat, ws: seq<Bench>, steps: seq<Step>, k: nat)
    requires window * total < RING && Run(window, total, ws, steps) && k < |ws|
    ensures Inv(window, total, ws[k])
  {
    if k == 0 {
      StartsInv(window, total, ws[0]);
    } else {
      RunInv(window, total, ws, steps, k - 1);
      assert Moved(window, total, ws[k - 1], steps[k - 1], ws[k]);
      NextInv(window, total, ws[k - 1], steps[k - 1]);
    }
  }

  lemma StartsAnswering(w: Bench)
    requires Starts(w)
    ensures Answers(w, [])
  {
  }

  lemma {:induction false} RunAnswers(window: nat, total: nat, ws: seq<Bench>, steps: seq<Step>, k: nat)
    requires window * total < RING && Run(window, total, ws, steps) && k < |ws|
    ensures Answers(ws[k], Built(steps[..k]))
  {
    if k == 0 {
      StartsAnswering(ws[0]);
    } else {
      RunAnswers(window, total, ws, steps, k - 1);
      RunInv(window, total, ws, steps, k - 1);
      assert Moved(window, total, ws[k - 1], steps[k - 1], ws[k]);
      NextAnswers(window, total, ws[k - 1], steps[k - 1], Built(steps[..k - 1]));
      BuiltSnoc(steps, k - 1);
    }
  }

  /** Over every run with window times sizes below 512, so with the benchmark's 128 times 3:
      both ports stay sound, with no more frames unsent than are in flight; a frame on the
      wire always finds an RX descriptor; and each port has received exactly what the other
      has sent, in order, but for what is on the wire. */
  lemma PortsStaySound(window: nat, total: nat, ws: seq<Bench>, steps: seq<Step>, k: nat)
    requires window * total < RING && Run(window, total, ws, steps) && k < |ws|
    ensures Good(ws[k].a) && Good(ws[k].b) && Countable(ws[k])
    ensures Throughput.InFlight(Numbers(ws[k])) == Throughput.Primed(window, Numbers(ws[k])) <= window * total
    ensures Unsent(ws[k].a.d) <= window * total && Unsent(ws[k].b.d) <= window * total
    ensures ws[k].toA != [] ==> |ws[k].a.d.rx.arrivals| < ws[k].a.d.rx.adv
    ensures ws[k].toB != [] ==> |ws[k].b.d.rx.arrivals| < ws[k].b.d.rx.adv
    ensures Frames(ws[k].b.d.rx.arrivals) + ws[k].toB == ws[k].a.d.tx.wire <= ws[k].a.d.tx.submitted
    ensures Frames(ws[k].a.d.rx.arrivals) + ws[k].toA == ws[k].b.d.tx.wire <= ws[k].b.d.tx.submitted
  {
    RunInv(window, total, ws, steps, k);
    var w := ws[k];
    Throughput.PrimedBound(window, total, Numbers(w));
    CountsSafe(w.a, []);
    CountsSafe(w.b, []);
  }

  lemma PrefixAt(xs: seq<Bytes>, wire: seq<Bytes>, sent: seq<Bytes>, submitted: seq<Bytes>, n: nat)
    requires xs + wire == sent <= submitted && n < |xs|
    ensures n < |submitted| && submitted[n] == xs[n]
  {
    assert (xs + wire)[n] == xs[n];
  }

  /** The round trip, frame by frame and over every such run: what port A receives as its
      `n`th frame is the `n`th frame the host built for it, with the addresses swapped. */
  lemma RoundTrip(window: nat, total: nat, ws: seq<Bench>, steps: seq<Step>, k: nat, n: nat)
    requires window * total < RING && Run(window, total, ws, steps) && k < |ws| && n < |ws[k].a.d.rx.arrivals|
    ensures ws[k].a.d.tx.submitted == Built(steps[..k])
    ensures n < |Built(steps[..k])| && Reflects(ws[k].a.d.rx.arrivals[n].frame, Built(steps[..k])[n])
  {
    var w := ws[k];
    PortsStaySound(window, total, ws, steps, k);
    RunAnswers(window, total, ws, steps, k);
    PrefixAt(Frames(w.a.d.rx.arrivals), w.toA, w.b.d.tx.wire, w.b.d.tx.submitted, n);
    assert ReflectsAt(w.b.d.tx.submitted, Answered(w.b.d, w.handB), n);
    PrefixAt(Frames(w.b.d.rx.arrivals), w.toB, w.a.d.tx.wire, w.a.d.tx.submitted, n);
  }
}
