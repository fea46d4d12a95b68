/** `run_latency` and `run_throughput_kernel` on two real ports with a lossless wire: one
    frame, bounced. `PingPong` is what remains when events are reduced to notes and frames to
    their number. As there, `me` is the port about to send, and a completed reception swaps
    the two. */
module RallyPorts {
  import opened Rings
  import EventQueue
  import opened Port
  import opened Driver
  import opened Simulation
  import PingPong
  import Wire = ThroughputPorts

  datatype Rally = Rally(me: State, peer: State, there: seq<Bytes>, back: seq<Bytes>,
                         stage: PingPong.Stage, batch: seq<PingPong.Note>, lost: nat, halves: nat)

  datatype Step = Host(frame: Bytes) | Ack(mine: bool) | Acts(mine: bool, act: Action)

  predicate Countable(w: Rally) {
    w.me.d.ev.taken <= |w.me.d.ev.log| && w.peer.d.ev.taken <= |w.peer.d.ev.log|
  }

  function Abstract(w: Rally): PingPong.World
    requires Countable(w)
  {
    PingPong.World(SideOf(w.me.d), SideOf(w.peer.d), |w.there|, |w.back|, w.stage, w.batch, w.lost, w.halves)
  }

  predicate Usable(w: Rally) {
    Sized(w.me.m) && InRange(w.me.p) && Sized(w.peer.m) && InRange(w.peer.p)
  }

  /** The word at a port's event pointer. */
  function Seen(s: State): Word
    requires Sized(s.m) && InRange(s.p)
  {
    s.m.ev[s.p.ev]
  }

  // ------------------------------------------------------------------ the host program

  function Swapped(w: Rally): Rally {
    Rally(w.peer, w.me, w.back, w.there, PingPong.Sending, [], w.lost, w.halves + 1)
  }

  /** The spin inside `SFC7120_TX`, one look. */
  function Await(w: Rally): Rally
    requires Usable(w)
  {
    var r := Seen(w.me);
    if EventQueue.IsMarker(r) then w
    else
      var w' := w.(me := Consume(w.me), lost := if Code(r) == 0 then w.lost + 1 else w.lost);
      if Code(r) == 2 && r % 0x1_0000 % RING == Slot(|w.me.d.tx.submitted| - 1 + RING)
      then w'.(stage := PingPong.Receiving) else w'
  }

  /** The spin inside `SFC7120_RX`, one look. */
  function ReceiveByIoctl(w: Rally): Rally
    requires Usable(w)
  {
    var r := Seen(w.peer);
    if EventQueue.IsMarker(r) then w
    else if Code(r) == 0 then Swapped(w.(peer := Recycle(Consume(w.peer))))
    else w.(peer := Consume(w.peer))
  }

  /** `wait_rx`: a look of the poll for up to eight events, or what is done with them. */
  function ReceiveDirectly(w: Rally): Rally
    requires Usable(w)
  {
    if |w.batch| < PingPong.BATCH && !EventQueue.IsMarker(Seen(w.peer)) && w.peer.d.ev.taken < |w.peer.d.ev.log| then
      w.(batch := w.batch + [NoteOf(w.peer.d.ev.log[w.peer.d.ev.taken])], peer := Consume(w.peer))
    else if PingPong.Rx in w.batch then
      Swapped(w.(peer := Recycle(w.peer), lost := w.lost + PingPong.Skipped(w.batch)))
    else w.(batch := [])
  }

  function HostStep(path: PingPong.Path, w: Rally, frame: Bytes): Rally
    requires Usable(w)
  {
    match w.stage
    case Sending =>
      w.(me := Submit(w.me, frame),
         stage := if path == PingPong.IoctlPath then PingPong.Awaiting else PingPong.Receiving)
    case Awaiting => Await(w)
    case Receiving => if path == PingPong.IoctlPath then ReceiveByIoctl(w) else ReceiveDirectly(w)
  }

  /** Seen from the other port. */
  function Turned(w: Rally): Rally {
    w.(me := w.peer, peer := w.me, there := w.back, back := w.there)
  }

  /** The device of `me`, or the doorbell write of `me`'s event pointer. */
  function Mine(w: Rally, step: Step): Rally
    requires Usable(w)
  {
    match step
    case Host(_) => w
    case Ack(_) => w.(me := Acknowledge(w.me))
    case Acts(_, act) =>
      var (m, d) := Act(w.me.m, w.me.d, act);
      w.(me := w.me.(m := m, d := d),
         there := w.there + (if |w.me.d.tx.wire| < |d.tx.wire| then [d.tx.wire[|w.me.d.tx.wire|]] else []),
         back := if |w.me.d.rx.arrivals| < |d.rx.arrivals| && w.back != [] then w.back[1..] else w.back)
  }

  function Next(path: PingPong.Path, w: Rally, step: Step): Rally
    requires Usable(w)
  {
    match step
    case Host(frame) => HostStep(path, w, frame)
    case Ack(mine) => if mine then Mine(w, step) else Turned(Mine(Turned(w), step))
    case Acts(mine, _) => if mine then Mine(w, step) else Turned(Mine(Turned(w), step))
  }

  /** Only a frame on the wire arrives, the oldest first. */
  predicate Allowed(w: Rally, step: Step) {
    && Usable(w)
    && match step
       case Host(frame) => 0 < |frame| <= BUFFER_SIZE
       case Ack(_) => true
       case Acts(mine, act) =>
         act.Receive? ==> var wire := if mine then w.back else w.there; wire != [] && act.packet.frame == wire[0]
  }

  // ------------------------------------------------------------------ invariant

  ghost predicate CarriedBoth(w: Rally) {
    && Wire.Carried(w.me.d.tx.wire, w.there, w.peer.d.rx.arrivals)
    && Wire.Carried(w.peer.d.tx.wire, w.back, w.me.d.rx.arrivals)
  }

  ghost predicate Bounces(path: PingPong.Path, w: Rally) {
    Countable(w) && PingPong.Inv(path, Abstract(w))
  }

  ghost predicate Inv(path: PingPong.Path, w: Rally) {
    Good(w.me) && Good(w.peer) && Bounces(path, w) && CarriedBoth(w)
  }

  /** The counted system does its step. */
  ghost predicate Follows(path: PingPong.Path, w: Rally, step: PingPong.Step, w': Rally) {
    Countable(w) && Countable(w') && Abstract(w') == PingPong.Next(path, Abstract(w), step)
  }

  /** ... or nothing. */
  ghost predicate Idles(w: Rally, w': Rally) {
    Countable(w) && Countable(w') && Abstract(w') == Abstract(w)
  }

  lemma FollowsBounces(path: PingPong.Path, w: Rally, step: PingPong.Step, w': Rally)
    requires Bounces(path, w) && (Follows(path, w, step, w') || Idles(w, w'))
    ensures Bounces(path, w')
  {
    if step.Host? { PingPong.HostInv(path, Abstract(w)); } else { PingPong.DeviceInv(path, Abstract(w), step); }
  }

  // ------------------------------------------------------------------ looks at a port

  /** A look finds the oldest unread event, and what its word says is what the device meant. */
  ghost predicate LooksRight(s: State) {
    && Sized(s.m) && InRange(s.p)
    && s.d.ev.taken <= |s.d.ev.log| && (EventQueue.IsMarker(Seen(s)) <==> s.d.ev.taken == |s.d.ev.log|)
    && (s.d.ev.taken < |s.d.ev.log| ==>
          var n := NoteOf(s.d.ev.log[s.d.ev.taken]);
          && (n == PingPong.Rx <==> Code(Seen(s)) == 0) && (n.Tx? <==> Code(Seen(s)) == 2)
          && (n.Tx? ==> Seen(s) % 0x1_0000 % RING == Slot(n.index))
          && SideOf(s.d).unread != [] && SideOf(s.d).unread[0] == n
          && SideOf(Consume(s).d) == SideOf(s.d).(unread := SideOf(s.d).unread[1..]))
  }

  lemma LookAt(s: State)
    requires Good(s)
    ensures LooksRight(s)
  {
    LookExact(s);
    if s.d.ev.taken < |s.d.ev.log| {
      assert GenuineAt(s.d.ev.log, s.d.rx.arrivals, s.d.tx.reported, s.d.ev.taken);
      SideDriver(s, []);
      MaskedIndex(s.d.ev.log[s.d.ev.taken].index);
    }
  }

  lemma TakeAt(s: State)
    requires Good(s) && !EventQueue.IsMarker(Seen(s))
    ensures s.d.ev.taken < |s.d.ev.log| && Good(Consume(s))
    ensures Debt(Consume(s).d) == Debt(s.d) + (if Code(Seen(s)) == 0 then 1 else 0)
  {
    LookExact(s);
    assert GenuineAt(s.d.ev.log, s.d.rx.arrivals, s.d.tx.reported, s.d.ev.taken);
    ConsumeGood(s);
  }

  lemma MaskedIndex(i: nat)
    ensures i % 0x1_0000 % RING == Slot(i)
  {
  }

  // ------------------------------------------------------------------ the host's steps

  lemma SendGood(path: PingPong.Path, w: Rally, frame: Bytes)
    requires Inv(path, w) && w.stage == PingPong.Sending && |frame| <= BUFFER_SIZE
    ensures Good(Submit(w.me, frame))
  {
    assert SideOf(w.me.d).posted == SideOf(w.me.d).sent;
    SubmitGood(w.me, frame);
  }

  lemma DirectGood(w: Rally)
    requires Inv(PingPong.DirectPath, w) && w.stage == PingPong.Receiving
    ensures Good(ReceiveDirectly(w).me) && Good(ReceiveDirectly(w).peer)
  {
    if |w.batch| < PingPong.BATCH && !EventQueue.IsMarker(Seen(w.peer)) && w.peer.d.ev.taken < |w.peer.d.ev.log| {
      TakeAt(w.peer);
    } else if PingPong.Rx in w.batch {
      PingPong.RxNotesZeroIff(w.batch);
      DebtIsPending(w.peer.m, w.peer.d, PingPong.RxNotes(w.batch));
      RecycleGood(w.peer);
    }
  }

  lemma IoctlGood(w: Rally)
    requires Inv(PingPong.IoctlPath, w) && w.stage == PingPong.Receiving
    ensures Good(ReceiveByIoctl(w).me) && Good(ReceiveByIoctl(w).peer)
  {
    if !EventQueue.IsMarker(Seen(w.peer)) {
      TakeAt(w.peer);
      if Code(Seen(w.peer)) == 0 { RecycleGood(Consume(w.peer)); }
    }
  }

  /** A host step keeps both ports sound: it posts into an empty ring, and re-posts a slot
      only when one is owed. */
  lemma HostGood(path: PingPong.Path, w: Rally, frame: Bytes)
    requires Inv(path, w) && |frame| <= BUFFER_SIZE
    ensures Good(HostStep(path, w, frame).me) && Good(HostStep(path, w, frame).peer)
  {
    match w.stage
    case Sending => SendGood(path, w, frame);
    case Awaiting => if !EventQueue.IsMarker(Seen(w.me)) { TakeAt(w.me); }
    case Receiving => if path == PingPong.IoctlPath { IoctlGood(w); } else { DirectGood(w); }
  }

  lemma SendFollows(path: PingPong.Path, w: Rally, frame: Bytes)
    requires Countable(w) && w.stage == PingPong.Sending && Usable(w)
    ensures Follows(path, w, PingPong.Host, HostStep(path, w, frame))
  {
  }

  lemma AwaitFollows(w: Rally)
    requires Countable(w) && w.stage == PingPong.Awaiting && Usable(w) && LooksRight(w.me)
    ensures Follows(PingPong.IoctlPath, w, PingPong.Host, Await(w))
  {
  }

  lemma IoctlFollows(w: Rally)
    requires Countable(w) && w.stage == PingPong.Receiving && Usable(w) && LooksRight(w.peer)
    ensures Follows(PingPong.IoctlPath, w, PingPong.Host, ReceiveByIoctl(w))
  {
  }

  lemma DirectFollows(w: Rally)
    requires Countable(w) && w.stage == PingPong.Receiving && Usable(w) && LooksRight(w.peer)
    ensures Follows(PingPong.DirectPath, w, PingPong.Host, ReceiveDirectly(w))
  {
  }

  lemma HostFollows(path: PingPong.Path, w: Rally, frame: Bytes)
    requires Countable(w) && Usable(w) && LooksRight(w.me) && LooksRight(w.peer)
    requires path == PingPong.DirectPath ==> w.stage != PingPong.Awaiting
    ensures Follows(path, w, PingPong.Host, HostStep(path, w, frame))
  {
    match w.stage
    case Sending => SendFollows(path, w, frame);
    case Awaiting => AwaitFollows(w);
    case Receiving => if path == PingPong.IoctlPath { IoctlFollows(w); } else { DirectFollows(w); }
  }

  /** The host touches neither wire. */
  lemma HostCarries(path: PingPong.Path, w: Rally, frame: Bytes)
    requires CarriedBoth(w) && Usable(w)
    ensures CarriedBoth(HostStep(path, w, frame))
  {
  }

  lemma HostInv(path: PingPong.Path, w: Rally, frame: Bytes)
    requires Inv(path, w) && |frame| <= BUFFER_SIZE
    ensures Inv(path, HostStep(path, w, frame))
  {
    HostGood(path, w, frame);
    LookAt(w.me);
    LookAt(w.peer);
    HostFollows(path, w, frame);
    FollowsBounces(path, w, PingPong.Host, HostStep(path, w, frame));
    HostCarries(path, w, frame);
  }

  // ------------------------------------------------------------------ devices and doorbells

  /** The step of the counted system an action of either port stands for. */
  function Named(mine: bool, act: Action): PingPong.Step {
    match act
    case Receive(_, _) => PingPong.Deliver(mine)
    case Send => PingPong.Send(mine)
    case Report(_) => PingPong.Report(mine)
    case Notify(_) => PingPong.Notify(mine)
  }

  /** What an action makes of its port's side. */
  ghost predicate SideMoves(d: Device, act: Action, d': Device) {
    && d.ev.taken == d'.ev.taken <= |d.ev.log| <= |d'.ev.log|
    && var p, p' := SideOf(d), SideOf(d');
       if !Enabled(d, act) then d' == d
       else match act
            case Receive(_, _) => PingPong.CanAccept(p) && p' == PingPong.Delivered(p)
            case Send => p.sent < p.posted && p' == p.(sent := p.sent + 1)
            case Report(_) => p' == PingPong.Reported(p)
            case Notify(_) => PingPong.Room(p) && p' == PingPong.Write(p, PingPong.Other)
  }

  lemma ActsSide(s: State, act: Action)
    requires Good(s)
    ensures SideMoves(s.d, act, Act(s.m, s.d, act).1)
  {
    ActInv(s.m, s.d, act);
    if Enabled(s.d, act) { SideAct(s.m, s.d, act); }
  }

  /** An action the device takes is the counted step of its name; any other changes nothing. */
  ghost predicate ActFollows(path: PingPong.Path, w: Rally, mine: bool, act: Action, w': Rally) {
    if Enabled(if mine then w.me.d else w.peer.d, act) then Follows(path, w, Named(mine, act), w') else Idles(w, w')
  }

  /** The action of `me`, in the counted system as a step of `me` or of its peer. */
  lemma ActsFollow(path: PingPong.Path, w: Rally, act: Action)
    requires Countable(w) && Allowed(w, Acts(true, act))
    requires SideMoves(w.me.d, act, Act(w.me.m, w.me.d, act).1)
    requires Wire.ActMoves(w.me.d, act, Act(w.me.m, w.me.d, act).1)
    ensures ActFollows(path, w, true, act, Mine(w, Acts(true, act)))
    ensures ActFollows(path, Turned(w), false, act, Turned(Mine(w, Acts(true, act))))
  {
  }

  lemma ActsCarry(w: Rally, act: Action)
    requires CarriedBoth(w) && Allowed(w, Acts(true, act))
    requires Wire.ActMoves(w.me.d, act, Act(w.me.m, w.me.d, act).1)
    ensures CarriedBoth(Mine(w, Acts(true, act)))
  {
    var d := Act(w.me.m, w.me.d, act).1;
    if |w.me.d.tx.wire| < |d.tx.wire| {
      assert d.tx.wire == w.me.d.tx.wire + [d.tx.wire[|w.me.d.tx.wire|]];
    }
    if |w.me.d.rx.arrivals| < |d.rx.arrivals| {
      Wire.FramesSnoc(w.me.d.rx.arrivals, act.packet);
      assert w.back == [w.back[0]] + w.back[1..];
    }
  }

  /** An action or a doorbell of `me` keeps everything, from whichever side it is seen. */
  lemma ActsInv(path: PingPong.Path, w: Rally, act: Action)
    requires Good(w.me) && Good(w.peer) && CarriedBoth(w) && Countable(w) && Allowed(w, Acts(true, act))
    ensures var w' := Mine(w, Acts(true, act));
            && Good(w'.me) && w'.peer == w.peer && CarriedBoth(w')
            && ActFollows(path, w, true, act, w')
            && ActFollows(path, Turned(w), false, act, Turned(w'))
  {
    Wire.ActsGood(w.me, act);
    ActsSide(w.me, act);
    Wire.ActsMove(w.me, act);
    ActsFollow(path, w, act);
    ActsCarry(w, act);
  }

  lemma MyActInv(path: PingPong.Path, w: Rally, act: Action)
    requires Inv(path, w) && Allowed(w, Acts(true, act))
    ensures Inv(path, Mine(w, Acts(true, act)))
  {
    ActsInv(path, w, act);
    FollowsBounces(path, w, Named(true, act), Mine(w, Acts(true, act)));
  }

  lemma TurnedCarries(w: Rally)
    requires CarriedBoth(w)
    ensures CarriedBoth(Turned(w))
  {
  }

  lemma TheirActInv(path: PingPong.Path, w: Rally, act: Action)
    requires Inv(path, w) && Allowed(w, Acts(false, act))
    ensures Inv(path, Turned(Mine(Turned(w), Acts(true, act))))
  {
    TurnedCarries(w);
    ActsInv(path, Turned(w), act);
    var v := Mine(Turned(w), Acts(true, act));
    assert Turned(Turned(w)) == w;
    FollowsBounces(path, w, Named(false, act), Turned(v));
    TurnedCarries(v);
  }

  lemma ActsStepInv(path: PingPong.Path, w: Rally, mine: bool, act: Action)
    requires Inv(path, w) && Allowed(w, Acts(mine, act))
    ensures Inv(path, Next(path, w, Acts(mine, act)))
  {
    if mine { MyActInv(path, w, act); } else { TheirActInv(path, w, act); }
  }

  lemma AckSide(s: State)
    requires Good(s)
    ensures Good(Acknowledge(s)) && SideOf(Acknowledge(s).d) == SideOf(s.d)
  {
    AcknowledgeGood(s);
    SideDriver(s, []);
  }

  lemma AckStepInv(path: PingPong.Path, w: Rally, mine: bool)
    requires Inv(path, w)
    ensures Inv(path, Next(path, w, Ack(mine)))
  {
    AckSide(if mine then w.me else w.peer);
    assert Abstract(Next(path, w, Ack(mine))) == Abstract(w);
  }

  lemma NextInv(path: PingPong.Path, w: Rally, step: Step)
    requires Inv(path, w) && Allowed(w, step)
    ensures Inv(path, Next(path, w, step))
  {
    match step
    case Host(frame) => HostInv(path, w, frame);
    case Ack(mine) => AckStepInv(path, w, mine);
    case Acts(mine, act) => ActsStepInv(path, w, mine, act);
  }

  lemma TheirActFollows(path: PingPong.Path, w: Rally, act: Action)
    requires Inv(path, w) && Allowed(w, Acts(false, act))
    ensures ActFollows(path, w, false, act, Turned(Mine(Turned(w), Acts(true, act))))
  {
    TurnedCarries(w);
    ActsInv(path, Turned(w), act);
    assert Turned(Turned(w)) == w;
  }

  /** Every host step is the counted host step; every action a device takes is the counted
      step of its name; doorbells of the event queues, and actions a device refuses, change
      nothing there. */
  lemma NextFollows(path: PingPong.Path, w: Rally, step: Step)
    requires Inv(path, w) && Allowed(w, step)
    ensures match step
            case Host(_) => Follows(path, w, PingPong.Host, Next(path, w, step))
            case Ack(_) => Idles(w, Next(path, w, step))
            case Acts(mine, act) => ActFollows(path, w, mine, act, Next(path, w, step))
  {
    match step
    case Host(frame) =>
      LookAt(w.me);
      LookAt(w.peer);
      HostFollows(path, w, frame);
    case Ack(mine) => AckSide(if mine then w.me else w.peer);
    case Acts(mine, act) => if mine { ActsInv(path, w, act); } else { TheirActFollows(path, w, act); }
  }

  // ------------------------------------------------------------------ runs

  ghost predicate Starts(w: Rally) {
    && Wire.Rested(w.me) && Wire.Rested(w.peer) && w.there == w.back == [] && w.batch == []
    && w.stage == PingPong.Sending && w.lost == w.halves == 0
    && w.me.d.tx.reported == w.peer.d.tx.reported == 0
  }

  ghost predicate Moved(path: PingPong.Path, w: Rally, step: Step, w': Rally) {
    Allowed(w, step) && w' == Next(path, w, step)
  }

  ghost predicate Run(path: PingPong.Path, ws: seq<Rally>, steps: seq<Step>) {
    && |ws| == |steps| + 1 && Starts(ws[0])
    && forall k: nat :: k < |steps| ==> Moved(path, ws[k], steps[k], ws[k + 1])
  }

  lemma StartsInv(path: PingPong.Path, w: Rally)
    requires Starts(w)
    ensures Inv(path, w)
  {
    StartsBouncing(path, w);
  }

  lemma StartsBouncing(path: PingPong.Path, w: Rally)
    requires Untouched(w.me.d) && Untouched(w.peer.d) && w.there == w.back == [] && w.batch == []
    requires w.stage == PingPong.Sending && w.lost == w.halves == 0
    ensures Bounces(path, w) && CarriedBoth(w)
  {
    IdleBounces(path, Abstract(w));
    NothingCarried(w.me.d, w.peer.d);
    NothingCarried(w.peer.d, w.me.d);
  }

  lemma NothingCarried(from: Device, onto: Device)
    requires from.tx.wire == [] && onto.rx.arrivals == []
    ensures Wire.Carried(from.tx.wire, [], onto.rx.arrivals)
  {
  }

  lemma IdleBounces(path: PingPong.Path, t: PingPong.World)
    requires PingPong.Idle(t.me) && PingPong.Idle(t.peer) && t.there == t.back == t.lost == t.halves == 0
    requires t.stage == PingPong.Sending && t.batch == [] && t.me.filled == t.peer.filled == 0
    ensures PingPong.Inv(path, t)
  {
  }

  /** Nothing has passed. */
  ghost predicate Untouched(d: Device) {
    && d.ev.log == [] && d.ev.taken == 0 && d.tx.submitted == d.tx.wire == [] && d.tx.reported == 0
    && d.rx.arrivals == [] && d.rx.done == 0
  }

  lemma {:induction false} RunInv(path: PingPong.Path, ws: seq<Rally>, steps: seq<Step>, k: nat)
    requires Run(path, ws, steps) && k < |ws|
    ensures Inv(path, ws[k])
  {
    if k == 0 {
      StartsInv(path, ws[0]);
    } else {
      RunInv(path, ws, steps, k - 1);
      assert Moved(path, ws[k - 1], steps[k - 1], ws[k]);
      NextInv(path, ws[k - 1], steps[k - 1]);
    }
  }

  /** Over every run of either path: both ports stay sound and agree with their NICs, no RX
      event is discarded, and at every send no slot is owed on either port. */
  lemma NothingIsOwedAtASend(path: PingPong.Path, ws: seq<Rally>, steps: seq<Step>, k: nat)
    requires Run(path, ws, steps) && k < |ws|
    ensures Good(ws[k].me) && Good(ws[k].peer) && ws[k].lost == 0
    ensures ws[k].stage == PingPong.Sending ==> Debt(ws[k].me.d) == 0 && Debt(ws[k].peer.d) == 0
    ensures Unsent(ws[k].me.d) <= 1 && Unsent(ws[k].peer.d) == 0
    ensures Wire.Frames(ws[k].peer.d.rx.arrivals) + ws[k].there == ws[k].me.d.tx.wire
    ensures Wire.Frames(ws[k].me.d.rx.arrivals) + ws[k].back == ws[k].peer.d.tx.wire
  {
    RunInv(path, ws, steps, k);
    var w := ws[k];
    DebtIsPending(w.me.m, w.me.d, 0);
    DebtIsPending(w.peer.m, w.peer.d, PingPong.RxNotes(w.batch));
  }
}
