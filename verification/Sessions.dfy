/** Attach sessions. INIT_EVQ/RXQ/TXQ run once per module load, so the NIC's positions
    outlive every session; the kernel's three indices must match them whenever a session
    starts. A session works through the ioctls or through the mapped path, and
    `sfc7120_destroy` copies the user's indices back only if the mapped path was used. */
module Sessions {
  import opened Rings
  import EventQueue
  import opened Port
  import opened Driver
  import opened Hardware
  import opened DirectPath
  import opened KernelPath

  // ------------------------------------------------------------------ the two ends of a session

  /** The seeding in `sfc7120_init` after `SFC7120_GET_VI_INFO`. */
  method Seed(u: UserIf, sc: Softc)
    modifies u`evqReadPtr, u`txHead, u`rxHead
    ensures u.evqReadPtr == sc.dataEvqReadPtr && u.txHead == sc.txHead && u.rxHead == sc.rxHead
    ensures u.nic == sc.nic && old(sc.Valid()) ==> u.Valid() && sc.Valid()
  {
    var p := sc.GetViInfo();
    u.evqReadPtr, u.txHead, u.rxHead := p.ev, p.tx, p.rx;
    assert u.nic == sc.nic && u.nic.Shaped() ==> u.View() == sc.View();
  }

  /** The sync in `sfc7120_destroy`. The kernel takes over the user's indices, if all three
      are slots, exactly when the mapped path was used; so whichever path owned the pointers,
      the kernel's are right afterwards. */
  method Sync(u: UserIf, sc: Softc) returns (rc: int)
    modifies sc`dataEvqReadPtr, sc`txHead, sc`rxHead
    ensures rc == if u.usedPoll && !InRange(Pointers(u.evqReadPtr, u.txHead, u.rxHead)) then EINVAL else 0
    ensures u.usedPoll && rc == 0 ==>
              sc.dataEvqReadPtr == u.evqReadPtr && sc.txHead == u.txHead && sc.rxHead == u.rxHead
    ensures !u.usedPoll || rc != 0 ==>
              && sc.dataEvqReadPtr == old(sc.dataEvqReadPtr) && sc.txHead == old(sc.txHead)
              && sc.rxHead == old(sc.rxHead)
    ensures u.nic == sc.nic && old(if u.usedPoll then u.Valid() else sc.Valid()) ==> rc == 0 && sc.Valid()
  {
    if !u.usedPoll { return 0; }
    rc := sc.SetEvqRptr(Pointers(u.evqReadPtr, u.txHead, u.rxHead));
    assert rc == 0 && u.nic == sc.nic && u.nic.Shaped() ==> sc.View() == u.View();
  }

  // ------------------------------------------------------------------ runs of sessions

  datatype Mode = Closed | Ioctl | Direct

  datatype System = System(m: Memory, d: Device, kern: Pointers, user: Pointers, mode: Mode, usedPoll: bool)

  datatype Access = Look | Acked | Recycled | Submitted(frame: Bytes)

  /** `Touch` goes through the indices of the session's own path, `Stray` through the mapped
      path of a session that works through the ioctls. */
  datatype Op = DeviceActs(a: Action) | Open(mode: Mode) | Touch(access: Access) | Stray(access: Access) | Close

  /** One driver access through a given set of indices, under the disciplines of the code's
      callers: recycle only a slot whose event was consumed, post only inside the window. */
  function Apply(s: State, access: Access): State
    requires Sized(s.m) && InRange(s.p)
  {
    match access
    case Look => if EventQueue.IsMarker(s.m.ev[s.p.ev]) then s else Consume(s)
    case Acked => Acknowledge(s)
    case Recycled => if s.d.ev.taken <= |s.d.ev.log| && Debt(s.d) > 0 then Recycle(s) else s
    case Submitted(frame) =>
      if 0 < |frame| <= BUFFER_SIZE && Unsent(s.d) < RING - 1 then Submit(s, frame) else s
  }

  lemma ApplyGood(s: State, access: Access)
    requires Good(s)
    ensures Good(Apply(s, access))
  {
    match access
    case Look =>
      LookExact(s);
      if s.d.ev.taken < |s.d.ev.log| { ConsumeGood(s); }
    case Acked => AcknowledgeGood(s);
    case Recycled => if Debt(s.d) > 0 { RecycleGood(s); }
    case Submitted(frame) =>
      if 0 < |frame| <= BUFFER_SIZE && Unsent(s.d) < RING - 1 { SubmitGood(s, frame); }
  }

  /** The indices in charge. */
  function Active(y: System): Pointers {
    if y.mode == Direct then y.user else y.kern
  }

  predicate Allowed(y: System, op: Op) {
    && Sized(y.m)
    && match op
       case DeviceActs(_) => true
       case Open(mode) => y.mode == Closed && mode != Closed
       case Touch(_) => y.mode != Closed && InRange(Active(y))
       case Stray(_) => y.mode == Ioctl && InRange(y.user)
       case Close => y.mode != Closed
  }

  function Step(y: System, op: Op): System
    requires Allowed(y, op)
  {
    match op
    case DeviceActs(a) => y.(m := Act(y.m, y.d, a).0, d := Act(y.m, y.d, a).1)
    case Open(mode) => y.(mode := mode, user := y.kern, usedPoll := false)
    case Touch(access) =>
      var s := Apply(State(y.m, y.d, Active(y)), access);
      if y.mode == Direct then y.(m := s.m, d := s.d, user := s.p, usedPoll := true)
      else y.(m := s.m, d := s.d, kern := s.p)
    case Stray(access) =>
      var s := Apply(State(y.m, y.d, y.user), access);
      y.(m := s.m, d := s.d, user := s.p, usedPoll := true)
    case Close => y.(mode := Closed, kern := if y.usedPoll then y.user else y.kern, usedPoll := false)
  }

  ghost predicate Next(y: System, op: Op, y': System) {
    Allowed(y, op) && y' == Step(y, op)
  }

  ghost predicate SystemInv(y: System) {
    && Good(State(y.m, y.d, Active(y)))
    && (y.mode == Direct && !y.usedPoll ==> y.user == y.kern)
    && (y.mode != Direct ==> !y.usedPoll)
  }

  lemma NextInv(y: System, op: Op)
    requires SystemInv(y) && Allowed(y, op) && !op.Stray?
    ensures SystemInv(Step(y, op))
  {
    match op
    case DeviceActs(a) =>
      ActInv(y.m, y.d, a);
    case Open(mode) =>
    case Touch(access) =>
      ApplyGood(State(y.m, y.d, Active(y)), access);
    case Close =>
  }

  ghost predicate Run(ys: seq<System>, ops: seq<Op>) {
    && |ys| == |ops| + 1
    && Starts(ys[0])
    && forall k: nat :: k < |ops| ==> Next(ys[k], ops[k], ys[k + 1])
  }

  ghost predicate Starts(y: System) {
    y.mode == Closed && !y.usedPoll && Seeded(State(y.m, y.d, y.kern))
  }

  /** Every session so far kept to one path. */
  ghost predicate Pure(ops: seq<Op>, k: nat) {
    forall i: nat :: i < k && i < |ops| ==> !ops[i].Stray?
  }

  lemma {:induction false} RunInv(ys: seq<System>, ops: seq<Op>, k: nat)
    requires Run(ys, ops) && k < |ys| && Pure(ops, k)
    ensures SystemInv(ys[k])
  {
    if k == 0 {
      SeededGood(State(ys[0].m, ys[0].d, ys[0].kern));
    } else {
      RunInv(ys, ops, k - 1);
      assert Next(ys[k - 1], ops[k - 1], ys[k]);
      NextInv(ys[k - 1], ops[k - 1]);
    }
  }

  // ------------------------------------------------------------------ agreement with the NIC

  /** Three indices as the NIC would have them: the slot of its own TX producer, the slot
      after its RX producer, and, for the events, the slot that lies as many unread events
      behind the one it writes next. */
  ghost predicate NicAgrees(m: Memory, d: Device, p: Pointers) {
    && Inv(m, d)
    && p.tx == Slot(d.tx.adv)
    && p.rx == Slot(d.rx.adv + 1)
    && p.ev < RING && Slot(p.ev + (|d.ev.log| - d.ev.taken)) == Slot(|d.ev.log|)
  }

  /** A look through the event index finds the oldest unread event, or a marker if there is
      none. */
  ghost predicate LooksRight(m: Memory, d: Device, p: Pointers)
    requires Inv(m, d) && p.ev < RING
  {
    if d.ev.taken == |d.ev.log| then EventQueue.IsMarker(m.ev[p.ev])
    else !EventQueue.IsMarker(m.ev[p.ev]) && m.ev[p.ev] == d.ev.log[d.ev.taken].raw
  }

  lemma SlotShift(a: nat, b: nat, n: nat)
    requires b < RING
    ensures Slot(b + n) == Slot(a + n) <==> b == Slot(a)
  {
  }

  lemma NicAgreesIff(m: Memory, d: Device, p: Pointers)
    requires Inv(m, d)
    ensures NicAgrees(m, d, p) <==> Good(State(m, d, p))
    ensures NicAgrees(m, d, p) ==> LooksRight(m, d, p)
  {
    SlotLap(d.rx.done);
    if p.ev < RING {
      SlotShift(d.ev.taken, p.ev, |d.ev.log| - d.ev.taken);
    }
    if Good(State(m, d, p)) { LookExact(State(m, d, p)); }
  }

  /** The arrival the next unread RX event announces, or the next one to come. */
  function NextArrival(log: seq<Event>, arrivals: nat, from: nat): nat
    requires from <= |log|
    decreases |log| - from
  {
    if from == |log| then arrivals
    else if log[from].kind == RxEvent then log[from].index
    else NextArrival(log, arrivals, from + 1)
  }

  lemma {:induction false} NextArrivalCounts(log: seq<Event>, arrivals: seq<Packet>, reported: nat, from: nat)
    requires LogInv(log, arrivals, reported) && from <= |log|
    ensures NextArrival(log, |arrivals|, from) == CountRx(log[..from])
    decreases |log| - from
  {
    if from == |log| {
      assert log[..from] == log;
    } else {
      assert GenuineAt(log, arrivals, reported, from);
      if log[from].kind != RxEvent {
        CountRxSnoc(log, from);
        NextArrivalCounts(log, arrivals, reported, from + 1);
      }
    }
  }

  /** `rx_head` stands at the slot of the next packet to be announced. */
  ghost predicate RxPaired(d: Device, p: Pointers) {
    d.ev.taken <= |d.ev.log| && p.rx == Slot(NextArrival(d.ev.log, |d.rx.arrivals|, d.ev.taken))
  }

  lemma RxPairedIff(m: Memory, d: Device, p: Pointers)
    requires NicAgrees(m, d, p)
    ensures RxPaired(d, p) <==> Debt(d) == 0
  {
    NicAgreesIff(m, d, p);
    NextArrivalCounts(d.ev.log, d.rx.arrivals, d.tx.reported, d.ev.taken);
    OwedIsFilled(m, d);
    if Debt(d) > 0 { SlotsDistinct(d.rx.done, d.rx.done + Debt(d)); }
  }

  /** For any sequence of sessions, each on one path, interleaved in any way with the device:
      whenever a session starts, the kernel's indices are the NIC's, the first look finds
      the oldest unread event, and the user's seeds are the same. */
  lemma SessionsAgree(ys: seq<System>, ops: seq<Op>, k: nat)
    requires Run(ys, ops) && k < |ops| && ops[k].Open? && Pure(ops, k)
    ensures NicAgrees(ys[k].m, ys[k].d, ys[k].kern) && LooksRight(ys[k].m, ys[k].d, ys[k].kern)
    ensures ys[k + 1].user == ys[k + 1].kern == ys[k].kern && ys[k + 1].d == ys[k].d && ys[k + 1].m == ys[k].m
  {
    RunInv(ys, ops, k);
    assert Next(ys[k], ops[k], ys[k + 1]);
    NicAgreesIff(ys[k].m, ys[k].d, ys[k].kern);
  }

  /** No RX event was consumed without its slot being recycled. */
  ghost predicate Settled(d: Device) {
    d.ev.taken <= |d.ev.log| && Debt(d) == 0
  }

  lemma DeviceKeepsDebt(ys: seq<System>, ops: seq<Op>, i: nat)
    requires Run(ys, ops) && i < |ops| && Pure(ops, i) && ops[i].DeviceActs?
    ensures ys[i + 1].mode == ys[i].mode && (Settled(ys[i + 1].d) <==> Settled(ys[i].d))
  {
    RunInv(ys, ops, i);
    assert Next(ys[i], ops[i], ys[i + 1]);
    ActInv(ys[i].m, ys[i].d, ops[i].a);
  }

  lemma CloseKeepsDevice(ys: seq<System>, ops: seq<Op>, i: nat)
    requires Run(ys, ops) && i < |ops| && ops[i].Close?
    ensures ys[i + 1].mode == Closed && ys[i + 1].d == ys[i].d
  {
    assert Next(ys[i], ops[i], ys[i + 1]);
  }

  /** Between sessions only the device moves, and a debt stays. */
  lemma {:induction false} BetweenSessions(ys: seq<System>, ops: seq<Op>, j: nat, k: nat)
    requires Run(ys, ops) && j < k <= |ops| && ops[j].Close? && Pure(ops, k)
    requires forall i: nat :: j < i < k ==> ops[i].DeviceActs?
    ensures ys[k].mode == Closed && (Settled(ys[k].d) <==> Settled(ys[j].d))
    decreases k
  {
    if j < k - 1 {
      BetweenSessions(ys, ops, j, k - 1);
      DeviceKeepsDebt(ys, ops, k - 1);
    } else {
      CloseKeepsDevice(ys, ops, j);
    }
  }

  /** A session finds `rx_head` at the slot of the next packet to be announced exactly when
      the session before left no RX event without its slot recycled. */
  lemma PairedAtOpenIff(ys: seq<System>, ops: seq<Op>, j: nat, k: nat)
    requires Run(ys, ops) && j < k < |ops| && ops[j].Close? && ops[k].Open? && Pure(ops, k)
    requires forall i: nat :: j < i < k ==> ops[i].DeviceActs?
    ensures RxPaired(ys[k].d, ys[k].kern) <==> Settled(ys[j].d)
  {
    BetweenSessions(ys, ops, j, k);
    SessionsAgree(ys, ops, k);
    RxPairedIff(ys[k].m, ys[k].d, ys[k].kern);
  }

  /** Every session so far closed with its RX events paired. */
  ghost predicate Disciplined(ys: seq<System>, ops: seq<Op>, k: nat)
    requires |ys| == |ops| + 1
  {
    forall i: nat :: i < k && i < |ops| && ops[i].Close? ==> Settled(ys[i].d)
  }

  lemma {:induction false} DisciplinedRun(ys: seq<System>, ops: seq<Op>, k: nat)
    requires Run(ys, ops) && k < |ys| && Pure(ops, k) && Disciplined(ys, ops, k)
    ensures ys[k].mode == Closed ==> Settled(ys[k].d)
  {
    if k == 0 {
      SeededGood(State(ys[0].m, ys[0].d, ys[0].kern));
    } else {
      DisciplinedRun(ys, ops, k - 1);
      assert Next(ys[k - 1], ops[k - 1], ys[k]);
      if ops[k - 1].DeviceActs? { DeviceKeepsDebt(ys, ops, k - 1); }
    }
  }

  /** With every session keeping RX events paired with slots, all of it holds at every start:
      the three indices are the NIC's and `rx_head` is where the next packet will be found. */
  lemma DisciplinedSessionsAgree(ys: seq<System>, ops: seq<Op>, k: nat)
    requires Run(ys, ops) && k < |ops| && ops[k].Open? && Pure(ops, k) && Disciplined(ys, ops, k)
    ensures NicAgrees(ys[k].m, ys[k].d, ys[k].kern) && RxPaired(ys[k].d, ys[k].kern)
  {
    SessionsAgree(ys, ops, k);
    DisciplinedRun(ys, ops, k);
    assert Next(ys[k], ops[k], ys[k + 1]);
    RxPairedIff(ys[k].m, ys[k].d, ys[k].kern);
  }

  // ------------------------------------------------------------------ mixing the paths

  /** All three of the driver's positions differ by whole laps. */
  predicate WholeLaps(a: Device, b: Device) {
    && (b.ev.taken - a.ev.taken) % RING == 0
    && (|b.tx.submitted| - |a.tx.submitted|) % RING == 0
    && (b.rx.done - a.rx.done) % RING == 0
  }

  lemma WholeLapsIff(a: Device, b: Device)
    ensures WholeLaps(a, b) <==> Positions(a) == Positions(b)
  {
    SameSlotIff(a.ev.taken, b.ev.taken);
    SameSlotIff(|a.tx.submitted|, |b.tx.submitted|);
    SameSlotIff(a.rx.done, b.rx.done);
  }

  lemma SameSlotIff(a: nat, b: nat)
    ensures (b - a) % RING == 0 <==> Slot(a) == Slot(b)
  {
  }

  /** An access moves its index and the position it stands for together, right or wrong. */
  lemma ApplyKeepsPhase(s: State, access: Access)
    requires Sized(s.m) && InRange(s.p)
    ensures var t := Apply(s, access);
            Sized(t.m) && InRange(t.p) && (t.p == Positions(t.d) <==> s.p == Positions(s.d))
  {
    SlotSucc(s.d.ev.taken);
    SlotSucc(|s.d.tx.submitted|);
    SlotSucc(s.d.rx.done);
    SuccInjective(s.p.ev, Slot(s.d.ev.taken));
    SuccInjective(s.p.tx, Slot(|s.d.tx.submitted|));
    SuccInjective(s.p.rx, Slot(s.d.rx.done));
  }

  lemma SuccInjective(a: nat, b: nat)
    requires a < RING && b < RING
    ensures (a + 1) % RING == (b + 1) % RING <==> a == b
  {
  }

  lemma ActKeepsPositions(m: Memory, d: Device, a: Action)
    requires Sized(m)
    ensures Positions(Act(m, d, a).1) == Positions(d) && Sized(Act(m, d, a).0)
  {
  }

  /** The ioctl part of a session leaves the user's seed alone. */
  lemma {:induction false} SeedStays(ys: seq<System>, ops: seq<Op>, j: nat, k: nat)
    requires Run(ys, ops) && j < k <= |ops| && ops[j] == Open(Ioctl) && Pure(ops, k)
    requires forall i: nat :: j < i < k ==> ops[i].DeviceActs? || ops[i].Touch?
    ensures ys[k].mode == Ioctl && ys[k].user == Positions(ys[j].d)
    decreases k
  {
    if j < k - 1 {
      SeedStays(ys, ops, j, k - 1);
      SeedStep(ys, ops, k - 1);
    } else {
      SeedTaken(ys, ops, j);
    }
  }

  lemma SeedStep(ys: seq<System>, ops: seq<Op>, i: nat)
    requires Run(ys, ops) && i < |ops| && ys[i].mode == Ioctl && (ops[i].DeviceActs? || ops[i].Touch?)
    ensures ys[i + 1].mode == Ioctl && ys[i + 1].user == ys[i].user
  {
    assert Next(ys[i], ops[i], ys[i + 1]);
  }

  lemma SeedTaken(ys: seq<System>, ops: seq<Op>, j: nat)
    requires Run(ys, ops) && j < |ops| && ops[j] == Open(Ioctl) && Pure(ops, j)
    ensures ys[j + 1].mode == Ioctl && ys[j + 1].user == Positions(ys[j].d)
  {
    RunInv(ys, ops, j);
    assert Next(ys[j], ops[j], ys[j + 1]);
  }

  lemma StrayStep(y: System, op: Op)
    requires Allowed(y, op) && (op.DeviceActs? || op.Stray?) && InRange(y.user)
    ensures var z := Step(y, op);
            && z.mode == y.mode && InRange(z.user) && Sized(z.m) && (z.usedPoll <==> y.usedPoll || op.Stray?)
            && (Good(State(y.m, y.d, y.user)) ==> Good(State(z.m, z.d, z.user)))
            && (z.user == Positions(z.d) <==> y.user == Positions(y.d))
  {
    if op.Stray? {
      var s := State(y.m, y.d, y.user);
      ApplyKeepsPhase(s, op.access);
      if Good(s) { ApplyGood(s, op.access); }
    } else {
      ActKeepsPositions(y.m, y.d, op.a);
      if Inv(y.m, y.d) { ActInv(y.m, y.d, op.a); }
    }
  }

  /** The mapped part: in phase it keeps everything, out of phase it stays out of phase. */
  lemma {:induction false} StrayPart(ys: seq<System>, ops: seq<Op>, f: nat, k: nat)
    requires Run(ys, ops) && f < k <= |ops| && ops[f].Stray?
    requires forall i: nat :: f < i < k ==> ops[i].DeviceActs? || ops[i].Stray?
    ensures ys[k].mode == Ioctl && ys[k].usedPoll && InRange(ys[k].user) && Sized(ys[k].m)
    ensures Good(State(ys[f].m, ys[f].d, ys[f].user)) ==> Good(State(ys[k].m, ys[k].d, ys[k].user))
    ensures ys[f].user != Positions(ys[f].d) ==> ys[k].user != Positions(ys[k].d)
    decreases k
  {
    assert Next(ys[k - 1], ops[k - 1], ys[k]);
    if f < k - 1 { StrayPart(ys, ops, f, k - 1); }
    StrayStep(ys[k - 1], ops[k - 1]);
  }

  /** A session that opens at `j`, works through the ioctls, touches the mapped path from
      `f` on, whatever those accesses find at the stale indices, and closes at `k`: the
      kernel agrees with the NIC afterwards exactly when the ioctl part had moved each of
      the three positions by a whole number of laps. */
  lemma MixedSessionAgreesIff(ys: seq<System>, ops: seq<Op>, j: nat, f: nat, k: nat)
    requires Run(ys, ops) && j < f < k < |ops| && Pure(ops, f)
    requires ops[j] == Open(Ioctl) && ops[f].Stray? && ops[k] == Close
    requires forall i: nat :: j < i < f ==> ops[i].DeviceActs? || ops[i].Touch?
    requires forall i: nat :: f < i < k ==> ops[i].DeviceActs? || ops[i].Stray?
    ensures var y := ys[k + 1];
            NicAgrees(y.m, y.d, y.kern) <==> WholeLaps(ys[j].d, ys[f].d)
  {
    RunInv(ys, ops, f);
    SeedStays(ys, ops, j, f);
    StrayPart(ys, ops, f, k);
    WholeLapsIff(ys[j].d, ys[f].d);
    var y := ys[k + 1];
    assert Next(ys[k], ops[k], y);
    if Inv(y.m, y.d) { NicAgreesIff(y.m, y.d, y.kern); }
  }

  /** A session opened, one frame posted through the ioctl path, and sent. */
  lemma FirstFrame(y0: System, first: Bytes) returns (y1: System, y2: System, y3: System)
    requires Starts(y0) && 0 < |first| <= BUFFER_SIZE
    ensures Next(y0, Open(Ioctl), y1) && Next(y1, Touch(Submitted(first)), y2)
    ensures Next(y2, Op.DeviceActs(Send), y3)
    ensures y3.mode == Ioctl && y3.user == Pointers(0, 0, 0) && Good(State(y3.m, y3.d, y3.kern))
    ensures y3.d.tx.submitted == y3.d.tx.wire == [first] && y3.d.ev.taken == |y3.d.ev.log| == 0
  {
    SeededGood(State(y0.m, y0.d, y0.kern));
    y1 := Step(y0, Open(Ioctl));
    SubmitGood(State(y1.m, y1.d, y1.kern), first);
    y2 := Step(y1, Touch(Submitted(first)));
    SendKeepsTx(y2.m.txDesc, y2.m.txBuf, y2.d.tx);
    ActInv(y2.m, y2.d, Send);
    y3 := Step(y2, Op.DeviceActs(Send));
  }

  /** An empty poll through the mapped path, the close, and another frame. */
  lemma SecondFrame(y3: System, second: Bytes) returns (y4: System, y5: System, y6: System, y7: System)
    requires y3.mode == Ioctl && y3.user == Pointers(0, 0, 0) && Good(State(y3.m, y3.d, y3.kern))
    requires |y3.d.tx.submitted| == |y3.d.tx.wire| == 1 && y3.d.ev.taken == |y3.d.ev.log| == 0
    requires 0 < |second| <= BUFFER_SIZE
    ensures Next(y3, Stray(Look), y4) && Next(y4, Close, y5) && Next(y5, Open(Ioctl), y6)
    ensures Next(y6, Touch(Submitted(second)), y7)
    ensures !NicAgrees(y5.m, y5.d, y5.kern)
    ensures y7.d.tx == y3.d.tx.(submitted := y3.d.tx.submitted + [second], adv := 1)
  {
    LookExact(State(y3.m, y3.d, y3.user));
    y4 := Step(y3, Stray(Look));
    y5 := Step(y4, Close);
    y6 := Step(y5, Open(Ioctl));
    RecoverExact(1, 1);
    y7 := Step(y6, Touch(Submitted(second)));
  }

  /** One transmission is enough: after a poll that finds nothing the close rewinds `tx_head`,
      and the next session's frame goes to a slot the NIC is already past, with a doorbell
      that tells it nothing new. The frame is never sent. */
  lemma MixedSessionLosesFrame(y0: System, first: Bytes, second: Bytes)
    returns (ys: seq<System>, ops: seq<Op>)
    requires Starts(y0) && 0 < |first| <= BUFFER_SIZE && 0 < |second| <= BUFFER_SIZE
    ensures Run(ys, ops) && ys[0] == y0
    ensures ops == [Open(Ioctl), Touch(Submitted(first)), Op.DeviceActs(Send), Stray(Look), Close,
                    Open(Ioctl), Touch(Submitted(second))]
    ensures var y := ys[5]; !NicAgrees(y.m, y.d, y.kern)
    ensures var d := ys[7].d;
            d.tx.submitted == [first, second] && d.tx.wire == [first] && d.tx.adv == 1 && !Enabled(d, Send)
  {
    var y1, y2, y3 := FirstFrame(y0, first);
    var y4, y5, y6, y7 := SecondFrame(y3, second);
    ys := [y0, y1, y2, y3, y4, y5, y6, y7];
    ops := [Open(Ioctl), Touch(Submitted(first)), Op.DeviceActs(Send), Stray(Look), Close,
            Open(Ioctl), Touch(Submitted(second))];
  }
}
