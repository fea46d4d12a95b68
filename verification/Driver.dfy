/** The driver's single accesses to a port, shared by the ioctl handlers and by the mapped
    user path: both keep three ring indices and touch the same memory in the same order. */
module Driver {
  import opened Rings
  import EventQueue
  import opened Port

  /** `evq_read_ptr`, `tx_head` and `rx_head`. */
  datatype Pointers = Pointers(ev: nat, tx: nat, rx: nat)

  /** The NIC's true positions, reduced to the ring. */
  function Positions(d: Device): Pointers {
    Pointers(Slot(d.ev.taken), Slot(|d.tx.submitted|), Slot(d.rx.done))
  }

  predicate InRange(p: Pointers) {
    p.ev < RING && p.tx < RING && p.rx < RING
  }

  datatype State = State(m: Memory, d: Device, p: Pointers)

  ghost predicate Good(s: State) {
    Inv(s.m, s.d) && s.p == Positions(s.d)
  }

  /** Zero the slot just read and advance past it. */
  function Consume(s: State): State
    requires Sized(s.m) && InRange(s.p)
  {
    State(s.m.(ev := s.m.ev[s.p.ev := 0]),
          s.d.(ev := s.d.ev.(taken := s.d.ev.taken + 1)),
          s.p.(ev := (s.p.ev + 1) % RING))
  }

  /** Write the read pointer to the RPTR doorbell. */
  function Acknowledge(s: State): State
    requires InRange(s.p)
  {
    s.(d := s.d.(ev := s.d.ev.(acked := Recover(s.d.ev.acked, s.p.ev))))
  }

  /** Re-post the slot at `rx_head`, ring the RX doorbell with that index, then advance. */
  function Recycle(s: State): State
    requires Sized(s.m) && InRange(s.p)
  {
    State(s.m.(rxDesc := s.m.rxDesc[s.p.rx := Descriptor(BUFFER_SIZE, SlotAddress(s.d.rx.base, s.p.rx))]),
          s.d.(rx := s.d.rx.(done := s.d.rx.done + 1, adv := Recover(|s.d.rx.arrivals|, s.p.rx))),
          s.p.(rx := (s.p.rx + 1) % RING))
  }

  /** Copy the frame into the slot at `tx_head`, write its descriptor, ring the TX doorbell
      with the next index, then advance. There is no ring-full check. */
  function Submit(s: State, frame: Bytes): State
    requires Sized(s.m) && InRange(s.p)
  {
    State(s.m.(txBuf := s.m.txBuf[s.p.tx := Overlay(frame, s.m.txBuf[s.p.tx])],
               txDesc := s.m.txDesc[s.p.tx := Descriptor(|frame|, SlotAddress(s.d.tx.base, s.p.tx))]),
          s.d.(tx := s.d.tx.(submitted := s.d.tx.submitted + [frame],
                             adv := Recover(|s.d.tx.wire|, (s.p.tx + 1) % RING))),
          s.p.(tx := (s.p.tx + 1) % RING))
  }

  /** TX descriptors the NIC has not fetched yet. */
  function Unsent(d: Device): int {
    |d.tx.submitted| - |d.tx.wire|
  }

  // ------------------------------------------------------------------ what each access keeps

  /** The marker test answers whether anything is unread, and the word found is the oldest
      unread event's. */
  lemma LookExact(s: State)
    requires EvInv(s.m.ev, s.d.ev) && s.p.ev == Slot(s.d.ev.taken)
    ensures EventQueue.IsMarker(s.m.ev[s.p.ev]) <==> s.d.ev.taken == |s.d.ev.log|
    ensures s.d.ev.taken < |s.d.ev.log| ==> s.m.ev[s.p.ev] == s.d.ev.log[s.d.ev.taken].raw
  {
    if s.d.ev.taken < |s.d.ev.log| {
      EventQueue.RingHoldsTake(s.m.ev, Raws(s.d.ev.log), s.d.ev.taken);
    } else {
      assert EventQueue.Blank(s.m.ev, s.d.ev.taken);
    }
  }

  lemma ConsumeGood(s: State)
    requires Sized(s.m) && InRange(s.p) && Core(s.m, s.d) && s.p.ev == Slot(s.d.ev.taken)
    requires s.d.ev.taken < |s.d.ev.log|
    ensures Core(Consume(s).m, Consume(s).d) && (Good(s) ==> Good(Consume(s)))
    ensures Consume(s).p.ev == Slot(Consume(s).d.ev.taken)
    ensures Debt(Consume(s).d) == Debt(s.d) + (if s.d.ev.log[s.d.ev.taken].kind == RxEvent then 1 else 0)
  {
    EventQueue.RingHoldsTake(s.m.ev, Raws(s.d.ev.log), s.d.ev.taken);
    SlotSucc(s.d.ev.taken);
    CountRxSnoc(s.d.ev.log, s.d.ev.taken);
  }

  lemma AcknowledgeGood(s: State)
    requires InRange(s.p) && Core(s.m, s.d) && s.p.ev == Slot(s.d.ev.taken)
    ensures Core(s.m, Acknowledge(s).d) && (Good(s) ==> Good(Acknowledge(s)))
    ensures Acknowledge(s).d.ev.acked == s.d.ev.taken && Debt(Acknowledge(s).d) == Debt(s.d)
  {
    RecoverExact(s.d.ev.acked, s.d.ev.taken);
  }

  /** Consumed RX events have arrived: while one is owed, the slot at `rx_head` is filled. */
  lemma OwedIsFilled(m: Memory, d: Device)
    requires Inv(m, d)
    ensures d.rx.done + Debt(d) <= |d.rx.arrivals|
  {
    CountRxMonotone(d.ev.log, d.ev.taken);
  }

  lemma RecycleKeepsRx(desc: seq<Word>, buf: seq<Bytes>, r: RxSide)
    requires RxInv(desc, buf, r) && r.done < |r.arrivals|
    ensures Recover(|r.arrivals|, Slot(r.done)) == r.adv + 1
    ensures RxInv(desc[Slot(r.done) := Descriptor(BUFFER_SIZE, SlotAddress(r.base, Slot(r.done)))], buf,
                  r.(done := r.done + 1, adv := r.adv + 1))
  {
    RecoverLap(|r.arrivals|, r.done);
    var desc' := desc[Slot(r.done) := Descriptor(BUFFER_SIZE, SlotAddress(r.base, Slot(r.done)))];
    forall k | 0 <= k < RING
      ensures Describes(desc', r.base, k)
    {
      assert Describes(desc, r.base, k);
    }
  }

  /** Handing a slot back advances the NIC's producer by exactly one, on every lap. */
  lemma RecycleGood(s: State)
    requires Good(s) && Debt(s.d) > 0
    ensures Good(Recycle(s))
    ensures Recycle(s).d.rx.adv == s.d.rx.adv + 1 && Debt(Recycle(s).d) == Debt(s.d) - 1
  {
    OwedIsFilled(s.m, s.d);
    RecycleKeepsRx(s.m.rxDesc, s.m.rxBuf, s.d.rx);
    SlotSucc(s.d.rx.done);
  }

  /** The RX ring is as it should be. */
  ghost predicate RxSound(s: State) {
    RxInv(s.m.rxDesc, s.m.rxBuf, s.d.rx)
  }

  /** Re-posting the slot at `rx_head` keeps the RX ring right exactly if a packet has arrived
      in it. If none has, the doorbell comes round to the NIC's own fill position and takes
      every RX descriptor away from it. */
  lemma RecycleRingIff(s: State)
    requires Good(s)
    ensures RxSound(Recycle(s)) <==> s.d.rx.done < |s.d.rx.arrivals|
    ensures s.d.rx.done == |s.d.rx.arrivals| ==> Recycle(s).d.rx.adv == |s.d.rx.arrivals|
  {
    if s.d.rx.done < |s.d.rx.arrivals| {
      RecycleKeepsRx(s.m.rxDesc, s.m.rxBuf, s.d.rx);
    } else {
      RecoverExact(s.d.rx.done, s.d.rx.done);
    }
  }

  /** A packet that has arrived may also be taken before its event is: consuming the event
      afterwards comes to the same. */
  lemma RecycleEarly(s: State)
    requires Good(s) && s.d.rx.done < |s.d.rx.arrivals| && s.d.ev.taken < |s.d.ev.log|
    ensures Sized(Recycle(s).m) && InRange(Recycle(s).p)
    ensures Consume(Recycle(s)) == Recycle(Consume(s))
    ensures s.d.ev.log[s.d.ev.taken].kind == RxEvent ==> Good(Consume(Recycle(s)))
  {
    ConsumeGood(s);
    if s.d.ev.log[s.d.ev.taken].kind == RxEvent { RecycleGood(Consume(s)); }
  }

  ghost predicate NicOwns(r: RxSide, slot: nat) {
    exists i :: |r.arrivals| <= i < r.adv && Slot(i) == slot
  }

  /** The slot the driver copies out of is never one the NIC may write, and every slot the
      NIC may write is described by a descriptor that names it. */
  lemma RxOwnership(m: Memory, d: Device)
    requires Inv(m, d)
    ensures d.rx.adv == d.rx.done + RING - 1 && d.rx.adv - |d.rx.arrivals| < RING
    ensures Debt(d) > 0 ==> !NicOwns(d.rx, Slot(d.rx.done))
    ensures forall k :: 0 <= k < RING ==>
              SlotNamed(d.rx.base, m.rxDesc[k]) == k && DescCount(m.rxDesc[k]) == BUFFER_SIZE
  {
    OwedIsFilled(m, d);
    if Debt(d) > 0 {
      forall i | |d.rx.arrivals| <= i < d.rx.adv
        ensures Slot(i) != Slot(d.rx.done)
      {
        SlotsDistinct(d.rx.done, i);
      }
    }
    forall k | 0 <= k < RING
      ensures SlotNamed(d.rx.base, m.rxDesc[k]) == k && DescCount(m.rxDesc[k]) == BUFFER_SIZE
    {
      assert Describes(m.rxDesc, d.rx.base, k);
      SlotNamedExact(d.rx.base, k, BUFFER_SIZE);
    }
  }

  /** What the driver copies out of a slot that holds a packet is the packet's frame,
      provided the byte count it falls back on in cut-through mode is this packet's. */
  lemma FrameExact(slot: Bytes, p: Packet, rxBytes: nat)
    requires GoodPacket(p) && HoldsPacket(slot, p)
    requires LengthField(p.prefix) == 0 ==> rxBytes == PREFIX_LEN + |p.frame|
    ensures FrameLength(slot, rxBytes) == |p.frame|
    ensures slot[PREFIX_LEN..PREFIX_LEN + |p.frame|] == p.frame
  {
    var all := p.prefix + p.frame;
    assert slot[..|all|] == all;
    assert slot[8] == all[8] && slot[9] == all[9];
    assert slot[PREFIX_LEN..|all|] == all[PREFIX_LEN..] == p.frame;
  }

  lemma SubmitKeepsTx(desc: seq<Word>, buf: seq<Bytes>, t: TxSide, frame: Bytes)
    requires TxInv(desc, buf, t) && |frame| <= BUFFER_SIZE && t.adv - |t.wire| < RING - 1
    ensures var s := Slot(t.adv);
            && Recover(|t.wire|, Slot(t.adv + 1)) == t.adv + 1
            && TxInv(desc[s := Descriptor(|frame|, SlotAddress(t.base, s))], buf[s := Overlay(frame, buf[s])],
                     t.(submitted := t.submitted + [frame], adv := t.adv + 1))
  {
    var s := Slot(t.adv);
    RecoverExact(|t.wire|, t.adv + 1);
    var desc' := desc[s := Descriptor(|frame|, SlotAddress(t.base, s))];
    var buf' := buf[s := Overlay(frame, buf[s])];
    forall i | |t.wire| <= i < t.adv + 1
      ensures HoldsUnsent(desc', buf', t.base, t.submitted + [frame], i)
    {
      if i < t.adv {
        SlotsDistinct(i, t.adv);
        assert HoldsUnsent(desc, buf, t.base, t.submitted, i);
      }
    }
  }

  /** A frame posted with fewer than 511 unsent frames in the ring. */
  lemma SubmitGood(s: State, frame: Bytes)
    requires Good(s) && |frame| <= BUFFER_SIZE && Unsent(s.d) < RING - 1
    ensures Good(Submit(s, frame))
    ensures Submit(s, frame).d.tx.adv == s.d.tx.adv + 1 && Debt(Submit(s, frame).d) == Debt(s.d)
  {
    SlotSucc(s.d.tx.adv);
    SubmitKeepsTx(s.m.txDesc, s.m.txBuf, s.d.tx, frame);
  }

  lemma FullLapReadsAsNone(i: nat)
    ensures Recover(i, Slot(i + RING)) == i
  {
    RecoverExact(i, i);
    SlotLap(i);
  }

  /** The 512th unsent frame: the NIC now believes it owns no TX descriptor at all. */
  lemma SubmitWraps(s: State, frame: Bytes)
    requires Good(s) && Unsent(s.d) == RING - 1
    ensures Submit(s, frame).d.tx.adv == |s.d.tx.wire| && !Good(Submit(s, frame))
    ensures Wrapped(Submit(s, frame).m, Submit(s, frame).d.tx) && Weak(Submit(s, frame).m, Submit(s, frame).d)
  {
    var t := s.d.tx;
    SlotSucc(t.adv);
    FullLapReadsAsNone(|t.wire|);
    var s' := Submit(s, frame);
    assert |s'.d.tx.submitted| != s'.d.tx.adv;
  }

  /** Posting without a ring-full check is safe exactly below 511 unsent frames: at 511 the
      doorbell comes round to the NIC's own read pointer and reads as an empty ring. */
  lemma SubmitSafeIff(s: State, frame: Bytes)
    requires Good(s) && |frame| <= BUFFER_SIZE
    ensures Good(Submit(s, frame)) <==> Unsent(s.d) < RING - 1
  {
    if Unsent(s.d) < RING - 1 {
      SubmitGood(s, frame);
    } else {
      SubmitWraps(s, frame);
    }
  }

  // ------------------------------------------------------------------ attach-time seeding

  /** The device after INIT_EVQ/RXQ/TXQ and the first RX doorbell, which says 511. */
  function FreshDevice(rxBase: nat, txBase: nat): Device {
    Device(EvSide([], 0, 0), RxSide(rxBase, [], 0, Recover(0, RING - 1)), TxSide(txBase, [], [], 0, 0))
  }

  /** ... and before that doorbell. */
  function BlankDevice(rxBase: nat, txBase: nat): Device {
    Device(EvSide([], 0, 0), RxSide(rxBase, [], 0, 0), TxSide(txBase, [], [], 0, 0))
  }

  /** The state attach leaves behind, whatever the rings held before: the event ring is
      primed, all 512 RX descriptors are written, 511 are advertised. */
  ghost predicate Seeded(s: State) {
    && Sized(s.m) && s.m.ev == seq(RING, i => ALL_ONES)
    && s.d == FreshDevice(s.d.rx.base, s.d.tx.base) && s.p == Pointers(0, 0, 0)
    && s.d.rx.base + RING * BUFFER_SIZE <= 0x1_0000_0000_0000
    && s.d.tx.base + RING * BUFFER_SIZE <= 0x1_0000_0000_0000
    && (forall k :: 0 <= k < RING ==> |s.m.rxBuf[k]| == |s.m.txBuf[k]| == BUFFER_SIZE)
    && (forall k :: 0 <= k < RING ==> Describes(s.m.rxDesc, s.d.rx.base, k))
  }

  lemma SeededGood(s: State)
    requires Seeded(s)
    ensures Good(s) && Debt(s.d) == 0
  {
    RecoverExact(0, RING - 1);
  }

  // ------------------------------------------------------------------ runs of the mapped path

  /** One run-level state: the port, the byte counts of RX events reported by poll and not
      yet handed to `sfc7120_rx_recv`, and the frames the application has been given. */
  datatype Session = Session(s: State, owed: seq<nat>, got: seq<Bytes>)

  datatype Step = DeviceActs(a: Action) | Looks | Acks | Recvs | Posts(frame: Bytes)

  /** What `sfc7120_rx_recv` copies out of a slot, if the length it finds stays inside. */
  function Copied(slot: Bytes, rxBytes: nat): Bytes {
    if |slot| < PREFIX_LEN || PREFIX_LEN + FrameLength(slot, rxBytes) > |slot| then []
    else slot[PREFIX_LEN..PREFIX_LEN + FrameLength(slot, rxBytes)]
  }

  function Next(x: Session, step: Step): Session
    requires Sized(x.s.m) && InRange(x.s.p)
  {
    match step
    case DeviceActs(a) =>
      x.(s := x.s.(m := Act(x.s.m, x.s.d, a).0, d := Act(x.s.m, x.s.d, a).1))
    case Looks =>
      var w := x.s.m.ev[x.s.p.ev];
      if EventQueue.IsMarker(w) then x
      else x.(s := Consume(x.s), owed := if KindOf(w) == RxEvent then x.owed + [w % 0x4000] else x.owed)
    case Acks =>
      x.(s := Acknowledge(x.s))
    case Recvs =>
      if x.owed == [] then x
      else Session(Recycle(x.s), x.owed[1..], x.got + [Copied(x.s.m.rxBuf[x.s.p.rx], x.owed[0])])
    case Posts(frame) =>
      if 0 < |frame| <= BUFFER_SIZE && Unsent(x.s.d) < RING - 1
      then x.(s := Submit(x.s, frame)) else x
  }

  /** The byte counts owed belong to the arrivals next in line, and the application has
      every frame before them. */
  ghost predicate Paired(owed: seq<nat>, got: seq<Bytes>, r: RxSide) {
    && |got| == r.done
    && r.done + |owed| <= |r.arrivals|
    && (forall j :: 0 <= j < |got| ==> got[j] == r.arrivals[j].frame)
    && (forall j :: r.done <= j < r.done + |owed| ==> owed[j - r.done] == PREFIX_LEN + |r.arrivals[j].frame|)
  }

  ghost predicate SessionInv(x: Session) {
    Good(x.s) && |x.owed| == Debt(x.s.d) && Paired(x.owed, x.got, x.s.d.rx)
  }

  /** The event about to be consumed announces the arrival after those already owed. */
  lemma NextEventIsNextArrival(m: Memory, d: Device)
    requires Inv(m, d) && d.ev.taken < |d.ev.log| && d.ev.log[d.ev.taken].kind == RxEvent
    ensures d.rx.done + Debt(d) < |d.rx.arrivals|
    ensures d.ev.log[d.ev.taken].raw % 0x4000 == PREFIX_LEN + |d.rx.arrivals[d.rx.done + Debt(d)].frame|
  {
    assert GenuineAt(d.ev.log, d.rx.arrivals, d.tx.reported, d.ev.taken);
  }

  lemma LooksInv(x: Session)
    requires SessionInv(x)
    ensures SessionInv(Next(x, Looks))
  {
    var d := x.s.d;
    LookExact(x.s);
    if d.ev.taken < |d.ev.log| {
      ConsumeGood(x.s);
      assert GenuineAt(d.ev.log, d.rx.arrivals, d.tx.reported, d.ev.taken);
      if d.ev.log[d.ev.taken].kind == RxEvent {
        NextEventIsNextArrival(x.s.m, d);
      }
    }
  }

  lemma RecvsInv(x: Session)
    requires SessionInv(x) && x.owed != []
    ensures SessionInv(Next(x, Recvs))
  {
    var r := x.s.d.rx;
    assert x.owed[r.done - r.done] == PREFIX_LEN + |r.arrivals[r.done].frame|;
    assert HoldsArrival(x.s.m.rxBuf, r.arrivals, r.done);
    FrameExact(x.s.m.rxBuf[Slot(r.done)], r.arrivals[r.done], x.owed[0]);
    RecycleGood(x.s);
  }

  lemma NextInv(x: Session, step: Step)
    requires SessionInv(x)
    ensures SessionInv(Next(x, step))
  {
    match step
    case DeviceActs(a) =>
      ActsInv(x, a);
    case Looks =>
      LooksInv(x);
    case Acks =>
      AcknowledgeGood(x.s);
    case Recvs =>
      if x.owed != [] { RecvsInv(x); }
    case Posts(frame) =>
      PostsInv(x, frame);
  }

  lemma PostsInv(x: Session, frame: Bytes)
    requires SessionInv(x)
    ensures SessionInv(Next(x, Posts(frame)))
  {
    if 0 < |frame| <= BUFFER_SIZE && Unsent(x.s.d) < RING - 1 { SubmitGood(x.s, frame); }
  }

  lemma ActsInv(x: Session, a: Action)
    requires SessionInv(x)
    ensures SessionInv(Next(x, DeviceActs(a)))
  {
    ActInv(x.s.m, x.s.d, a);
  }

  ghost predicate Run(xs: seq<Session>, steps: seq<Step>) {
    && |xs| == |steps| + 1
    && Seeded(xs[0].s) && xs[0].owed == [] && xs[0].got == []
    && forall k :: 0 <= k < |steps| ==>
         Sized(xs[k].s.m) && InRange(xs[k].s.p) && xs[k + 1] == Next(xs[k], steps[k])
  }

  lemma {:induction false} RunInv(xs: seq<Session>, steps: seq<Step>, k: nat)
    requires Run(xs, steps) && k < |xs|
    ensures SessionInv(xs[k])
  {
    if k == 0 {
      SeededGood(xs[0].s);
    } else {
      RunInv(xs, steps, k - 1);
      NextInv(xs[k - 1], steps[k - 1]);
    }
  }

  /** Every interleaving of device actions with poll's slot reads, acknowledgements,
      `rx_recv` and windowed `tx_post`: the frames received are the frames that arrived, in
      order and each once; the frames on the wire are the frames posted, in order and
      unaltered; the slot copied from is never the NIC's. */
  lemma RunDelivers(xs: seq<Session>, steps: seq<Step>, k: nat)
    requires Run(xs, steps) && k < |xs|
    ensures var d := xs[k].s.d;
            && d.rx.done <= |d.rx.arrivals|
            && xs[k].got == seq(d.rx.done, j requires 0 <= j < d.rx.done => d.rx.arrivals[j].frame)
            && d.tx.wire <= d.tx.submitted
            && xs[k].s.p == Positions(d)
            && d.rx.adv == d.rx.done + RING - 1
            && (xs[k].owed != [] ==> !NicOwns(d.rx, xs[k].s.p.rx))
  {
    RunInv(xs, steps, k);
    RxOwnership(xs[k].s.m, xs[k].s.d);
  }
}
