/** userlib/sfc7120_user.c: the mapped data path. */
module DirectPath {
  import opened Rings
  import opened Options
  import EventQueue
  import opened Port
  import opened Driver
  import opened Hardware

  /** `sfc7120_ev_t`. */
  datatype UserEvent = UserEvent(kind: Kind, txDescIdx: nat, rxBytes: nat, raw: Word)

  /** A decoded event says what the device meant by it. */
  ghost predicate Means(u: UserEvent, e: Event, arrivals: seq<Packet>) {
    && u.raw == e.raw && u.kind == e.kind
    && u.txDescIdx == (if e.kind == TxEvent then e.index % 0x1_0000 else 0)
    && (e.kind == RxEvent ==> e.index < |arrivals| && u.rxBytes == PREFIX_LEN + |arrivals[e.index].frame|)
    && (e.kind != RxEvent ==> u.rxBytes == 0)
  }

  ghost predicate AllMean(us: seq<UserEvent>, log: seq<Event>, from: nat, arrivals: seq<Packet>) {
    from + |us| <= |log| && forall j :: 0 <= j < |us| ==> MeansAt(us, log, from, arrivals, j)
  }

  ghost predicate MeansAt(us: seq<UserEvent>, log: seq<Event>, from: nat, arrivals: seq<Packet>, j: nat)
    requires j < |us| && from + |us| <= |log|
  {
    Means(us[j], log[from + j], arrivals)
  }

  /** From `d` to `d'` the device may have moved on, and the driver has consumed exactly the
      events `us`: the oldest ones unread in `d`, in order. */
  ghost predicate Polled(d: Device, d': Device, us: seq<UserEvent>) {
    && Meanwhile(d, d')
    && d'.ev.taken == d.ev.taken + |us|
    && AllMean(us, d'.ev.log, d.ev.taken, d'.rx.arrivals)
  }

  lemma AllMeanGrows(us: seq<UserEvent>, log: seq<Event>, log': seq<Event>, from: nat,
                     arrivals: seq<Packet>, arrivals': seq<Packet>)
    requires AllMean(us, log, from, arrivals) && log <= log' && arrivals <= arrivals'
    ensures AllMean(us, log', from, arrivals')
  {
    forall j | 0 <= j < |us|
      ensures MeansAt(us, log', from, arrivals', j)
    {
      assert MeansAt(us, log, from, arrivals, j);
    }
  }

  lemma AllMeanSnoc(us: seq<UserEvent>, log: seq<Event>, from: nat, arrivals: seq<Packet>, u: UserEvent)
    requires AllMean(us, log, from, arrivals) && from + |us| < |log| && Means(u, log[from + |us|], arrivals)
    ensures AllMean(us + [u], log, from, arrivals)
  {
    forall j | 0 <= j < |us| + 1
      ensures MeansAt(us + [u], log, from, arrivals, j)
    {
      if j < |us| {
        assert MeansAt(us, log, from, arrivals, j);
      }
    }
  }

  lemma PolledMore(d: Device, d1: Device, d2: Device, us: seq<UserEvent>, u: Option<UserEvent>)
    requires Polled(d, d1, us)
    requires Meanwhile(d1, d2)
    requires u.None? ==> d2.ev.taken == d1.ev.taken
    requires u.Some? ==> d2.ev.taken == d1.ev.taken + 1 <= |d2.ev.log|
                         && Means(u.value, d2.ev.log[d1.ev.taken], d2.rx.arrivals)
    ensures Polled(d, d2, if u.Some? then us + [u.value] else us)
  {
    var t := d.ev.taken;
    MeanwhileTransitive(d, d1, d2);
    AllMeanGrows(us, d1.ev.log, d2.ev.log, t, d1.rx.arrivals, d2.rx.arrivals);
    if u.Some? {
      AllMeanSnoc(us, d2.ev.log, t, d2.rx.arrivals, u.value);
    }
  }

  lemma DecodeMeans(d: Device, i: nat, u: UserEvent)
    requires LogInv(d.ev.log, d.rx.arrivals, d.tx.reported) && i < |d.ev.log| && u.raw == d.ev.log[i].raw
    requires u.kind == KindOf(u.raw)
    requires u.txDescIdx == if Code(u.raw) == 2 then u.raw % 0x1_0000 else 0
    requires u.rxBytes == if Code(u.raw) == 0 then u.raw % 0x4000 else 0
    ensures Means(u, d.ev.log[i], d.rx.arrivals)
  {
    assert GenuineAt(d.ev.log, d.rx.arrivals, d.tx.reported, i);
  }

  /** The byte count is the one reported for the oldest packet not yet received; it matters
      only in cut-through mode. */
  ghost predicate Announced(r: RxSide, rxBytes: nat) {
    r.done < |r.arrivals| && |r.arrivals[r.done].prefix| == PREFIX_LEN
    && (LengthField(r.arrivals[r.done].prefix) == 0 ==> rxBytes == PREFIX_LEN + |r.arrivals[r.done].frame|)
  }

  /** A packet is in the slot at `rx_head`. */
  ghost predicate Arrived(r: RxSide) { r.done < |r.arrivals| }

  lemma RecycleTells(s: State)
    requires Good(s)
    ensures RxSound(Recycle(s)) <==> Arrived(s.d.rx)
    ensures !Arrived(s.d.rx) ==> Recycle(s).d.rx.adv == |s.d.rx.arrivals|
    ensures Debt(s.d) > 0 ==> Arrived(s.d.rx) && Good(Recycle(s))
    ensures Arrived(s.d.rx) ==>
              Recycle(s).d == s.d.(rx := s.d.rx.(done := s.d.rx.done + 1, adv := s.d.rx.adv + 1))
  {
    RecycleRingIff(s);
    OwedIsFilled(s.m, s.d);
    if Debt(s.d) > 0 { RecycleGood(s); }
    if Arrived(s.d.rx) { RecycleKeepsRx(s.m.rxDesc, s.m.rxBuf, s.d.rx); }
  }

  lemma SlotHolds(s: State, rxBytes: nat)
    requires Good(s)
    ensures |s.m.rxBuf[s.p.rx]| == BUFFER_SIZE
    ensures Announced(s.d.rx, rxBytes) ==>
              FrameLength(s.m.rxBuf[s.p.rx], rxBytes) == |s.d.rx.arrivals[s.d.rx.done].frame|
              && Copied(s.m.rxBuf[s.p.rx], rxBytes) == s.d.rx.arrivals[s.d.rx.done].frame
  {
    if Announced(s.d.rx, rxBytes) {
      assert HoldsArrival(s.m.rxBuf, s.d.rx.arrivals, s.d.rx.done);
      FrameExact(s.m.rxBuf[s.p.rx], s.d.rx.arrivals[s.d.rx.done], rxBytes);
    }
  }

  /** `sfc7120_if_t`. `mapped` stands for the region and slice pointers being set. */
  class UserIf {
    const nic: Nic
    var mapped: bool
    var evqReadPtr: nat
    var txHead: nat
    var rxHead: nat
    var usedPoll: bool

    constructor (nic: Nic, seed: Pointers)
      ensures this.nic == nic && mapped && !usedPoll
      ensures evqReadPtr == seed.ev && txHead == seed.tx && rxHead == seed.rx
    {
      this.nic, mapped, usedPoll := nic, true, false;
      evqReadPtr, txHead, rxHead := seed.ev, seed.tx, seed.rx;
    }

    ghost function View(): State
      requires nic.Shaped()
      reads this, nic, nic.evRing, nic.rxRing, nic.rxBuffer, nic.txRing, nic.txBuffer
    {
      State(nic.Mem(), nic.d, Pointers(evqReadPtr, txHead, rxHead))
    }

    ghost predicate Valid()
      reads this, nic, nic.evRing, nic.rxRing, nic.rxBuffer, nic.txRing, nic.txBuffer
    {
      nic.Shaped() && Good(View())
    }

    /** The device may act; then the slot at the read pointer is looked at. */
    method Look() returns (ev: Word)
      requires Valid()
      modifies nic`d, nic`agenda, nic.evRing, nic.rxBuffer
      ensures Valid() && Later(old(nic.d), nic.d)
      ensures EventQueue.IsMarker(ev) <==> nic.d.ev.taken == |nic.d.ev.log|
      ensures !EventQueue.IsMarker(ev) ==> ev == nic.d.ev.log[nic.d.ev.taken].raw
    {
      nic.Runs();
      ev := nic.evRing[evqReadPtr];
      LookExact(View());
    }

    /** Zero the slot and step the read pointer. */
    method StepOver()
      requires Valid() && nic.d.ev.taken < |nic.d.ev.log|
      modifies this`evqReadPtr, nic`d, nic.evRing
      ensures Valid()
      ensures nic.d == old(nic.d).(ev := old(nic.d.ev).(taken := old(nic.d.ev.taken) + 1))
    {
      ghost var s := View();
      ConsumeGood(s);
      nic.evRing[evqReadPtr] := 0;
      evqReadPtr := (evqReadPtr + 1) % RING;
      nic.d := nic.d.(ev := nic.d.ev.(taken := nic.d.ev.taken + 1));
      assert View() == Consume(s);
    }

    /** The RPTR doorbell. */
    method RingReadPtr()
      requires Valid()
      modifies nic`d
      ensures Valid()
      ensures nic.d == old(nic.d).(ev := old(nic.d.ev).(acked := old(nic.d.ev.taken)))
    {
      ghost var s := View();
      AcknowledgeGood(s);
      nic.d := nic.d.(ev := nic.d.ev.(acked := Recover(nic.d.ev.acked, evqReadPtr % 0x8000)));
      assert View() == Acknowledge(s);
    }

    /** One turn of poll's loop: look, stop on a marker, otherwise decode and consume. */
    method TakeOne() returns (r: Option<UserEvent>)
      requires Valid()
      modifies this`evqReadPtr, nic`d, nic`agenda, nic.evRing, nic.rxBuffer
      ensures Valid() && Meanwhile(old(nic.d), nic.d)
      ensures r.None? ==> nic.d.ev.taken == |nic.d.ev.log| && nic.d.ev.taken == old(nic.d.ev.taken)
      ensures r.Some? ==> nic.d.ev.taken == old(nic.d.ev.taken) + 1
                          && Means(r.value, nic.d.ev.log[old(nic.d.ev.taken)], nic.d.rx.arrivals)
    {
      var ev := Look();
      if EventQueue.IsMarker(ev) {
        return None;
      }
      var u: UserEvent;
      var code := Code(ev);
      if code == 0 {
        u := UserEvent(RxEvent, 0, ev % 0x4000, ev);
      } else if code == 2 {
        u := UserEvent(TxEvent, ev % 0x1_0000, 0, ev);
      } else {
        u := UserEvent(OtherEvent, 0, 0, ev);
      }
      DecodeMeans(nic.d, nic.d.ev.taken, u);
      StepOver();
      return Some(u);
    }

    /** The loop of `sfc7120_poll`. */
    method Drain(maxEvs: nat) returns (evs: seq<UserEvent>)
      requires Valid()
      modifies this`evqReadPtr, nic`d, nic`agenda, nic.evRing, nic.rxBuffer
      ensures Valid() && Polled(old(nic.d), nic.d, evs)
      ensures |evs| <= maxEvs
      ensures |evs| < maxEvs ==> nic.d.ev.taken == |nic.d.ev.log|
    {
      evs := [];
      ghost var d0 := nic.d;
      while |evs| < maxEvs
        invariant Valid() && Polled(d0, nic.d, evs)
        invariant |evs| <= maxEvs
      {
        ghost var d1 := nic.d;
        var u := TakeOne();
        PolledMore(d0, d1, nic.d, evs, u);
        if u.None? {
          break;
        }
        evs := evs + [u.value];
      }
    }

    /** `sfc7120_poll`. Whatever the device does meanwhile, the events returned are the
        oldest unread ones in order, decoded as meant, and the call comes back short only
        when nothing is unread. */
    method Poll(maxEvs: int) returns (n: int, evs: seq<UserEvent>)
      requires Valid()
      modifies this`evqReadPtr, this`usedPoll, nic`d, nic`agenda, nic.evRing, nic.rxBuffer
      ensures Valid()
      ensures maxEvs <= 0 || !mapped ==> n == -1 && evs == [] && nic.d == old(nic.d) && usedPoll == old(usedPoll)
      ensures maxEvs > 0 && mapped ==>
                && n == |evs| <= maxEvs && usedPoll
                && Polled(old(nic.d), nic.d.(ev := nic.d.ev.(acked := old(nic.d.ev.acked))), evs)
                && (n < maxEvs ==> nic.d.ev.taken == |nic.d.ev.log|)
                && nic.d.ev.acked == (if n > 0 then nic.d.ev.taken else old(nic.d.ev.acked))
    {
      n, evs := -1, [];
      if maxEvs <= 0 || !mapped {
        return;
      }
      usedPoll := true;
      evs := Drain(maxEvs);
      n := |evs|;
      if n > 0 {
        RingReadPtr();
      }
    }

    /** `sfc7120_rx_recv`. The slot at `rx_head` goes back to the NIC in any case; the RX ring
        stays right exactly if a packet has arrived in it, of which an RX event consumed and
        not yet paid for is the sign a caller can see. Then the frame copied out is the oldest
        one not yet received. */
    method RxRecv(rxBytes: nat) returns (rc: int, frame: Bytes)
      requires Valid()
      modifies this`rxHead, this`usedPoll, nic`d, nic.rxRing
      ensures !mapped ==> rc == -1 && frame == [] && View() == old(View()) && usedPoll == old(usedPoll)
      ensures mapped ==> rc == 0 && usedPoll && View() == Recycle(old(View()))
      ensures mapped ==> (RxSound(View()) <==> old(Arrived(nic.d.rx)))
      ensures mapped ==> Says(nic.rxRing[old(rxHead)], BUFFER_SIZE, nic.d.rx.base, old(rxHead))
      ensures mapped && !old(Arrived(nic.d.rx)) ==> nic.d.rx.adv == |nic.d.rx.arrivals|
      ensures mapped && old(Debt(nic.d)) > 0 ==> old(Arrived(nic.d.rx)) && Valid()
      ensures mapped && old(Arrived(nic.d.rx)) ==>
                && nic.d == old(nic.d).(rx := old(nic.d.rx).(done := old(nic.d.rx.done) + 1,
                                                             adv := old(nic.d.rx.adv) + 1))
                && (Announced(old(nic.d.rx), rxBytes) ==> frame == old(nic.d.rx).arrivals[old(nic.d.rx).done].frame)
    {
      rc, frame := -1, [];
      if !mapped {
        return;
      }
      usedPoll := true;
      ghost var s := View();
      RecycleTells(s);
      frame := CopyOut(rxBytes);
      nic.rxRing[rxHead] := Descriptor(BUFFER_SIZE, SlotAddress(nic.d.rx.base, rxHead));
      nic.d := nic.d.(rx := nic.d.rx.(done := nic.d.rx.done + 1, adv := Recover(|nic.d.rx.arrivals|, rxHead)));
      rxHead := (rxHead + 1) % RING;
      assert View() == Recycle(s);
      SlotNamedExact(s.d.rx.base, s.p.rx, BUFFER_SIZE);
      rc := 0;
    }

    /** The copy out of the slot, without its prefix. */
    method CopyOut(rxBytes: nat) returns (frame: Bytes)
      requires Valid()
      ensures Announced(nic.d.rx, rxBytes) ==> frame == nic.d.rx.arrivals[nic.d.rx.done].frame
    {
      SlotHolds(View(), rxBytes);
      var slot := nic.rxBuffer[rxHead];
      var plen := LengthField(slot);
      if plen == 0 {
        plen := if rxBytes > PREFIX_LEN then rxBytes - PREFIX_LEN else 0;
      }
      frame := if PREFIX_LEN + plen <= |slot| then slot[PREFIX_LEN..PREFIX_LEN + plen] else [];
    }

    /** `sfc7120_tx_post`. Refused calls change nothing; an accepted one queues the frame
        behind those already posted, and keeps the port sound exactly below 511 unsent
        frames. */
    method TxPost(frame: Bytes) returns (rc: int)
      requires Valid()
      modifies this`txHead, this`usedPoll, nic`d, nic.txRing, nic.txBuffer
      ensures rc == 0 <==> mapped && 0 < |frame| <= BUFFER_SIZE
      ensures rc != 0 ==> rc == -1 && View() == old(View()) && usedPoll == old(usedPoll)
      ensures rc == 0 ==> usedPoll && nic.d.tx.submitted == old(nic.d.tx.submitted) + [frame]
                          && nic.d.ev == old(nic.d.ev) && nic.d.rx == old(nic.d.rx)
                          && txHead == Slot(|nic.d.tx.submitted|)
      ensures rc == 0 ==> Says(nic.txRing[old(txHead)], |frame|, nic.d.tx.base, old(txHead))
                          && frame <= nic.txBuffer[old(txHead)]
      ensures rc == 0 ==> (Valid() <==> old(Unsent(nic.d)) < RING - 1)
    {
      if !mapped || |frame| == 0 || |frame| > BUFFER_SIZE {
        return -1;
      }
      usedPoll := true;
      ghost var s := View();
      nic.txBuffer[txHead] := Overlay(frame, nic.txBuffer[txHead]);
      nic.txRing[txHead] := Descriptor(|frame|, SlotAddress(nic.d.tx.base, txHead));
      var wptr := (txHead + 1) % RING;
      nic.d := nic.d.(tx := nic.d.tx.(submitted := nic.d.tx.submitted + [frame],
                                      adv := Recover(|nic.d.tx.wire|, wptr)));
      txHead := (txHead + 1) % RING;
      assert View() == Submit(s, frame);
      SubmitSafeIff(s, frame);
      SlotNamedExact(s.d.tx.base, s.p.tx, |frame|);
      SlotSucc(|s.d.tx.submitted|);
      rc := 0;
    }
  }
}
