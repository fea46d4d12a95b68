/** sfc7120.c: the ioctl handlers on the same port. */
module KernelPath {
  import opened Rings
  import opened Options
  import EventQueue
  import opened Port
  import opened Driver
  import opened Hardware

  const EPERM: int := 1
  const EINVAL: int := 22
  const ETIMEDOUT: int := 60

  const TX_TRIES: nat := 10000
  const RX_TRIES: nat := 100000

  /** What the handler can see of the user's `tx_buf_addr` capability. */
  datatype UserBuffer = UserBuffer(tagged: bool, loadable: bool, capLen: nat)

  function Refusal(b: UserBuffer, length: nat): int {
    if !b.tagged then EINVAL
    else if !b.loadable then EPERM
    else if length == 0 || length > BUFFER_SIZE then EINVAL
    else if b.capLen < length then EINVAL
    else 0
  }

  /** What the handler accepts, and in which of the refusals it answers with which error. */
  lemma RefusalIff(b: UserBuffer, length: nat)
    ensures Refusal(b, length) == 0 <==> b.tagged && b.loadable && 0 < length <= 2048 && length <= b.capLen
    ensures Refusal(b, length) == 1 <==> b.tagged && !b.loadable
    ensures Refusal(b, length) == 22 <==>
              !b.tagged || (b.loadable && (length == 0 || length > 2048 || length > b.capLen))
  {
  }

  // ------------------------------------------------------------------ completion matching

  /** The handler's test: the low 16 bits of the event, masked to the ring. */
  predicate Matches(raw: Word, posted: nat) {
    raw % 0x1_0000 % RING == Slot(posted)
  }

  /** Masking the free-running 16-bit counter recovers the absolute index modulo the ring,
      so a completion passes the test exactly when it is a whole number of laps away. */
  lemma MatchesIff(e: Event, posted: nat)
    requires e.kind == TxEvent && e.raw % 0x1_0000 == e.index % 0x1_0000
    ensures Matches(e.raw, posted) <==> Slot(e.index) == Slot(posted)
  {
  }

  /** The test identifies the descriptor exactly when the completion is less than a lap old. */
  lemma MatchExactIff(e: Event, posted: nat)
    requires e.kind == TxEvent && e.raw % 0x1_0000 == e.index % 0x1_0000
    requires e.index <= posted && Matches(e.raw, posted)
    ensures e.index == posted <==> posted < e.index + RING
  {
    MatchesIff(e, posted);
    if e.index < posted < e.index + RING {
      SlotsDistinct(e.index, posted);
    }
  }

  /** One frame posted and put on the wire. */
  function Round(s: State, frame: Bytes): State
    requires Sized(s.m) && InRange(s.p)
  {
    var t := Submit(s, frame);
    t.(m := Act(t.m, t.d, Send).0, d := Act(t.m, t.d, Send).1)
  }

  lemma RoundGood(s: State, frame: Bytes)
    requires Good(s) && Unsent(s.d) == 0 && |frame| <= BUFFER_SIZE
    ensures var t := Round(s, frame);
            Good(t) && Unsent(t.d) == 0 && |t.d.tx.submitted| == |s.d.tx.submitted| + 1
            && t.d.ev == s.d.ev && t.d.tx.reported == s.d.tx.reported
  {
    var t := Submit(s, frame);
    SubmitGood(s, frame);
    SendKeepsTx(t.m.txDesc, t.m.txBuf, t.d.tx);
    ActInv(t.m, t.d, Send);
  }

  lemma {:induction false} Rounds(s: State, frame: Bytes, n: nat) returns (t: State)
    requires Good(s) && Unsent(s.d) == 0 && |frame| <= BUFFER_SIZE
    ensures Good(t) && Unsent(t.d) == 0 && |t.d.tx.submitted| == |s.d.tx.submitted| + n
    ensures t.d.ev == s.d.ev && t.d.tx.reported == s.d.tx.reported
  {
    t := s;
    if n > 0 {
      t := Rounds(s, frame, n - 1);
      RoundGood(t, frame);
      t := Round(t, frame);
    }
  }

  /** The first frame sent and reported, the report unread. */
  lemma OneReported(s0: State, frame: Bytes) returns (s: State)
    requires Seeded(s0) && |frame| <= BUFFER_SIZE
    ensures Good(s) && Unsent(s.d) == 0 && |s.d.tx.submitted| == s.d.tx.reported == 1
    ensures s.d.ev == EvSide([Event(0x2000_0000_0000_0000, TxEvent, 0)], 0, 0)
  {
    SeededGood(s0);
    RoundGood(s0, frame);
    s := Round(s0, frame);
    var report := Report(0x2000_0000_0000_0000);
    ActInv(s.m, s.d, report);
    s := s.(m := Act(s.m, s.d, report).0, d := Act(s.m, s.d, report).1);
  }

  /** A sound port on which the handler goes wrong: 512 frames were sent, the completion of
      the first is unread. The first look after posting another finds it, and it passes,
      although the NIC has neither completed nor even fetched the new frame. */
  lemma StaleCompletionAnswers(s0: State, frame: Bytes) returns (s: State)
    requires Seeded(s0) && |frame| <= BUFFER_SIZE
    ensures Good(s) && Unsent(s.d) == 0 && |s.d.tx.submitted| == RING && !NoneLapOld(s.d)
    ensures var t := Submit(s, frame);
            var w := t.m.ev[t.p.ev];
            && !EventQueue.IsMarker(w) && Code(w) == 2 && Matches(w, RING)
            && t.d.tx.reported < RING && |t.d.tx.wire| == RING < |t.d.tx.submitted|
  {
    s := OneReported(s0, frame);
    s := Rounds(s, frame, RING - 1);
    LookExact(s);
    assert !FreshAt(s.d.ev.log, RING + 1, 0);
  }

  /** A matching completion is for this slot, and for this very frame if it is fresh. */
  lemma CompletionSound(d: Device, i: nat, posted: nat)
    requires i < |d.ev.log| && GenuineAt(d.ev.log, d.rx.arrivals, d.tx.reported, i)
    requires d.tx.reported <= posted + 1 == |d.tx.submitted|
    requires Code(d.ev.log[i].raw) == 2 && Matches(d.ev.log[i].raw, posted)
    ensures Completes(d.ev.log[i], posted)
    ensures FreshAt(d.ev.log, posted + 1, i) ==> d.ev.log[i].index == posted < d.tx.reported
  {
    MatchesIff(d.ev.log[i], posted);
    MatchExactIff(d.ev.log[i], posted);
  }

  class Softc {
    const nic: Nic
    var dataEvqReadPtr: nat
    var txHead: nat
    var rxHead: nat

    constructor (nic: Nic, p: Pointers)
      ensures this.nic == nic && dataEvqReadPtr == p.ev && txHead == p.tx && rxHead == p.rx
    {
      this.nic, dataEvqReadPtr, txHead, rxHead := nic, p.ev, p.tx, p.rx;
    }

    ghost function View(): State
      requires nic.Shaped()
      reads this, nic, nic.evRing, nic.rxRing, nic.rxBuffer, nic.txRing, nic.txBuffer
    {
      State(nic.Mem(), nic.d, Pointers(dataEvqReadPtr, txHead, rxHead))
    }

    ghost predicate Valid()
      reads this, nic, nic.evRing, nic.rxRing, nic.rxBuffer, nic.txRing, nic.txBuffer
    {
      nic.Shaped() && Good(View())
    }

    /** `sfc7120_post_rx_buffers`: every descriptor names its own slot, 511 are advertised. */
    method PostRxBuffers()
      requires nic.Shaped() && nic.d.rx.arrivals == []
      modifies this`rxHead, nic`d, nic.rxRing
      ensures forall k :: 0 <= k < RING ==> Describes(nic.Mem().rxDesc, nic.d.rx.base, k)
      ensures nic.d.rx.base + RING * BUFFER_SIZE <= 0x1_0000_0000_0000 ==>
                forall k :: 0 <= k < RING ==> Says(nic.rxRing[k], 2048, nic.d.rx.base, k)
      ensures nic.d == old(nic.d).(rx := old(nic.d.rx).(adv := RING - 1))
      ensures rxHead == 0
    {
      var npost := RING - 1;
      for i := 0 to RING
        invariant nic.d == old(nic.d)
        invariant forall k :: 0 <= k < i ==> Describes(nic.Mem().rxDesc, nic.d.rx.base, k)
      {
        ghost var before := nic.Mem().rxDesc;
        nic.rxRing[i] := Descriptor(BUFFER_SIZE, SlotAddress(nic.d.rx.base, i));
        forall k | 0 <= k < i + 1
          ensures Describes(nic.Mem().rxDesc, nic.d.rx.base, k)
        {
          if k < i { assert Describes(before, nic.d.rx.base, k); }
        }
      }
      if nic.d.rx.base + RING * BUFFER_SIZE <= 0x1_0000_0000_0000 {
        forall k | 0 <= k < RING ensures Says(nic.rxRing[k], 2048, nic.d.rx.base, k) {
          assert Describes(nic.Mem().rxDesc, nic.d.rx.base, k);
          SlotNamedExact(nic.d.rx.base, k, BUFFER_SIZE);
        }
      }
      RecoverExact(0, npost);
      nic.d := nic.d.(rx := nic.d.rx.(adv := Recover(|nic.d.rx.arrivals|, npost)));
      rxHead := 0;
    }

    /** What attach does to the rings: the event ring primed with ones, the RX ring seeded. */
    method SeedRings()
      requires nic.Shaped() && nic.d == BlankDevice(nic.d.rx.base, nic.d.tx.base)
      requires nic.d.rx.base + RING * BUFFER_SIZE <= 0x1_0000_0000_0000
      requires nic.d.tx.base + RING * BUFFER_SIZE <= 0x1_0000_0000_0000
      requires forall k :: 0 <= k < RING ==> |nic.rxBuffer[k]| == |nic.txBuffer[k]| == BUFFER_SIZE
      modifies this, nic`d, nic.evRing, nic.rxRing
      ensures Seeded(View()) && Valid()
    {
      for i := 0 to RING
        invariant nic.d == old(nic.d)
        invariant forall k :: 0 <= k < i ==> nic.evRing[k] == ALL_ONES
      {
        nic.evRing[i] := ALL_ONES;
      }
      assert nic.evRing[..] == seq(RING, i => ALL_ONES);
      dataEvqReadPtr, txHead := 0, 0;
      PostRxBuffers();
      RecoverExact(0, RING - 1);
      SeededGood(View());
    }

    /** `SFC7120_GET_VI_INFO`, as far as the pointers go. */
    method GetViInfo() returns (p: Pointers)
      ensures p.ev == dataEvqReadPtr && p.tx == txHead && p.rx == rxHead
      ensures Valid() ==> p == Positions(nic.d)
    {
      p := Pointers(dataEvqReadPtr, txHead, rxHead);
    }

    /** `SFC7120_SET_EVQ_RPTR`. */
    method SetEvqRptr(p: Pointers) returns (rc: int)
      modifies this`dataEvqReadPtr, this`txHead, this`rxHead
      ensures rc == (if InRange(p) then 0 else EINVAL)
      ensures rc == 0 ==> dataEvqReadPtr == p.ev && txHead == p.tx && rxHead == p.rx
      ensures rc != 0 ==> dataEvqReadPtr == old(dataEvqReadPtr) && txHead == old(txHead) && rxHead == old(rxHead)
    {
      if p.ev >= RING || p.tx >= RING || p.rx >= RING {
        return EINVAL;
      }
      dataEvqReadPtr, txHead, rxHead := p.ev, p.tx, p.rx;
      return 0;
    }

    /** The event side of `View`, which is all the poll loops rely on: the handlers move
        their ring heads only afterwards. */
    ghost predicate Polling()
      reads this, nic, nic.evRing, nic.rxRing, nic.rxBuffer, nic.txRing, nic.txBuffer
    {
      nic.Running() && dataEvqReadPtr == Slot(nic.d.ev.taken)
    }

    /** One try of a poll loop: the device may act, the slot is looked at, and what it holds
        is consumed whatever it is. */
    method Try() returns (r: Option<Word>)
      requires Polling()
      modifies this`dataEvqReadPtr, nic`d, nic`agenda, nic.evRing, nic.rxBuffer
      ensures Polling()
      ensures Meanwhile(old(nic.d), nic.d)
      ensures old(nic.Sound()) ==> nic.Sound() && (old(Fresh(nic.d)) ==> Fresh(nic.d))
      ensures nic.agenda == Rest(old(nic.agenda), 1)
      ensures r.None? ==> nic.d.ev.taken == old(nic.d.ev.taken) == |nic.d.ev.log| && Debt(nic.d) == old(Debt(nic.d))
      ensures r.Some? ==>
                && nic.d.ev.taken == old(nic.d.ev.taken) + 1
                && r.value == nic.d.ev.log[old(nic.d.ev.taken)].raw
                && GenuineAt(nic.d.ev.log, nic.d.rx.arrivals, nic.d.tx.reported, old(nic.d.ev.taken))
                && (old(nic.Sound() && Fresh(nic.d)) ==>
                    FreshAt(nic.d.ev.log, |nic.d.tx.submitted|, old(nic.d.ev.taken)))
                && Debt(nic.d) == old(Debt(nic.d)) + (if KindOf(r.value) == RxEvent then 1 else 0)
    {
      nic.Runs();
      ghost var s := State(nic.Mem(), nic.d, Positions(nic.d));
      LookExact(s);
      var ev := nic.evRing[dataEvqReadPtr];
      if EventQueue.IsMarker(ev) {
        return None;
      }
      assert GenuineAt(nic.d.ev.log, nic.d.rx.arrivals, nic.d.tx.reported, nic.d.ev.taken);
      assert Fresh(nic.d) ==> FreshAt(nic.d.ev.log, |nic.d.tx.submitted|, nic.d.ev.taken);
      StepOver();
      return Some(ev);
    }

    /** Zero the slot and step the read pointer. */
    method StepOver()
      requires Polling() && nic.d.ev.taken < |nic.d.ev.log|
      modifies this`dataEvqReadPtr, nic`d, nic.evRing
      ensures Polling() && (old(nic.Sound()) ==> nic.Sound())
      ensures nic.d == old(nic.d).(ev := old(nic.d.ev).(taken := old(nic.d.ev.taken) + 1))
      ensures Debt(nic.d) == old(Debt(nic.d)) +
                             (if old(nic.d.ev).log[old(nic.d.ev).taken].kind == RxEvent then 1 else 0)
    {
      ghost var s := State(nic.Mem(), nic.d, Positions(nic.d));
      ConsumeGood(s);
      nic.evRing[dataEvqReadPtr] := 0;
      dataEvqReadPtr := (dataEvqReadPtr + 1) % RING;
      nic.d := nic.d.(ev := nic.d.ev.(taken := nic.d.ev.taken + 1));
      assert nic.Mem() == Consume(s).m && nic.d == Consume(s).d;
    }

    /** The ack that ends both handlers. */
    method RingReadPtr()
      requires Polling()
      modifies nic`d
      ensures Polling() && (old(nic.Sound()) ==> nic.Sound())
      ensures nic.d == old(nic.d).(ev := old(nic.d.ev).(acked := old(nic.d.ev.taken)))
    {
      ghost var s := State(nic.Mem(), nic.d, Positions(nic.d));
      AcknowledgeGood(s);
      nic.d := nic.d.(ev := nic.d.ev.(acked := Recover(nic.d.ev.acked, dataEvqReadPtr % 0x8000)));
      assert nic.Mem() == Acknowledge(s).m && nic.d == Acknowledge(s).d;
    }

    /** Steps 2 to 4 of `SFC7120_TX`: slot, descriptor, doorbell. */
    method Push(frame: Bytes)
      requires Valid() && |frame| <= BUFFER_SIZE
      modifies nic`d, nic.txRing, nic.txBuffer
      ensures Polling() && Debt(nic.d) == old(Debt(nic.d))
      ensures if old(Unsent(nic.d)) < RING - 1 then nic.Sound() else Wrapped(nic.Mem(), nic.d.tx)
      ensures Says(nic.txRing[txHead], |frame|, nic.d.tx.base, txHead) && frame <= nic.txBuffer[txHead]
      ensures nic.d == old(nic.d).(tx := old(nic.d.tx).(submitted := old(nic.d.tx.submitted) + [frame],
                                                        adv := nic.d.tx.adv))
    {
      ghost var s := View();
      SlotNamedExact(s.d.tx.base, s.p.tx, |frame|);
      if Unsent(s.d) < RING - 1 { SubmitGood(s, frame); } else { SubmitWraps(s, frame); }
      nic.txBuffer[txHead] := Overlay(frame, nic.txBuffer[txHead]);
      nic.txRing[txHead] := Descriptor(|frame|, SlotAddress(nic.d.tx.base, txHead));
      var wptr := (txHead + 1) % RING;
      nic.d := nic.d.(tx := nic.d.tx.(submitted := nic.d.tx.submitted + [frame],
                                      adv := Recover(|nic.d.tx.wire|, wptr)));
      assert nic.Mem() == Submit(s, frame).m && nic.d == Submit(s, frame).d;
    }

    /** One try of the TX handler's loop. */
    method TryCompletion(posted: nat) returns (done: bool, took: bool)
      requires Polling() && posted + 1 == |nic.d.tx.submitted|
      modifies this`dataEvqReadPtr, nic`d, nic`agenda, nic.evRing, nic.rxBuffer
      ensures Polling() && Awaited(old(nic.d), nic.d, posted, done, if took then 1 else 0)
      ensures nic.agenda == Rest(old(nic.agenda), 1) && (!took ==> nic.d.ev.taken == |nic.d.ev.log|)
      ensures old(nic.Sound()) ==> nic.Sound() && (old(Fresh(nic.d)) ==> Exact(nic.d, posted, done))
    {
      ghost var t := nic.d.ev.taken;
      var r := Try();
      done, took := false, r.Some?;
      if r.Some? && Passes(r.value, posted) {
        done := true;
        CompletionSound(nic.d, t, posted);
      }
    }

    /** Step 5 of `SFC7120_TX`: spin until a completion matches. Every event walked past is
        consumed; an RX event among them becomes a debt nobody pays. Without a match all
        tries are used up, and everything unread on entry has been looked at. */
    method AwaitCompletion(posted: nat) returns (done: bool, consumed: nat)
      requires Polling() && posted + 1 == |nic.d.tx.submitted|
      modifies this`dataEvqReadPtr, nic`d, nic`agenda, nic.evRing, nic.rxBuffer
      ensures Polling() && Awaited(old(nic.d), nic.d, posted, done, consumed)
      ensures !done ==> nic.agenda == Rest(old(nic.agenda), TX_TRIES) && old(|nic.d.ev.log|) <= nic.d.ev.taken
      ensures old(nic.Sound()) ==> nic.Sound() && (old(Fresh(nic.d)) ==> Exact(nic.d, posted, done))
    {
      done, consumed := false, 0;
      ghost var d0, a0 := nic.d, nic.agenda;
      var tries := 0;
      while tries < TX_TRIES && !done
        invariant tries <= TX_TRIES
        invariant Polling() && Awaited(d0, nic.d, posted, done, consumed)
        invariant Progress(d0, nic.d, a0, nic.agenda, tries, consumed, done)
        invariant old(nic.Sound()) ==> nic.Sound() && (Fresh(d0) ==> Exact(nic.d, posted, done))
      {
        ghost var d1, a1 := nic.d, nic.agenda;
        var took;
        done, took := TryCompletion(posted);
        AwaitedMore(d0, d1, nic.d, posted, done, consumed, if took then 1 else 0);
        ProgressMore(d0, d1, nic.d, a0, a1, tries, consumed, took, done);
        if took {
          consumed := consumed + 1;
        }
        tries := tries + 1;
      }
    }

    /** Steps 2 to 5 of `SFC7120_TX`. */
    method PushAndAwait(frame: Bytes) returns (done: bool)
      requires Valid() && |frame| <= BUFFER_SIZE
      modifies this`dataEvqReadPtr, nic`d, nic`agenda, nic.evRing, nic.rxBuffer, nic.txRing, nic.txBuffer
      ensures Polling() && Sent(old(nic.d), nic.d, frame)
      ensures old(Unsent(nic.d)) < RING - 1 ==> nic.Sound()
      ensures old(Unsent(nic.d)) >= RING - 1 ==>
                Wrapped(nic.Mem(), nic.d.tx) && nic.d.tx.wire == old(nic.d.tx.wire)
      ensures Says(nic.txRing[old(txHead)], |frame|, nic.d.tx.base, old(txHead)) && frame <= nic.txBuffer[old(txHead)]
      ensures done ==> nic.d.ev.taken > old(nic.d.ev.taken)
                       && Completes(nic.d.ev.log[nic.d.ev.taken - 1], old(|nic.d.tx.submitted|))
      ensures NonePasses(nic.d.ev.log, old(nic.d.ev.taken), nic.d.ev.taken - (if done then 1 else 0),
                         old(|nic.d.tx.submitted|))
      ensures !done ==> nic.agenda == Rest(old(nic.agenda), TX_TRIES) && old(|nic.d.ev.log|) <= nic.d.ev.taken
      ensures done && nic.Sound() && old(NoneLapOld(nic.d)) ==> Exact(nic.d, old(|nic.d.tx.submitted|), true)
    {
      var posted := |nic.d.tx.submitted|;
      var consumed;
      Push(frame);
      done, consumed := AwaitCompletion(posted);
      if consumed > 0 {
        RingReadPtr();
      }
    }

    /** Steps 2 to 6 of `SFC7120_TX`. */
    method SendAndWait(frame: Bytes) returns (done: bool)
      requires Valid() && |frame| <= BUFFER_SIZE
      modifies this, nic`d, nic`agenda, nic.evRing, nic.rxBuffer, nic.txRing, nic.txBuffer
      ensures Sent(old(nic.d), nic.d, frame) && txHead == Slot(|nic.d.tx.submitted|)
      ensures Says(nic.txRing[old(txHead)], |frame|, nic.d.tx.base, old(txHead)) && frame <= nic.txBuffer[old(txHead)]
      ensures Valid() <==> old(Unsent(nic.d)) < RING - 1
      ensures !Valid() ==> nic.d.tx.adv == |nic.d.tx.wire| && nic.d.tx.wire == old(nic.d.tx.wire)
      ensures done ==> nic.d.ev.taken > old(nic.d.ev.taken)
                       && Completes(nic.d.ev.log[nic.d.ev.taken - 1], old(|nic.d.tx.submitted|))
      ensures NonePasses(nic.d.ev.log, old(nic.d.ev.taken), nic.d.ev.taken - (if done then 1 else 0),
                         old(|nic.d.tx.submitted|))
      ensures !done ==> nic.agenda == Rest(old(nic.agenda), TX_TRIES) && old(|nic.d.ev.log|) <= nic.d.ev.taken
      ensures done && Valid() && old(NoneLapOld(nic.d)) ==> Exact(nic.d, old(|nic.d.tx.submitted|), true)
    {
      SlotSucc(|nic.d.tx.submitted|);
      done := PushAndAwait(frame);
      txHead := (txHead + 1) % RING;
    }

    /** `SFC7120_TX`. Success means a completion for this frame's slot was consumed, and,
        if no unread completion was a lap old to begin with, that the NIC has completed this
        very frame. A timeout means that 10000 looks were taken, that none of the events they
        found was such a completion, and that none is left from before. `tx_head` moves past
        the frame on success and on timeout alike. There is
        no ring-full check: at 511 unsent frames the call leaves the NIC with nothing to send.
        RX slots stay paired with RX events exactly when no RX event was walked past; on
        success, when none was unread on entry and none came in ahead of the completion. */
    method Tx(b: UserBuffer, frame: Bytes, copyErr: int) returns (rc: int)
      requires Valid() && copyErr >= 0
      modifies this, nic`d, nic`agenda, nic.evRing, nic.rxBuffer, nic.txRing, nic.txBuffer
      ensures nic.d.tx.submitted != old(nic.d.tx.submitted) <==>
                b.tagged && b.loadable && 0 < |frame| <= 2048 && |frame| <= b.capLen && copyErr == 0
      ensures Refusal(b, |frame|) != 0 ==> rc == Refusal(b, |frame|) && View() == old(View())
      ensures Refusal(b, |frame|) == 0 && copyErr != 0 ==> rc == copyErr && View() == old(View())
      ensures Refusal(b, |frame|) == 0 && copyErr == 0 ==>
                && (rc == 0 || rc == ETIMEDOUT)
                && Sent(old(nic.d), nic.d, frame) && txHead == Slot(|nic.d.tx.submitted|)
                && Says(nic.txRing[old(txHead)], |frame|, nic.d.tx.base, old(txHead))
                && frame <= nic.txBuffer[old(txHead)]
                && (Valid() <==> old(Unsent(nic.d)) < RING - 1)
                && (!Valid() ==> nic.d.tx.adv == |nic.d.tx.wire| && nic.d.tx.wire == old(nic.d.tx.wire))
                && (rc == 0 ==> nic.d.ev.taken > old(nic.d.ev.taken)
                                && Completes(nic.d.ev.log[nic.d.ev.taken - 1], old(|nic.d.tx.submitted|)))
                && NonePasses(nic.d.ev.log, old(nic.d.ev.taken), nic.d.ev.taken - (if rc == 0 then 1 else 0),
                              old(|nic.d.tx.submitted|))
                && (rc == ETIMEDOUT ==>
                      nic.agenda == Rest(old(nic.agenda), 10000) && old(|nic.d.ev.log|) <= nic.d.ev.taken)
                && (Debt(nic.d) == old(Debt(nic.d)) <==> NoRx(nic.d.ev.log, old(nic.d.ev.taken), nic.d.ev.taken))
                && (rc == 0 && Valid() && old(NoneLapOld(nic.d)) ==>
                    && old(|nic.d.tx.submitted|) < nic.d.tx.reported
                    && (Debt(nic.d) == old(Debt(nic.d)) <==>
                        old(UnreadRx(nic.d)) == 0
                        && NoRx(nic.d.ev.log, old(|nic.d.ev.log|), nic.d.ev.taken - 1)))
    {
      RefusalIff(b, |frame|);
      if Refusal(b, |frame|) != 0 {
        return Refusal(b, |frame|);
      }
      if copyErr != 0 {
        return copyErr;
      }
      ghost var d0, m0 := nic.d, nic.Mem();
      var done := SendAndWait(frame);
      DebtSameIff(d0, nic.d);
      if done && nic.Sound() && NoneLapOld(d0) {
        CompletionIsNew(m0, d0, nic.d, |d0.tx.submitted|);
      }
      return if done then 0 else ETIMEDOUT;
    }

    /** One try of the RX handler's loop. */
    method TryRx() returns (found: bool, rxBytes: nat, took: bool)
      requires Polling() && nic.Sound()
      modifies this`dataEvqReadPtr, nic`d, nic`agenda, nic.evRing, nic.rxBuffer
      ensures Polling() && nic.Sound() && RxAwaited(old(nic.d), nic.d, found, rxBytes, if took then 1 else 0)
      ensures nic.agenda == Rest(old(nic.agenda), 1) && (!took ==> nic.d.ev.taken == |nic.d.ev.log|)
    {
      ghost var d0 := nic.d;
      var r := Try();
      found, rxBytes, took := false, 0, r.Some?;
      if r.Some? && Code(r.value) == 0 {
        rxBytes, found := r.value % 0x4000, true;
        assert nic.d.ev.log[..d0.ev.taken] == d0.ev.log[..d0.ev.taken];
      }
    }

    /** Step 1 of `SFC7120_RX`: spin until an RX event turns up, consuming everything. If one
        is unread on entry it is found; without one all tries are used up. */
    method AwaitRx() returns (found: bool, rxBytes: nat, consumed: nat)
      requires Polling() && nic.Sound()
      modifies this`dataEvqReadPtr, nic`d, nic`agenda, nic.evRing, nic.rxBuffer
      ensures Polling() && nic.Sound() && RxAwaited(old(nic.d), nic.d, found, rxBytes, consumed)
      ensures !found ==> nic.agenda == Rest(old(nic.agenda), RX_TRIES) && old(|nic.d.ev.log|) <= nic.d.ev.taken
      ensures old(UnreadRx(nic.d)) > 0 ==> found
    {
      found, rxBytes, consumed := false, 0, 0;
      ghost var m0, d0, a0 := nic.Mem(), nic.d, nic.agenda;
      var tries := 0;
      while tries < RX_TRIES && !found
        invariant tries <= RX_TRIES
        invariant Polling() && nic.Sound() && RxAwaited(d0, nic.d, found, rxBytes, consumed)
        invariant Progress(d0, nic.d, a0, nic.agenda, tries, consumed, found)
      {
        ghost var d1, a1 := nic.d, nic.agenda;
        var took;
        found, rxBytes, took := TryRx();
        RxAwaitedMore(d0, d1, nic.d, found, rxBytes, consumed, if took then 1 else 0);
        ProgressMore(d0, d1, nic.d, a0, a1, tries, consumed, took, found);
        if took {
          consumed := consumed + 1;
        }
        tries := tries + 1;
      }
      if !found { NothingFound(m0, d0, nic.d); }
    }

    /** Steps 2 to 4 of `SFC7120_RX`: the frame in the slot at `rx_head`, whose length comes
        from the prefix or else from the event, which announced packet `announced`. */
    method ReadSlot(rxBytes: nat, ghost announced: nat) returns (frame: Bytes)
      requires Valid() && nic.d.rx.done < |nic.d.rx.arrivals| && announced < |nic.d.rx.arrivals|
      requires rxBytes == PREFIX_LEN + |nic.d.rx.arrivals[announced].frame|
      ensures announced == nic.d.rx.done || LengthField(nic.d.rx.arrivals[nic.d.rx.done].prefix) != 0 ==>
                frame == nic.d.rx.arrivals[nic.d.rx.done].frame
    {
      ghost var r := nic.d.rx;
      assert HoldsArrival(nic.Mem().rxBuf, r.arrivals, r.done);
      LengthInSlot(nic.rxBuffer[rxHead], r.arrivals[r.done], r.arrivals[announced], rxBytes);
      var slot := nic.rxBuffer[rxHead];
      var plen := FrameLength(slot, rxBytes);
      frame := slot[PREFIX_LEN..PREFIX_LEN + plen];
    }

    /** Steps 5 and 6 of `SFC7120_RX`. */
    method Repost()
      requires Valid() && Debt(nic.d) > 0
      modifies this`rxHead, nic`d, nic.rxRing
      ensures Valid()
      ensures nic.d == old(nic.d).(rx := old(nic.d.rx).(done := old(nic.d.rx.done) + 1,
                                                        adv := old(nic.d.rx.adv) + 1))
      ensures Says(nic.rxRing[old(rxHead)], 2048, nic.d.rx.base, old(rxHead))
    {
      ghost var s := View();
      SlotNamedExact(s.d.rx.base, s.p.rx, BUFFER_SIZE);
      RecycleGood(s);
      nic.rxRing[rxHead] := Descriptor(BUFFER_SIZE, SlotAddress(nic.d.rx.base, rxHead));
      nic.d := nic.d.(rx := nic.d.rx.(done := nic.d.rx.done + 1, adv := Recover(|nic.d.rx.arrivals|, rxHead)));
      rxHead := (rxHead + 1) % RING;
      assert View() == Recycle(s);
    }

    /** `SFC7120_RX`. A timeout has taken 100000 looks and consumed no RX event, and there was
        none unread on entry. Otherwise the frame handed out is
        the oldest one not yet received, which is the one the event announced exactly when
        nothing was owed on entry; a failing copyout leaves the event consumed and the slot
        un-posted, one more debt. */
    method Rx(copyErr: int) returns (rc: int, frame: Bytes)
      requires Valid()
      requires copyErr >= 0 && copyErr != ETIMEDOUT
      modifies this`dataEvqReadPtr, this`rxHead, nic`d, nic`agenda, nic.evRing, nic.rxBuffer, nic.rxRing
      ensures Valid()
      ensures nic.d.tx.submitted == old(nic.d.tx.submitted) && old(nic.d.rx.arrivals) <= nic.d.rx.arrivals
      ensures rc == ETIMEDOUT || rc == copyErr
      ensures old(UnreadRx(nic.d)) > 0 ==> rc == copyErr
      ensures rc == ETIMEDOUT ==> nic.d.rx.done == old(nic.d.rx.done) && Debt(nic.d) == old(Debt(nic.d))
      ensures rc == ETIMEDOUT ==>
                nic.agenda == Rest(old(nic.agenda), 100000) && old(|nic.d.ev.log|) <= nic.d.ev.taken
      ensures rc == 0 ==> Says(nic.rxRing[old(rxHead)], 2048, nic.d.rx.base, old(rxHead))
      ensures rc != ETIMEDOUT ==>
                && nic.d.ev.taken > old(nic.d.ev.taken)
                && AnnouncesNext(nic.d, nic.d.ev.taken - 1, old(nic.d.rx.done + Debt(nic.d)))
                && Debt(nic.d) == old(Debt(nic.d)) + (if rc == 0 then 0 else 1)
                && nic.d.rx.done == old(nic.d.rx.done) + (if rc == 0 then 1 else 0)
                && old(nic.d.rx.done) < |nic.d.rx.arrivals|
      ensures rc == 0 && (old(Debt(nic.d)) == 0 ||
                          LengthField(nic.d.rx.arrivals[old(nic.d.rx.done)].prefix) != 0) ==>
                frame == nic.d.rx.arrivals[old(nic.d.rx.done)].frame
    {
      frame := [];
      var found, rxBytes, consumed := AwaitRx();
      if consumed > 0 {
        RingReadPtr();
      }
      if !found {
        return ETIMEDOUT, [];
      }
      OwedIsFilled(nic.Mem(), nic.d);
      var copied := ReadSlot(rxBytes, nic.d.ev.log[nic.d.ev.taken - 1].index);
      if copyErr != 0 {
        return copyErr, [];
      }
      frame := copied;
      Repost();
      rc := 0;
    }
  }

  /** The RX event at `i` announces arrival `next`. */
  ghost predicate AnnouncesNext(d: Device, i: nat, next: int) {
    && i < |d.ev.log| && d.ev.log[i].kind == RxEvent && d.ev.log[i].index == next
    && 0 <= next < |d.rx.arrivals| && Announces(d.ev.log[i].raw, d.rx.arrivals[next])
  }

  /** A poll loop has let `tries` bursts of the device through; unless it stopped, each try
      has consumed an event, or there is none left from the beginning. */
  ghost predicate Progress(d: Device, d': Device, a: seq<seq<Action>>, a': seq<seq<Action>>,
                           tries: nat, consumed: nat, stopped: bool)
  {
    a' == Rest(a, tries) && (stopped || consumed == tries || |d.ev.log| <= d'.ev.taken)
  }

  lemma ProgressMore(d: Device, d1: Device, d2: Device, a: seq<seq<Action>>, a1: seq<seq<Action>>,
                     tries: nat, consumed: nat, took: bool, stopped: bool)
    requires Progress(d, d1, a, a1, tries, consumed, false)
    requires |d.ev.log| <= |d2.ev.log| && d1.ev.taken <= d2.ev.taken && (!took ==> d2.ev.taken == |d2.ev.log|)
    ensures Progress(d, d2, a, Rest(a1, 1), tries + 1, consumed + (if took then 1 else 0), stopped)
  {
  }

  /** From `d` to `d'` a handler waited for an RX event, the device moved on, and `consumed`
      events were taken; if one was found it was the last, and announces the arrival after
      those already owed. */
  ghost predicate RxAwaited(d: Device, d': Device, found: bool, rxBytes: nat, consumed: nat) {
    && Meanwhile(d, d') && d'.ev.taken == d.ev.taken + consumed <= |d'.ev.log| && d.ev.taken <= |d.ev.log|
    && Debt(d') == Debt(d) + (if found then 1 else 0)
    && (found ==> consumed > 0 && rxBytes == d'.ev.log[d'.ev.taken - 1].raw % 0x4000
                  && AnnouncesNext(d', d'.ev.taken - 1, d.rx.done + Debt(d)))
  }

  /** If nothing was found although everything unread was consumed, no RX event was unread. */
  lemma NothingFound(m: Memory, d: Device, d': Device)
    requires Inv(m, d) && d.ev.taken <= d'.ev.taken && |d.ev.log| <= d'.ev.taken
    requires RxAwaited(d, d', false, 0, d'.ev.taken - d.ev.taken)
    ensures UnreadRx(d) == 0
  {
    assert d'.ev.log[..|d.ev.log|] == d.ev.log && d'.ev.log[..d'.ev.taken][..|d.ev.log|] == d.ev.log;
    CountRxMonotone(d'.ev.log[..d'.ev.taken], |d.ev.log|);
    CountRxMonotone(d.ev.log, d.ev.taken);
  }

  lemma RxAwaitedMore(d: Device, d1: Device, d2: Device, found: bool, rxBytes: nat, consumed: nat, more: nat)
    requires RxAwaited(d, d1, false, 0, consumed) && RxAwaited(d1, d2, found, rxBytes, more)
    ensures RxAwaited(d, d2, found, rxBytes, consumed + more)
  {
    MeanwhileTransitive(d, d1, d2);
  }

  /** Reading a slot with another packet's byte count stays inside the slot; with its own,
      or with a length in the prefix, it yields the frame. */
  lemma LengthInSlot(slot: Bytes, p: Packet, q: Packet, rxBytes: nat)
    requires GoodPacket(p) && GoodPacket(q) && HoldsPacket(slot, p) && rxBytes == PREFIX_LEN + |q.frame|
    ensures PREFIX_LEN + FrameLength(slot, rxBytes) <= |slot|
    ensures p == q || LengthField(p.prefix) != 0 ==>
              slot[PREFIX_LEN..PREFIX_LEN + FrameLength(slot, rxBytes)] == p.frame
  {
    var all := p.prefix + p.frame;
    assert slot[8] == all[8] && slot[9] == all[9];
    if p == q || LengthField(p.prefix) != 0 {
      FrameExact(slot, p, rxBytes);
    }
  }

  /** Before a frame is posted: no unread completion is a lap old for it. */
  ghost predicate NoneLapOld(d: Device) {
    FreshFor(d.ev, |d.tx.submitted| + 1)
  }

  /** From `d` to `d'` exactly one frame was posted, events were consumed and, if any were,
      acknowledged; on the RX side only the device has moved. */
  ghost predicate Sent(d: Device, d': Device, frame: Bytes) {
    && d'.tx.submitted == d.tx.submitted + [frame]
    && d'.rx == d.rx.(arrivals := d'.rx.arrivals) && d.rx.arrivals <= d'.rx.arrivals
    && d.ev.taken <= d'.ev.taken <= |d'.ev.log| && d.ev.log <= d'.ev.log
    && d'.ev.acked == (if d'.ev.taken > d.ev.taken then d'.ev.taken else d.ev.acked)
  }

  /** From `d` to `d'` a handler waited for frame `posted`, the device moved on, and
      `consumed` events were taken; `done` means that the last of them passed the test. */
  ghost predicate Awaited(d: Device, d': Device, posted: nat, done: bool, consumed: nat) {
    && Meanwhile(d, d') && d'.ev.taken == d.ev.taken + consumed <= |d'.ev.log|
    && (done ==> consumed > 0 && Completes(d'.ev.log[d'.ev.taken - 1], posted))
    && NonePasses(d'.ev.log, d.ev.taken, d'.ev.taken - (if done then 1 else 0), posted)
  }

  /** The handler's test on an event. */
  predicate Passes(raw: Word, posted: nat) {
    Code(raw) == 2 && Matches(raw, posted)
  }

  /** No event in a stretch of the log passes it. */
  ghost predicate NonePasses(log: seq<Event>, a: nat, b: int, posted: nat) {
    forall i :: a <= i < b && i < |log| ==> !Passes(log[i].raw, posted)
  }

  /** Still no completion a lap old; the one that passed is this very frame's. */
  ghost predicate Exact(d: Device, posted: nat, done: bool) {
    && Fresh(d)
    && (done ==> 0 < d.ev.taken <= |d.ev.log| && d.ev.log[d.ev.taken - 1].kind == TxEvent
                 && d.ev.log[d.ev.taken - 1].index == posted < d.tx.reported)
  }

  lemma AwaitedMore(d: Device, d1: Device, d2: Device, posted: nat, done: bool, consumed: nat, more: nat)
    requires Awaited(d, d1, posted, false, consumed) && Awaited(d1, d2, posted, done, more)
    ensures Awaited(d, d2, posted, done, consumed + more)
  {
    MeanwhileTransitive(d, d1, d2);
  }

  /** No RX event in a stretch of the log. */
  ghost predicate NoRx(log: seq<Event>, a: nat, b: nat) {
    forall i :: a <= i < b && i < |log| ==> log[i].kind != RxEvent
  }

  /** RX events unread: packets that have arrived and whose event is not consumed. */
  function UnreadRx(d: Device): int
    requires d.ev.taken <= |d.ev.log|
  {
    |d.rx.arrivals| - CountRx(d.ev.log[..d.ev.taken])
  }

  lemma DebtSameIff(d: Device, d': Device)
    requires d.ev.taken <= |d.ev.log| && d.ev.taken <= d'.ev.taken <= |d'.ev.log|
    requires d.ev.log <= d'.ev.log && d'.rx.done == d.rx.done
    ensures Debt(d') == Debt(d) <==> NoRx(d'.ev.log, d.ev.taken, d'.ev.taken)
  {
    assert d'.ev.log[..d.ev.taken] == d.ev.log[..d.ev.taken];
    CountRxSameIff(d'.ev.log, d.ev.taken, d'.ev.taken);
  }

  /** The completion of a frame posted after `d` is not in the log of `d`; so everything
      unread in `d` has been consumed before it. */
  lemma CompletionIsNew(m: Memory, d: Device, d': Device, posted: nat)
    requires Inv(m, d) && posted == |d.tx.submitted|
    requires d.ev.taken <= d'.ev.taken <= |d'.ev.log| && d.ev.log <= d'.ev.log && d'.rx.done == d.rx.done
    requires Exact(d', posted, true)
    ensures |d.ev.log| < d'.ev.taken
    ensures Debt(d') == Debt(d) <==> UnreadRx(d) == 0 && NoRx(d'.ev.log, |d.ev.log|, d'.ev.taken - 1)
  {
    var c := d'.ev.taken - 1;
    forall i | 0 <= i < |d.ev.log| && d.ev.log[i].kind == TxEvent ensures d.ev.log[i].index < posted {
      assert GenuineAt(d.ev.log, d.rx.arrivals, d.tx.reported, i);
    }
    DebtSameIff(d, d');
    assert d.ev.log[..|d.ev.log|] == d.ev.log;
    CountRxSameIff(d.ev.log, d.ev.taken, |d.ev.log|);
    if UnreadRx(d) == 0 && NoRx(d'.ev.log, |d.ev.log|, c) {
      forall i | d.ev.taken <= i < d'.ev.taken ensures d'.ev.log[i].kind != RxEvent {
        if i < |d.ev.log| { assert d'.ev.log[i] == d.ev.log[i]; }
      }
    }
    if NoRx(d'.ev.log, d.ev.taken, d'.ev.taken) {
      forall i | d.ev.taken <= i < |d.ev.log| ensures d.ev.log[i].kind != RxEvent {
        assert d'.ev.log[i] == d.ev.log[i];
      }
    }
  }

  /** The event completes a descriptor in the slot of `posted`. */
  ghost predicate Completes(e: Event, posted: nat) {
    e.kind == TxEvent && Slot(e.index) == Slot(posted)
  }
}
