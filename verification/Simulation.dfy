/** The benchmark's two systems count events and frames of a side; these are the counts of a
    port, and every device action and driver access moves them as the systems' steps do. */
module Simulation {
  import opened Rings
  import opened Port
  import opened Driver
  import PingPong
  import Throughput

  // ------------------------------------------------------------------ throughput

  function Counts(d: Device): Throughput.Side
    requires d.ev.taken <= |d.ev.log|
  {
    Throughput.Side(|d.tx.submitted|, |d.tx.wire|, |d.rx.arrivals|, CountRx(d.ev.log[..d.ev.taken]), d.rx.done)
  }

  /** What the throughput system calls a safe post is one that keeps the port sound, and its
      free descriptors are those the NIC was handed. */
  lemma CountsSafe(s: State, frame: Bytes)
    requires Good(s) && |frame| <= BUFFER_SIZE
    ensures Good(Submit(s, frame)) <==> Throughput.Unsent(Counts(s.d)) < RING - 1
    ensures Throughput.FreeDescriptors(Counts(s.d)) == s.d.rx.adv - |s.d.rx.arrivals|
    ensures Debt(s.d) == Counts(s.d).taken - Counts(s.d).done
  {
    SubmitSafeIff(s, frame);
  }

  lemma CountsAct(m: Memory, d: Device, a: Action)
    requires Inv(m, d)
    ensures var c, c' := Counts(d), Counts(Act(m, d, a).1);
            if !Enabled(d, a) then c' == c
            else if a.Send? then c.sent < c.posted && c' == c.(sent := c.sent + 1)
            else if a.Receive? then Throughput.FreeDescriptors(c) > 0 && c' == c.(filled := c.filled + 1)
            else c' == c
  {
    ActInv(m, d, a);
    var d' := Act(m, d, a).1;
    assert d'.ev.log[..d.ev.taken] == d.ev.log[..d.ev.taken];
    if a.Send? && Enabled(d, a) { SendKeepsTx(m.txDesc, m.txBuf, d.tx); }
    if a.Receive? && Enabled(d, a) { ReceiveKeepsRx(m.rxDesc, m.rxBuf, d.rx, a.packet); }
  }

  lemma CountsDriver(s: State, frame: Bytes)
    requires Good(s) && |frame| <= BUFFER_SIZE
    ensures var c := Counts(s.d);
            && (s.d.ev.taken < |s.d.ev.log| ==>
                  var rx := s.d.ev.log[s.d.ev.taken].kind == RxEvent;
                  Counts(Consume(s).d) == (if rx then c.(taken := c.taken + 1) else c) && (rx ==> c.taken < c.filled))
            && Counts(Acknowledge(s).d) == c
            && (Debt(s.d) > 0 ==> c.done < c.taken && Counts(Recycle(s).d) == c.(done := c.done + 1))
            && Counts(Submit(s, frame).d) == c.(posted := c.posted + 1)
  {
    if s.d.ev.taken < |s.d.ev.log| {
      CountRxSnoc(s.d.ev.log, s.d.ev.taken);
      CountRxMonotone(s.d.ev.log, s.d.ev.taken + 1);
    }
  }

  // ------------------------------------------------------------------ ping-pong

  function NoteOf(e: Event): PingPong.Note {
    match e.kind
    case RxEvent => PingPong.Rx
    case TxEvent => PingPong.Tx(e.index)
    case OtherEvent => PingPong.Other
  }

  /** The unread events as the host would note them. */
  function Notes(log: seq<Event>, from: nat): (ns: seq<PingPong.Note>)
    requires from <= |log|
    ensures |ns| == |log| - from
  {
    seq(|log| - from, i requires 0 <= i < |log| - from => NoteOf(log[from + i]))
  }

  function SideOf(d: Device): PingPong.Side
    requires d.ev.taken <= |d.ev.log|
  {
    PingPong.Side(Notes(d.ev.log, d.ev.taken), |d.tx.submitted|, |d.tx.wire|, d.tx.reported, |d.rx.arrivals|, d.rx.done)
  }

  lemma {:induction false} NotesCount(log: seq<Event>, from: nat)
    requires from <= |log|
    ensures PingPong.RxNotes(Notes(log, from)) == CountRx(log) - CountRx(log[..from])
    decreases |log| - from
  {
    if from == |log| {
      assert log[..from] == log;
    } else {
      NotesCount(log, from + 1);
      CountRxSnoc(log, from);
      var ns := Notes(log, from);
      assert ns != [] && ns[0] == NoteOf(log[from]) && ns[1..] == Notes(log, from + 1);
    }
  }

  /** What the ping-pong system keeps for a side with `pending` RX events in hand is what the
      port calls its debt: an event discarded is a debt that stays. */
  lemma DebtIsPending(m: Memory, d: Device, pending: nat)
    requires Inv(m, d)
    ensures PingPong.SideInv(SideOf(d), pending) <==> Debt(d) == pending
  {
    NotesCount(d.ev.log, d.ev.taken);
  }

  lemma NotesGrow(log: seq<Event>, from: nat, e: Event)
    requires from <= |log|
    ensures Notes(log + [e], from) == Notes(log, from) + [NoteOf(e)]
  {
  }

  lemma SideAct(m: Memory, d: Device, a: Action)
    requires Inv(m, d) && Enabled(d, a)
    ensures var p, p' := SideOf(d), SideOf(Act(m, d, a).1);
            match a
            case Receive(_, _) => PingPong.CanAccept(p) && p' == PingPong.Delivered(p)
            case Send => p.sent < p.posted && p' == p.(sent := p.sent + 1)
            case Report(_) => p' == PingPong.Reported(p)
            case Notify(_) => PingPong.Room(p) && p' == PingPong.Write(p, PingPong.Other)
  {
    match a
    case Receive(packet, raw) =>
      ReceiveKeepsRx(m.rxDesc, m.rxBuf, d.rx, packet);
      NotesGrow(d.ev.log, d.ev.taken, Event(raw, RxEvent, |d.rx.arrivals|));
    case Send => SendKeepsTx(m.txDesc, m.txBuf, d.tx);
    case Report(raw) => NotesGrow(d.ev.log, d.ev.taken, Event(raw, TxEvent, |d.tx.wire| - 1));
    case Notify(raw) => NotesGrow(d.ev.log, d.ev.taken, Event(raw, OtherEvent, 0));
  }

  lemma SideDriver(s: State, frame: Bytes)
    requires Good(s) && |frame| <= BUFFER_SIZE
    ensures var p := SideOf(s.d);
            && (s.d.ev.taken < |s.d.ev.log| ==>
                  && p.unread != [] && p.unread[0] == NoteOf(s.d.ev.log[s.d.ev.taken])
                  && SideOf(Consume(s).d) == p.(unread := p.unread[1..]))
            && SideOf(Acknowledge(s).d) == p
            && SideOf(Recycle(s).d) == p.(done := p.done + 1)
            && SideOf(Submit(s, frame).d) == p.(posted := p.posted + 1)
  {
    if s.d.ev.taken < |s.d.ev.log| {
      assert Notes(s.d.ev.log, s.d.ev.taken)[1..] == Notes(s.d.ev.log, s.d.ev.taken + 1);
    }
  }
}
