/** One port of the card: the DMA memory it shares with the driver and the device's own
    history. Device actions and driver accesses are single steps on this state; `Inv` is
    what every one of them keeps. The device follows the descriptors and the doorbells it
    is given; nothing tells it which slot the driver means. */
module Port {
  import opened Rings
  import EventQueue

  type Bytes = seq<Byte>

  datatype Kind = RxEvent | TxEvent | OtherEvent

  /** An event as the device means it. `index` is the arrival an RX event announces, or the
      absolute index of the last descriptor a TX event completes; the driver sees only `raw`. */
  datatype Event = Event(raw: Word, kind: Kind, index: nat)

  /** A received packet: the 14-byte EF10 prefix and the frame behind it. */
  datatype Packet = Packet(prefix: Bytes, frame: Bytes)

  const PREFIX_LEN: nat := 14

  /** The DMA memory. Packet buffers are listed slot by slot. */
  datatype Memory = Memory(
    ev: seq<Word>,
    rxDesc: seq<Word>, rxBuf: seq<Bytes>,
    txDesc: seq<Word>, txBuf: seq<Bytes>)

  /** The device's history of its three queues, with the driver's share of it. */
  datatype EvSide = EvSide(log: seq<Event>, taken: nat, acked: nat)
  datatype RxSide = RxSide(base: nat, arrivals: seq<Packet>, done: nat, adv: nat)
  datatype TxSide = TxSide(base: nat, submitted: seq<Bytes>, wire: seq<Bytes>, reported: nat, adv: nat)

  /** `ev`: events written, consumed by the driver, known to be consumed.
      `rx`: buffer bus address, packets DMAed, slots recycled, descriptors handed over.
      `tx`: buffer bus address, frames posted, frames sent, frames reported complete,
      descriptors handed over. */
  datatype Device = Device(ev: EvSide, rx: RxSide, tx: TxSide)

  // ------------------------------------------------------------------ words

  function Code(w: Word): nat {
    w / 0x1000_0000_0000_0000 % 0x10
  }

  function KindOf(w: Word): Kind {
    if Code(w) == 0 then RxEvent else if Code(w) == 2 then TxEvent else OtherEvent
  }

  /** EV_CODE is bits 63:60: 0 for an RX event, 2 for a TX event, whatever lies below. */
  lemma EventCode(code: nat, rest: nat)
    requires code < 0x10 && rest < 0x1000_0000_0000_0000
    ensures code * 0x1000_0000_0000_0000 + rest < 0x1_0000_0000_0000_0000
    ensures var w: Word := code * 0x1000_0000_0000_0000 + rest;
            && Code(w) == code && (EventQueue.IsRx(w) <==> code == 0)
            && (KindOf(w) == RxEvent <==> code == 0) && (KindOf(w) == TxEvent <==> code == 2)
            && w % 0x4000 == rest % 0x4000 && w % 0x1_0000 == rest % 0x1_0000
  {
  }

  /** A descriptor word: BYTE_CNT in bits 61:48 above a 48-bit bus address. */
  function Descriptor(count: nat, address: nat): Word {
    (count % 0x4000) * 0x1_0000_0000_0000
    + (address / 0x1_0000_0000 % 0x1_0000) * 0x1_0000_0000
    + address % 0x1_0000_0000
  }

  function DescCount(w: Word): nat {
    w / 0x1_0000_0000_0000 % 0x4000
  }

  function DescAddress(w: Word): nat {
    w % 0x1_0000_0000_0000
  }

  /** Bits 63 and 62, TYPE and CONT, are clear: a kernel descriptor that ends its packet. The
      device acts on no other here. */
  predicate Whole(w: Word) {
    w < 0x4000_0000_0000_0000
  }

  /** A word that says `count` bytes at buffer slot `slot`, number for number. */
  predicate Says(w: Word, count: nat, base: nat, slot: nat) {
    w == count * 0x1_0000_0000_0000 + base + slot * 2048
  }

  /** The device reads back what the driver packed exactly when both fields fit; whether or not
      they do, nothing spills into TYPE and CONT. */
  lemma DescriptorRoundTrip(count: nat, address: nat)
    ensures Whole(Descriptor(count, address))
    ensures count < 0x4000 && address < 0x1_0000_0000_0000 ==>
              Descriptor(count, address) == count * 0x1_0000_0000_0000 + address
    ensures DescCount(Descriptor(count, address)) == count % 0x4000
    ensures DescAddress(Descriptor(count, address)) == address % 0x1_0000_0000_0000
    ensures (DescCount(Descriptor(count, address)) == count && DescAddress(Descriptor(count, address)) == address)
            <==> count < 0x4000 && address < 0x1_0000_0000_0000
  {
    var hi, lo := address / 0x1_0000_0000 % 0x1_0000, address % 0x1_0000_0000;
    assert hi * 0x1_0000_0000 + lo < 0x1_0000_0000_0000;
    assert address % 0x1_0000_0000_0000 == hi * 0x1_0000_0000 + lo;
  }

  function SlotAddress(base: nat, slot: nat): nat {
    base + slot * BUFFER_SIZE
  }

  /** The buffer slot a descriptor's address falls in. */
  function SlotNamed(base: nat, w: Word): int {
    if DescAddress(w) < base then -1 else (DescAddress(w) - base) / BUFFER_SIZE
  }

  function LengthField(slot: Bytes): nat
    requires |slot| >= PREFIX_LEN
  {
    slot[8] as nat + 0x100 * (slot[9] as nat)
  }

  /** Bytes 8 and 9 of the prefix, little-endian. */
  lemma LengthFieldIff(slot: Bytes, len: nat)
    requires |slot| >= PREFIX_LEN && len < 0x1_0000
    ensures LengthField(slot) == len <==> slot[8] as nat == len % 0x100 && slot[9] as nat == len / 0x100
  {
  }

  /** The frame length the driver reads: the prefix field, or in cut-through mode, where
      that field is zero, what the event's byte count leaves after the prefix. */
  function FrameLength(slot: Bytes, rxBytes: nat): nat
    requires |slot| >= PREFIX_LEN
  {
    if LengthField(slot) != 0 then LengthField(slot)
    else if rxBytes > PREFIX_LEN then rxBytes - PREFIX_LEN else 0
  }

  predicate GoodPacket(p: Packet) {
    && |p.prefix| == PREFIX_LEN
    && |p.frame| <= BUFFER_SIZE - PREFIX_LEN
    && (LengthField(p.prefix) == 0 || LengthField(p.prefix) == |p.frame|)
  }

  predicate Announces(raw: Word, p: Packet) {
    !EventQueue.IsMarker(raw) && Code(raw) == 0 && raw % 0x4000 == PREFIX_LEN + |p.frame|
  }

  // ------------------------------------------------------------------ invariant

  function Raws(log: seq<Event>): (r: seq<Word>)
    ensures |r| == |log|
  {
    seq(|log|, i requires 0 <= i < |log| => log[i].raw)
  }

  function CountRx(log: seq<Event>): nat {
    if log == [] then 0
    else CountRx(log[..|log| - 1]) + (if log[|log| - 1].kind == RxEvent then 1 else 0)
  }

  /** RX events consumed whose slot has not been recycled yet. */
  function Debt(d: Device): int
    requires d.ev.taken <= |d.ev.log|
  {
    CountRx(d.ev.log[..d.ev.taken]) - d.rx.done
  }

  ghost predicate EvInv(ring: seq<Word>, e: EvSide) {
    && e.acked <= e.taken <= |e.log|
    && |e.log| - e.acked < RING
    && EventQueue.RingHolds(ring, Raws(e.log), e.taken)
  }

  /** Every event means what its word says. */
  ghost predicate LogInv(log: seq<Event>, arrivals: seq<Packet>, reported: nat) {
    && CountRx(log) == |arrivals|
    && forall i :: 0 <= i < |log| ==> GenuineAt(log, arrivals, reported, i)
  }

  ghost predicate GenuineAt(log: seq<Event>, arrivals: seq<Packet>, reported: nat, i: nat)
    requires i < |log|
  {
    var e := log[i];
    && e.kind == KindOf(e.raw)
    && (e.kind == RxEvent ==>
         e.index == CountRx(log[..i]) < |arrivals| && Announces(e.raw, arrivals[e.index]))
    && (e.kind == TxEvent ==> e.index < reported && e.raw % 0x1_0000 == e.index % 0x1_0000)
  }

  ghost predicate HoldsPacket(slot: Bytes, p: Packet) {
    |slot| == BUFFER_SIZE && p.prefix + p.frame <= slot
  }

  ghost predicate HoldsArrival(buf: seq<Bytes>, arrivals: seq<Packet>, i: nat)
    requires |buf| == RING && i < |arrivals|
  {
    HoldsPacket(buf[Slot(i)], arrivals[i])
  }

  /** Descriptor `k` names buffer slot `k`, in full. */
  ghost predicate Describes(desc: seq<Word>, base: nat, k: nat)
    requires |desc| == RING && k < RING
  {
    desc[k] == Descriptor(BUFFER_SIZE, SlotAddress(base, k))
  }

  ghost predicate RxInv(desc: seq<Word>, buf: seq<Bytes>, r: RxSide) {
    && r.done <= |r.arrivals| <= r.adv == r.done + RING - 1
    && r.base + RING * BUFFER_SIZE <= 0x1_0000_0000_0000
    && |desc| == |buf| == RING
    && (forall k :: 0 <= k < RING ==> Describes(desc, r.base, k))
    && (forall k :: 0 <= k < RING ==> |buf[k]| == BUFFER_SIZE)
    && (forall i :: 0 <= i < |r.arrivals| ==> GoodPacket(r.arrivals[i]))
    && (forall i :: r.done <= i < |r.arrivals| ==> HoldsArrival(buf, r.arrivals, i))
  }

  /** The slot of an unsent frame holds its bytes, and its descriptor says so. */
  ghost predicate HoldsUnsent(desc: seq<Word>, buf: seq<Bytes>, base: nat, submitted: seq<Bytes>, i: nat)
    requires |desc| == |buf| == RING && i < |submitted|
  {
    && desc[Slot(i)] == Descriptor(|submitted[i]|, SlotAddress(base, Slot(i)))
    && submitted[i] <= buf[Slot(i)]
  }

  ghost predicate TxInv(desc: seq<Word>, buf: seq<Bytes>, t: TxSide) {
    && t.reported <= |t.wire| <= |t.submitted| == t.adv < |t.wire| + RING
    && t.wire == t.submitted[..|t.wire|]
    && (forall i :: 0 <= i < |t.submitted| ==> |t.submitted[i]| <= BUFFER_SIZE)
    && t.base + RING * BUFFER_SIZE <= 0x1_0000_0000_0000
    && |desc| == |buf| == RING
    && (forall k :: 0 <= k < RING ==> |buf[k]| == BUFFER_SIZE)
    && (forall i :: |t.wire| <= i < t.adv ==> HoldsUnsent(desc, buf, t.base, t.submitted, i))
  }

  /** Everything but the TX ring. */
  ghost predicate Core(m: Memory, d: Device) {
    && EvInv(m.ev, d.ev)
    && LogInv(d.ev.log, d.rx.arrivals, d.tx.reported)
    && RxInv(m.rxDesc, m.rxBuf, d.rx)
    && Debt(d) >= 0
  }

  ghost predicate Inv(m: Memory, d: Device) {
    Core(m, d) && TxInv(m.txDesc, m.txBuf, d.tx)
  }

  /** After a 512th unsent frame: the doorbell has come round to the NIC's read position, and
      the NIC believes that it has nothing to send. */
  ghost predicate Wrapped(m: Memory, t: TxSide) {
    && t.reported <= |t.wire| == t.adv && |t.submitted| == |t.wire| + RING
    && |m.txDesc| == |m.txBuf| == RING
  }

  /** What holds even if the driver has overrun the TX ring. */
  ghost predicate Weak(m: Memory, d: Device) {
    Core(m, d) && (TxInv(m.txDesc, m.txBuf, d.tx) || Wrapped(m, d.tx))
  }

  // ------------------------------------------------------------------ counting

  lemma {:induction false} CountRxMonotone(log: seq<Event>, i: nat)
    requires i <= |log|
    ensures CountRx(log[..i]) <= CountRx(log)
    decreases |log|
  {
    if i == |log| {
      assert log[..i] == log;
    } else {
      CountRxMonotone(log[..|log| - 1], i);
      assert log[..|log| - 1][..i] == log[..i];
    }
  }

  lemma CountRxSnoc(log: seq<Event>, i: nat)
    requires i < |log|
    ensures CountRx(log[..i + 1]) == CountRx(log[..i]) + (if log[i].kind == RxEvent then 1 else 0)
  {
    assert log[..i + 1][..i] == log[..i];
  }

  lemma CountRxAppend(log: seq<Event>, e: Event)
    ensures CountRx(log + [e]) == CountRx(log) + (if e.kind == RxEvent then 1 else 0)
  {
    assert (log + [e])[..|log|] == log;
  }

  /** Consuming a stretch of the log leaves the debt alone exactly when it holds no RX event. */
  lemma {:induction false} CountRxSameIff(log: seq<Event>, a: nat, b: nat)
    requires a <= b <= |log|
    ensures CountRx(log[..a]) <= CountRx(log[..b])
    ensures CountRx(log[..a]) == CountRx(log[..b]) <==> forall i :: a <= i < b ==> log[i].kind != RxEvent
    decreases b
  {
    if a < b {
      CountRxSameIff(log, a, b - 1);
      CountRxSnoc(log, b - 1);
    }
  }

  // ------------------------------------------------------------------ device actions

  datatype Action =
    | Receive(packet: Packet, raw: Word)  // DMA a packet into the next RX buffer and announce it
    | Send                                // fetch the next TX descriptor and put its bytes on the wire
    | Report(raw: Word)                   // report every frame sent so far complete, in one event
    | Notify(raw: Word)                   // any other event

  predicate HasRoom(e: EvSide) {
    |e.log| < e.acked + RING - 1
  }

  /** What the device itself checks before it acts. */
  predicate Enabled(d: Device, a: Action) {
    match a
    case Receive(p, raw) => |d.rx.arrivals| < d.rx.adv && HasRoom(d.ev) && GoodPacket(p) && Announces(raw, p)
    case Send => |d.tx.wire| < d.tx.adv
    case Report(raw) =>
      HasRoom(d.ev) && d.tx.reported < |d.tx.wire| && Code(raw) == 2
      && raw % 0x1_0000 == (|d.tx.wire| - 1) % 0x1_0000
    case Notify(raw) => HasRoom(d.ev) && KindOf(raw) == OtherEvent && !EventQueue.IsMarker(raw)
  }

  function Overlay(bytes: Bytes, slot: Bytes): Bytes {
    if |bytes| <= |slot| then bytes + slot[|bytes|..] else bytes
  }

  predicate Sized(m: Memory) {
    |m.ev| == |m.rxDesc| == |m.rxBuf| == |m.txDesc| == |m.txBuf| == RING
  }

  /** The device writes one event. */
  function Log(m: Memory, d: Device, e: Event): (Memory, Device)
    requires |m.ev| == RING
  {
    (m.(ev := m.ev[Slot(|d.ev.log|) := e.raw]), d.(ev := d.ev.(log := d.ev.log + [e])))
  }

  function Act(m: Memory, d: Device, a: Action): (Memory, Device)
    requires Sized(m)
  {
    if !Enabled(d, a) then (m, d)
    else match a
    case Receive(p, raw) =>
      var w := m.rxDesc[Slot(|d.rx.arrivals|)];
      var k := SlotNamed(d.rx.base, w);
      if Whole(w) && 0 <= k < RING then
        Log(m.(rxBuf := m.rxBuf[k := Overlay(p.prefix + p.frame, m.rxBuf[k])]),
            d.(rx := d.rx.(arrivals := d.rx.arrivals + [p])), Event(raw, RxEvent, |d.rx.arrivals|))
      else (m, d)
    case Send =>
      var w := m.txDesc[Slot(|d.tx.wire|)];
      var k := SlotNamed(d.tx.base, w);
      if Whole(w) && 0 <= k < RING && DescCount(w) <= |m.txBuf[k]| then
        (m, d.(tx := d.tx.(wire := d.tx.wire + [m.txBuf[k][..DescCount(w)]])))
      else (m, d)
    case Report(raw) =>
      Log(m, d.(tx := d.tx.(reported := |d.tx.wire|)), Event(raw, TxEvent, |d.tx.wire| - 1))
    case Notify(raw) =>
      Log(m, d, Event(raw, OtherEvent, 0))
  }

  lemma SlotNamedExact(base: nat, k: nat, count: nat)
    requires k < RING && count < 0x4000 && base + RING * BUFFER_SIZE <= 0x1_0000_0000_0000
    ensures SlotNamed(base, Descriptor(count, SlotAddress(base, k))) == k
    ensures DescCount(Descriptor(count, SlotAddress(base, k))) == count
    ensures Whole(Descriptor(count, SlotAddress(base, k)))
    ensures Says(Descriptor(count, SlotAddress(base, k)), count, base, k)
  {
    DescriptorRoundTrip(count, SlotAddress(base, k));
  }

  lemma LogKeepsRing(ring: seq<Word>, e: EvSide, x: Event)
    requires EvInv(ring, e) && HasRoom(e) && !EventQueue.IsMarker(x.raw)
    ensures EvInv(ring[Slot(|e.log|) := x.raw], e.(log := e.log + [x]))
  {
    EventQueue.RingHoldsWrite(ring, Raws(e.log), e.taken, x.raw);
    assert Raws(e.log + [x]) == Raws(e.log) + [x.raw];
  }

  lemma LogKeepsMeaning(log: seq<Event>, arrivals: seq<Packet>, reported: nat,
                        arrivals': seq<Packet>, reported': nat, x: Event)
    requires LogInv(log, arrivals, reported)
    requires arrivals <= arrivals' && reported <= reported'
    requires |arrivals'| == |arrivals| + (if x.kind == RxEvent then 1 else 0)
    requires x.kind == KindOf(x.raw)
    requires x.kind == RxEvent ==> x.index == |arrivals| && Announces(x.raw, arrivals'[x.index])
    requires x.kind == TxEvent ==> x.index < reported' && x.raw % 0x1_0000 == x.index % 0x1_0000
    ensures LogInv(log + [x], arrivals', reported')
  {
    var log' := log + [x];
    CountRxAppend(log, x);
    forall i | 0 <= i < |log'|
      ensures GenuineAt(log', arrivals', reported', i)
    {
      if i < |log| {
        assert GenuineAt(log, arrivals, reported, i);
        assert log'[..i] == log[..i];
      } else {
        assert log'[..i] == log;
      }
    }
  }

  lemma ReceiveKeepsRx(desc: seq<Word>, buf: seq<Bytes>, r: RxSide, p: Packet)
    requires RxInv(desc, buf, r) && GoodPacket(p) && |r.arrivals| < r.adv
    ensures var s := Slot(|r.arrivals|);
            && SlotNamed(r.base, desc[s]) == s && Whole(desc[s])
            && RxInv(desc, buf[s := Overlay(p.prefix + p.frame, buf[s])], r.(arrivals := r.arrivals + [p]))
  {
    var s := Slot(|r.arrivals|);
    assert Describes(desc, r.base, s);
    SlotNamedExact(r.base, s, BUFFER_SIZE);
    var buf' := buf[s := Overlay(p.prefix + p.frame, buf[s])];
    forall i | r.done <= i < |r.arrivals| + 1
      ensures HoldsArrival(buf', r.arrivals + [p], i)
    {
      if i < |r.arrivals| {
        SlotsDistinct(i, |r.arrivals|);
        assert HoldsArrival(buf, r.arrivals, i);
      }
    }
  }

  lemma SendKeepsTx(desc: seq<Word>, buf: seq<Bytes>, t: TxSide)
    requires TxInv(desc, buf, t) && |t.wire| < t.adv
    ensures var s := Slot(|t.wire|);
            && SlotNamed(t.base, desc[s]) == s && Whole(desc[s])
            && DescCount(desc[s]) <= BUFFER_SIZE
            && buf[s][..DescCount(desc[s])] == t.submitted[|t.wire|]
            && TxInv(desc, buf, t.(wire := t.wire + [t.submitted[|t.wire|]]))
  {
    var s := Slot(|t.wire|);
    assert HoldsUnsent(desc, buf, t.base, t.submitted, |t.wire|);
    SlotNamedExact(t.base, s, |t.submitted[|t.wire|]|);
  }

  /** The device only ever adds to its history and never touches the driver's. */
  ghost predicate Later(d: Device, d': Device) {
    && d'.ev == d.ev.(log := d'.ev.log)
    && d'.rx == d.rx.(arrivals := d'.rx.arrivals)
    && d'.tx == d.tx.(wire := d'.tx.wire, reported := d'.tx.reported)
    && d.ev.log <= d'.ev.log && d.rx.arrivals <= d'.rx.arrivals && d.tx.wire <= d'.tx.wire
    && d.tx.reported <= d'.tx.reported
  }

  /** `Later`, with the driver having consumed events in between. */
  ghost predicate Meanwhile(d: Device, d': Device) {
    && d.ev.log <= d'.ev.log && d.ev.taken <= d'.ev.taken && d.ev.acked == d'.ev.acked
    && d.rx.arrivals <= d'.rx.arrivals && d'.rx == d.rx.(arrivals := d'.rx.arrivals)
    && d.tx.wire <= d'.tx.wire && d.tx.reported <= d'.tx.reported
    && d'.tx == d.tx.(wire := d'.tx.wire, reported := d'.tx.reported)
  }

  lemma MeanwhileTransitive(d: Device, d1: Device, d2: Device)
    requires Meanwhile(d, d1) && Meanwhile(d1, d2)
    ensures Meanwhile(d, d2)
  {
  }

  lemma LaterKeepsDebt(d: Device, d': Device)
    requires Later(d, d') && d.ev.taken <= |d.ev.log|
    ensures Debt(d') == Debt(d)
  {
    assert d'.ev.log[..d.ev.taken] == d.ev.log[..d.ev.taken];
  }

  /** Everything the device does but sending. */
  lemma ActCore(m: Memory, d: Device, a: Action)
    requires Core(m, d) && Sized(m) && d.tx.reported <= |d.tx.wire| && !a.Send?
    ensures var (m', d') := Act(m, d, a);
            && Core(m', d') && m'.txDesc == m.txDesc && m'.txBuf == m.txBuf
            && d'.tx == d.tx.(reported := d'.tx.reported) && d'.tx.reported <= |d.tx.wire|
            && Later(d, d') && Debt(d') == Debt(d)
  {
    var d' := Act(m, d, a).1;
    if Enabled(d, a) {
      match a
      case Receive(p, raw) =>
        ReceiveKeepsRx(m.rxDesc, m.rxBuf, d.rx, p);
        var x := Event(raw, RxEvent, |d.rx.arrivals|);
        LogKeepsRing(m.ev, d.ev, x);
        LogKeepsMeaning(d.ev.log, d.rx.arrivals, d.tx.reported, d'.rx.arrivals, d.tx.reported, x);
      case Report(raw) =>
        var x := Event(raw, TxEvent, |d.tx.wire| - 1);
        LogKeepsRing(m.ev, d.ev, x);
        LogKeepsMeaning(d.ev.log, d.rx.arrivals, d.tx.reported, d.rx.arrivals, |d.tx.wire|, x);
      case Notify(raw) =>
        var x := Event(raw, OtherEvent, 0);
        LogKeepsRing(m.ev, d.ev, x);
        LogKeepsMeaning(d.ev.log, d.rx.arrivals, d.tx.reported, d.rx.arrivals, d.tx.reported, x);
    }
    LaterKeepsDebt(d, d');
  }

  /** Whatever the device does next keeps the invariant, and the weaker one as well. */
  lemma ActInv(m: Memory, d: Device, a: Action)
    requires Weak(m, d)
    ensures Weak(Act(m, d, a).0, Act(m, d, a).1)
    ensures Inv(m, d) ==> Inv(Act(m, d, a).0, Act(m, d, a).1)
    ensures Later(d, Act(m, d, a).1) && Debt(Act(m, d, a).1) == Debt(d)
  {
    if !a.Send? {
      ActCore(m, d, a);
    } else if |d.tx.wire| < d.tx.adv {
      SendKeepsTx(m.txDesc, m.txBuf, d.tx);
      LaterKeepsDebt(d, Act(m, d, a).1);
    }
  }

  // ------------------------------------------------------------------ stale completions

  /** No unread TX completion is a full ring older than the newest frame posted. */
  ghost predicate Fresh(d: Device) {
    FreshFor(d.ev, |d.tx.submitted|)
  }

  ghost predicate FreshFor(e: EvSide, posted: nat) {
    forall i :: e.taken <= i < |e.log| ==> FreshAt(e.log, posted, i)
  }

  ghost predicate FreshAt(log: seq<Event>, posted: nat, i: nat)
    requires i < |log|
  {
    log[i].kind == TxEvent ==> posted <= log[i].index + RING
  }

  /** The device cannot make a completion stale: what it reports is as recent as the ring is
      deep. */
  lemma ActFresh(m: Memory, d: Device, a: Action)
    requires Inv(m, d) && Sized(m)
    ensures Fresh(d) ==> Fresh(Act(m, d, a).1)
  {
    var d' := Act(m, d, a).1;
    if Fresh(d) {
      forall i | d'.ev.taken <= i < |d'.ev.log|
        ensures FreshAt(d'.ev.log, |d'.tx.submitted|, i)
      {
        if i < |d.ev.log| {
          assert FreshAt(d.ev.log, |d.tx.submitted|, i);
        }
      }
    }
  }
}
