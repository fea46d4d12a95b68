/** userlib/bench.c, window 1: run_latency on either path and run_throughput_kernel. Two
    ports bounce one frame; the devices and the wire move on their own. The two halves of a
    round trip are mirror images, so the state names the port about to send `me` and its
    peer `peer`, and a completed reception swaps them.

    Neither host loop recycles an RX slot for an RX event it walks past: the ioctl path's TX
    loop discards what it reads, and `wait_rx` returns at the first RX event of a batch it
    has already consumed. `lost` counts those. */
module PingPong {
  import opened Rings

  datatype Path = DirectPath | IoctlPath

  datatype Note = Rx | Tx(index: nat) | Other

  datatype Side = Side(
    unread: seq<Note>,   // data event queue, oldest first
    posted: nat,         // TX frames handed to the ring
    sent: nat,           //   fetched and put on the wire
    reported: nat,       //   reported complete
    filled: nat,         // RX slots filled by the NIC
    done: nat)           //   recycled by the host

  datatype Stage = Sending | Awaiting | Receiving

  datatype World = World(
    me: Side, peer: Side,
    there: nat, back: nat,   // frames on the wire, towards the peer and towards me
    stage: Stage,
    batch: seq<Note>,        // events consumed by the poll in progress at the peer
    lost: nat,
    halves: nat)             // completed half round trips

  const BATCH: nat := 8

  function RxNotes(s: seq<Note>): nat {
    if s == [] then 0 else (if s[0] == Rx then 1 else 0) + RxNotes(s[1..])
  }

  function TxNotes(s: seq<Note>): nat {
    if s == [] then 0 else (if s[0].Tx? then 1 else 0) + TxNotes(s[1..])
  }

  lemma {:induction false} CountAppend(s: seq<Note>, t: seq<Note>)
    ensures RxNotes(s + t) == RxNotes(s) + RxNotes(t)
    ensures TxNotes(s + t) == TxNotes(s) + TxNotes(t)
  {
    if s == [] {
      assert s + t == t;
    } else {
      assert (s + t)[1..] == s[1..] + t;
      CountAppend(s[1..], t);
    }
  }

  // ------------------------------------------------------------------ devices and wire

  datatype Step =
    | Send(mine: bool)     // a NIC puts its next frame on the wire
    | Report(mine: bool)   // and reports everything sent so far complete
    | Deliver(mine: bool)  // the wire delivers a frame to the chosen port
    | Notify(mine: bool)   // any other event
    | Host

  predicate Room(s: Side) {
    |s.unread| < RING - 1
  }

  function Write(s: Side, n: Note): Side {
    s.(unread := s.unread + [n])
  }

  function Reported(s: Side): Side {
    if s.reported < s.sent && Room(s) then Write(s, Tx(s.sent - 1)).(reported := s.sent) else s
  }

  function Delivered(s: Side): Side {
    Write(s, Rx).(filled := s.filled + 1)
  }

  /** A NIC accepts a frame while it has an advertised descriptor and event queue room. */
  predicate CanAccept(s: Side) {
    s.filled < s.done + RING - 1 && Room(s)
  }

  function Device(w: World, step: Step): World
    requires !step.Host?
  {
    match step
    case Send(mine) =>
      if mine && w.me.sent < w.me.posted
      then w.(me := w.me.(sent := w.me.sent + 1), there := w.there + 1)
      else if !mine && w.peer.sent < w.peer.posted
      then w.(peer := w.peer.(sent := w.peer.sent + 1), back := w.back + 1)
      else w
    case Report(mine) =>
      if mine then w.(me := Reported(w.me)) else w.(peer := Reported(w.peer))
    case Deliver(mine) =>
      if mine && w.back > 0 && CanAccept(w.me) then w.(me := Delivered(w.me), back := w.back - 1)
      else if !mine && w.there > 0 && CanAccept(w.peer) then w.(peer := Delivered(w.peer), there := w.there - 1)
      else w
    case Notify(mine) =>
      if mine && Room(w.me) then w.(me := Write(w.me, Other))
      else if !mine && Room(w.peer) then w.(peer := Write(w.peer, Other))
      else w
  }

  // ------------------------------------------------------------------ the host program

  /** The peer has the frame: it will send next. */
  function Swapped(w: World): World {
    World(w.peer, w.me, w.back, w.there, Sending, [], w.lost, w.halves + 1)
  }

  function Recycle(w: World): World {
    w.(peer := w.peer.(done := w.peer.done + 1))
  }

  /** RX events of a batch behind the first one. */
  function Skipped(batch: seq<Note>): nat {
    if RxNotes(batch) == 0 then 0 else RxNotes(batch) - 1
  }

  function Host(path: Path, w: World): World {
    match w.stage
    case Sending =>
      w.(me := w.me.(posted := w.me.posted + 1),
         stage := if path == IoctlPath then Awaiting else Receiving)
    case Awaiting =>
      // the spin inside SFC7120_TX: consume whatever comes until the completion matches
      if w.me.unread == [] then w
      else
        var n := w.me.unread[0];
        var w' := w.(me := w.me.(unread := w.me.unread[1..]), lost := if n == Rx then w.lost + 1 else w.lost);
        if n.Tx? && Slot(n.index) == Slot(w.me.posted - 1 + RING) then w'.(stage := Receiving) else w'
    case Receiving =>
      if path == IoctlPath then
        // the spin inside SFC7120_RX
        if w.peer.unread == [] then w
        else
          var n := w.peer.unread[0];
          var w' := w.(peer := w.peer.(unread := w.peer.unread[1..]));
          if n == Rx then Swapped(Recycle(w')) else w'
      else if |w.batch| < BATCH && w.peer.unread != [] then
        // inside sfc7120_poll
        w.(batch := w.batch + [w.peer.unread[0]], peer := w.peer.(unread := w.peer.unread[1..]))
      else if Rx in w.batch then
        // wait_rx: receive for the first RX event, return
        Swapped(Recycle(w.(lost := w.lost + Skipped(w.batch))))
      else w.(batch := [])
  }

  function Next(path: Path, w: World, step: Step): World {
    if step.Host? then Host(path, w) else Device(w, step)
  }

  // ------------------------------------------------------------------ invariant

  ghost predicate SideInv(s: Side, pending: nat) {
    s.reported <= s.sent <= s.posted && s.filled == s.done + RxNotes(s.unread) + pending
  }

  /** Where the one frame is: in my TX ring, on the wire to the peer, or announced to the
      peer and not yet received; nowhere while nothing is posted. */
  ghost predicate OneFrame(w: World) {
    && w.peer.sent == w.peer.posted && w.back == 0 && RxNotes(w.me.unread) == 0
    && (w.me.posted - w.me.sent) + w.there + RxNotes(w.peer.unread) + RxNotes(w.batch)
       == (if w.stage == Sending then 0 else 1)
  }

  /** On the ioctl path no completion outlives the call that waited for it. */
  ghost predicate Quiet(w: World) {
    && w.batch == []
    && w.peer.reported == w.peer.posted && TxNotes(w.peer.unread) == 0
    && (w.me.posted - w.me.reported) + TxNotes(w.me.unread) == (if w.stage == Awaiting then 1 else 0)
    && (forall i :: 0 <= i < |w.me.unread| && w.me.unread[i].Tx? ==> w.me.unread[i].index + 1 == w.me.posted)
  }

  ghost predicate Inv(path: Path, w: World) {
    && SideInv(w.me, 0) && SideInv(w.peer, RxNotes(w.batch))
    && OneFrame(w) && w.lost == 0
    && (w.stage != Receiving ==> w.batch == [])
    && (path == DirectPath ==> w.stage != Awaiting)
    && (path == IoctlPath ==> Quiet(w))
    && w.me.filled + w.peer.filled == w.halves + RxNotes(w.peer.unread) + RxNotes(w.batch)
  }

  lemma CountSnoc(s: seq<Note>, n: Note)
    ensures RxNotes(s + [n]) == RxNotes(s) + (if n == Rx then 1 else 0)
    ensures TxNotes(s + [n]) == TxNotes(s) + (if n.Tx? then 1 else 0)
  {
    CountAppend(s, [n]);
  }

  lemma DeviceInv(path: Path, w: World, step: Step)
    requires Inv(path, w) && !step.Host?
    ensures Inv(path, Device(w, step))
  {
    match step
    case Send(mine) =>
    case Report(mine) =>
      ReportInv(path, w, mine);
    case Deliver(mine) =>
      CountSnoc(w.peer.unread, Rx);
    case Notify(mine) =>
      NotifyInv(path, w, mine);
  }

  lemma ReportInv(path: Path, w: World, mine: bool)
    requires Inv(path, w)
    ensures Inv(path, Device(w, Report(mine)))
  {
    if mine {
      if w.me.reported < w.me.sent { CountSnoc(w.me.unread, Tx(w.me.sent - 1)); }
    } else {
      if w.peer.reported < w.peer.sent { CountSnoc(w.peer.unread, Tx(w.peer.sent - 1)); }
    }
  }

  lemma NotifyInv(path: Path, w: World, mine: bool)
    requires Inv(path, w)
    ensures Inv(path, Device(w, Notify(mine)))
  {
    if mine {
      CountSnoc(w.me.unread, Other);
    } else {
      CountSnoc(w.peer.unread, Other);
    }
  }

  lemma {:induction false} NoTx(s: seq<Note>)
    requires TxNotes(s) == 0
    ensures forall i :: 0 <= i < |s| ==> !s[i].Tx?
  {
    if s != [] {
      NoTx(s[1..]);
    }
  }

  lemma {:induction false} RxNotesZeroIff(s: seq<Note>)
    ensures Rx in s <==> RxNotes(s) > 0
  {
    if s != [] {
      RxNotesZeroIff(s[1..]);
    }
  }

  lemma AwaitingInv(w: World)
    requires Inv(IoctlPath, w) && w.stage == Awaiting && w.me.unread != []
    ensures Inv(IoctlPath, Host(IoctlPath, w))
  {
    if w.me.unread[0].Tx? {
      assert Slot(w.me.posted - 1 + RING) == Slot(w.me.posted - 1);
    }
  }

  lemma IoctlReceivingInv(w: World)
    requires Inv(IoctlPath, w) && w.stage == Receiving && w.peer.unread != []
    ensures Inv(IoctlPath, Host(IoctlPath, w))
  {
    NoTx(w.peer.unread);
  }

  lemma DirectReceivingInv(w: World)
    requires Inv(DirectPath, w) && w.stage == Receiving
    ensures Inv(DirectPath, Host(DirectPath, w))
  {
    if |w.batch| < BATCH && w.peer.unread != [] {
      CountSnoc(w.batch, w.peer.unread[0]);
    } else {
      RxNotesZeroIff(w.batch);
    }
  }

  lemma HostInv(path: Path, w: World)
    requires Inv(path, w)
    ensures Inv(path, Host(path, w))
  {
    match w.stage
    case Sending =>
      if path == IoctlPath { NoTx(w.me.unread); }
    case Awaiting =>
      if w.me.unread != [] { AwaitingInv(w); }
    case Receiving =>
      if path == DirectPath {
        DirectReceivingInv(w);
      } else if w.peer.unread != [] {
        IoctlReceivingInv(w);
      }
  }

  // ------------------------------------------------------------------ runs

  function Idle(s: Side): bool {
    s.unread == [] && s.posted == s.sent == s.reported && s.filled == s.done
  }

  ghost predicate Run(path: Path, ws: seq<World>, steps: seq<Step>) {
    && |ws| == |steps| + 1
    && (var w := ws[0];
        Idle(w.me) && Idle(w.peer) && w.there == w.back == w.lost == 0 && w.stage == Sending && w.batch == []
        && w.halves == w.me.filled + w.peer.filled)
    && forall k :: 0 <= k < |steps| ==> ws[k + 1] == Next(path, ws[k], steps[k])
  }

  lemma {:induction false} RunInv(path: Path, ws: seq<World>, steps: seq<Step>, k: nat)
    requires Run(path, ws, steps) && k < |ws|
    ensures Inv(path, ws[k])
  {
    if k > 0 {
      RunInv(path, ws, steps, k - 1);
      if steps[k - 1].Host? {
        HostInv(path, ws[k - 1]);
      } else {
        DeviceInv(path, ws[k - 1], steps[k - 1]);
      }
    }
  }

  /** In every run on either path no RX event is ever discarded, at most one is unread on
      either port, the NIC never lacks an RX descriptor, and whenever a frame is about to be
      sent `rx_head` stands at the NIC's fill slot on both ports. */
  lemma NothingIsLost(path: Path, ws: seq<World>, steps: seq<Step>, k: nat)
    requires Run(path, ws, steps) && k < |ws|
    ensures var w := ws[k];
            && w.lost == 0
            && RxNotes(w.me.unread) == 0 && RxNotes(w.peer.unread) + RxNotes(w.batch) <= 1
            && w.me.filled < w.me.done + RING - 1 && w.peer.filled < w.peer.done + RING - 1
            && (w.stage == Sending ==> Slot(w.me.done) == Slot(w.me.filled) && Slot(w.peer.done) == Slot(w.peer.filled)
                                       && w.me.done + w.peer.done == w.halves)
  {
    RunInv(path, ws, steps, k);
  }
}
