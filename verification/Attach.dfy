/** Attach and detach (`sfc7120_fbsd_attach`, `sfc7120_hw_init`, `sfc7120_hw_teardown`,
    `sfc7120_fbsd_detach`) against a model of what the firmware holds for the function and of
    which resource needs which. Any step may fail; a command may also take effect and still be
    reported as failed (a lost or short reply). */
module Attach {
  // ------------------------------------------------------------------ what the firmware holds

  datatype Ring = EvqRing | DataEvqRing | TxDescRing | RxDescRing | TxBuffer | RxBuffer

  datatype Queue = Off | On(evq: EvqId)

  /** Firmware resources of the function, the DMA memory the host has allocated, and who can
      still reach it from the host's side: the interrupt handler, and programs through the
      device node. */
  datatype World = World(fn: Function, q: Queues, rings: set<Ring>, wired: bool, node: bool)

  datatype Function = Function(attached: bool, vis: bool, vadaptor: bool)

  datatype Queues = Queues(evq0: bool, evq1: bool, rxq: Queue, txq: Queue, filter: bool)

  function Bare(): World {
    World(Function(false, false, false), Queues(false, false, Off, Off, false), {}, false, false)
  }

  datatype Cmd =
    | DrvAttach | DrvDetach | EntityReset
    | AllocVis | FreeVis | VadaptorAlloc | VadaptorFree
    | InitEvq(n: EvqId) | FiniEvq(n: EvqId)
    | InitRxq(target: EvqId) | FiniRxq | InitTxq(target: EvqId) | FiniTxq
    | FilterInsert | FilterRemove
    | FreeRing(ring: Ring)

  predicate Targets(w: World, n: EvqId) { w.q.rxq == On(n) || w.q.txq == On(n) }

  /** Whether the firmware has been told to read or write a piece of host memory. */
  predicate Uses(w: World, r: Ring) {
    match r
    case EvqRing => w.q.evq0
    case DataEvqRing => w.q.evq1
    case RxDescRing => w.q.rxq.On?
    case RxBuffer => w.q.rxq.On?
    case TxDescRing => w.q.txq.On?
    case TxBuffer => w.q.txq.On?
  }

  datatype EvqId = Control | Data

  predicate Up(w: World, n: EvqId) { if n == Control then w.q.evq0 else w.q.evq1 }

  predicate Idle(q: Queues) { !q.evq0 && !q.evq1 && q.rxq == Off && q.txq == Off && !q.filter }

  /** What the firmware asks of a command. The last is the host's own. */
  predicate Allowed(w: World, c: Cmd) {
    match c
    case DrvAttach => true
    case DrvDetach => true
    case EntityReset => w.fn.attached
    case AllocVis => w.fn.attached && !w.fn.vis
    case FreeVis => w.fn.vis && !w.fn.vadaptor && !w.q.evq0 && !w.q.evq1
    case VadaptorAlloc => w.fn.vis && !w.fn.vadaptor
    case VadaptorFree => w.fn.vadaptor && w.q.rxq == Off && w.q.txq == Off && !w.q.filter
    case InitEvq(n) =>
      && w.fn.vis && !Up(w, n) && (n == Data ==> w.q.evq0)
      && (if n == Control then EvqRing else DataEvqRing) in w.rings
    case FiniEvq(n) => Up(w, n) && !Targets(w, n)
    case InitRxq(n) => w.fn.vadaptor && w.q.rxq == Off && Up(w, n) && RxDescRing in w.rings && RxBuffer in w.rings
    case FiniRxq => w.q.rxq.On? && !w.q.filter
    case InitTxq(n) => w.fn.vadaptor && w.q.txq == Off && Up(w, n) && TxDescRing in w.rings && TxBuffer in w.rings
    case FiniTxq => w.q.txq.On?
    case FilterInsert => w.q.rxq.On? && !w.q.filter
    case FilterRemove => w.q.filter
    case FreeRing(r) => r in w.rings && !Uses(w, r)
  }

  /** Neither the handler nor a program can reach the rings. */
  predicate Quiet(w: World) { !w.wired && !w.node }

  /** What the host owes besides: the control event queue interrupts, so its vector is there
      first; nothing is taken down or freed while the handler or a program can still reach
      it; and the driver detaches from the function last. */
  predicate Timely(w: World, c: Cmd) {
    match c
    case InitEvq(n) => n == Control ==> w.wired
    case FilterRemove => Quiet(w) && w.fn.attached
    case FiniTxq => Quiet(w) && w.fn.attached
    case FiniRxq => Quiet(w) && w.fn.attached
    case FiniEvq(n) => Quiet(w) && w.fn.attached
    case VadaptorFree => Quiet(w) && w.fn.attached
    case FreeVis => Quiet(w) && w.fn.attached
    case DrvDetach => Quiet(w) && w.fn.attached
    case FreeRing(r) => Quiet(w)
    case _ => true
  }

  /** A command in order. */
  predicate Orderly(w: World, c: Cmd) { Allowed(w, c) && Timely(w, c) }

  function Effect(w: World, c: Cmd): World {
    match c
    case DrvAttach => w.(fn := w.fn.(attached := true))
    case DrvDetach => w.(fn := w.fn.(attached := false))
    case EntityReset =>
      w.(fn := w.fn.(vis := false, vadaptor := false), q := Queues(false, false, Off, Off, false))
    case AllocVis => w.(fn := w.fn.(vis := true))
    case FreeVis => w.(fn := w.fn.(vis := false))
    case VadaptorAlloc => w.(fn := w.fn.(vadaptor := true))
    case VadaptorFree => w.(fn := w.fn.(vadaptor := false))
    case InitEvq(n) => if n == Control then w.(q := w.q.(evq0 := true)) else w.(q := w.q.(evq1 := true))
    case FiniEvq(n) => if n == Control then w.(q := w.q.(evq0 := false)) else w.(q := w.q.(evq1 := false))
    case InitRxq(n) => w.(q := w.q.(rxq := On(n)))
    case FiniRxq => w.(q := w.q.(rxq := Off))
    case InitTxq(n) => w.(q := w.q.(txq := On(n)))
    case FiniTxq => w.(q := w.q.(txq := Off))
    case FilterInsert => w.(q := w.q.(filter := true))
    case FilterRemove => w.(q := w.q.(filter := false))
    case FreeRing(r) => w.(rings := w.rings - {r})
  }

  /** What the firmware always keeps: a queue has its event queue, a filter its RX queue, and
      everything rests on VIs. */
  predicate WellFormed(w: World) {
    && (w.q.rxq.On? ==> Up(w, w.q.rxq.evq)) && (w.q.txq.On? ==> Up(w, w.q.txq.evq))
    && (w.q.filter ==> w.q.rxq.On?)
    && (w.q.evq0 || w.q.evq1 || w.fn.vadaptor ==> w.fn.vis)
  }

  lemma EffectWellFormed(w: World, c: Cmd)
    requires WellFormed(w) && Allowed(w, c)
    ensures WellFormed(Effect(w, c))
  {
  }

  datatype Issue = Issue(before: World, cmd: Cmd)

  /** Every command so far was in order when it was issued. In particular no FINI_EVQ was
      sent while a queue targeted it, and no ring was freed under the firmware, the interrupt
      handler or a program that had it mapped. */
  ghost predicate Tidy(log: seq<Issue>) {
    forall k: nat :: InOrder(log, k)
  }

  ghost predicate InOrder(log: seq<Issue>, k: nat) {
    k < |log| ==> Orderly(log[k].before, log[k].cmd)
  }

  lemma TidySnoc(log: seq<Issue>, i: Issue)
    ensures Tidy(log + [i]) <==> Tidy(log) && Orderly(i.before, i.cmd)
  {
    if Tidy(log) && Orderly(i.before, i.cmd) {
      forall k: nat ensures InOrder(log + [i], k) { assert InOrder(log, k); }
    }
    if Tidy(log + [i]) {
      forall k: nat ensures InOrder(log, k) { assert InOrder(log + [i], k); }
      assert InOrder(log + [i], |log|);
    }
  }

  // ------------------------------------------------------------------ what can go wrong

  datatype Step =
    | McdiInit | GetVersion | Attaching | Asserts | Resetting | GetMac | Vis | Vadaptor
    | PhyCfg | SetMac | SetLink | GetLink
    | Dma(ring: Ring) | Intr | ControlEvq | DataEvq | Rxq | Txq | Filter | Cdev

  function Rank(s: Step): nat {
    match s
    case McdiInit => 0 case GetVersion => 1 case Attaching => 2 case Asserts => 3 case Resetting => 4
    case GetMac => 5 case Vis => 6 case Vadaptor => 7 case PhyCfg => 8 case SetMac => 9
    case SetLink => 10 case GetLink => 11
    case Dma(r) => 12 + RingRank(r)
    case Intr => 18 case ControlEvq => 19 case DataEvq => 20 case Rxq => 21 case Txq => 22
    case Filter => 23 case Cdev => 24
  }

  function RingRank(r: Ring): nat {
    match r
    case EvqRing => 0 case DataEvqRing => 1 case TxDescRing => 2
    case RxDescRing => 3 case TxBuffer => 4 case RxBuffer => 5
  }

  /** What GET_ASSERTS comes back with: an answer, possibly too short to read; EACCES;
      EINTR or EIO, which are worth another try; any other error. */
  datatype AssertReply = Answered | TooShort | NotPermitted | Interrupted | Broken

  /** How one load goes: the steps that fail without effect, the commands that take effect
      and fail all the same, the commands that have no effect and succeed all the same (an
      error reply without a code), whether ENTITY_RESET is denied or refused in that way
      (which the driver accepts), the replies to GET_ASSERTS, the failing link polls and the
      poll that sees the link up, and the number of VIs granted. */
  datatype Plan = Plan(refused: set<Step>, silent: set<Step>, hollow: set<Step>, resetDenied: bool,
                       asserts: seq<AssertReply>, linkFails: set<nat>, linkUpAt: nat, viCount: nat)

  const LINK_POLLS: nat := 30
  const ASSERT_TRIES: nat := 3

  function AssertAnswer(p: Plan, i: nat): AssertReply {
    if i < |p.asserts| then p.asserts[i] else Answered
  }

  /** The first reply that is not an interruption is an error, or three interruptions. */
  ghost predicate AssertsFail(p: Plan) {
    || (forall i: nat :: i < 3 ==> AssertAnswer(p, i) == Interrupted)
    || exists i: nat :: i < 3 && AssertAnswer(p, i) == Broken
                        && forall j: nat :: j < i ==> AssertAnswer(p, j) == Interrupted
  }

  /** A poll that is reached fails. */
  ghost predicate LinkPollFails(p: Plan) {
    exists i: nat :: i < 30 && i <= p.linkUpAt && i in p.linkFails
  }

  /** The command of the step has no effect and is taken for a success. The others that set
      something up look at the reply's length. */
  predicate Hollow(p: Plan, s: Step) {
    s in p.hollow && s !in p.refused && (s == Vadaptor || 19 <= Rank(s) < 23)
  }

  /** What the step's command rests on is missing from the firmware. */
  predicate Missing(p: Plan, s: Step) {
    match s
    case DataEvq => Hollow(p, ControlEvq)
    case Rxq => Hollow(p, Vadaptor) || Hollow(p, DataEvq)
    case Txq => Hollow(p, Vadaptor) || Hollow(p, DataEvq)
    case Filter => Hollow(p, Rxq)
    case _ => false
  }

  /** No hollow success ahead of the step ranked `n`. */
  predicate Genuine(p: Plan, n: nat) {
    && (n > 7 ==> !Hollow(p, Vadaptor)) && (n > 19 ==> !Hollow(p, ControlEvq))
    && (n > 20 ==> !Hollow(p, DataEvq)) && (n > 21 ==> !Hollow(p, Rxq)) && (n > 22 ==> !Hollow(p, Txq))
  }

  /** The step fails, on a function that came with VIs still allocated if `held`: the
      firmware grants VIs only to a function that has none. */
  ghost predicate Bad(p: Plan, held: bool, s: Step) {
    match s
    case Asserts => AssertsFail(p)
    case GetLink => LinkPollFails(p)
    case Vis => !Fine(p, s) || (held && p.resetDenied)
    case ControlEvq => p.viCount == 0 || !Works(p, s)
    case DataEvq => p.viCount <= 1 || !Works(p, s)
    case _ => !Works(p, s)
  }

  predicate Fine(p: Plan, s: Step) { s !in p.refused && s !in p.silent }

  predicate Works(p: Plan, s: Step) { Hollow(p, s) || (Fine(p, s) && !Missing(p, s)) }

  datatype Result = Attached | Failed(step: Step)

  const STEPS: nat := 25

  function StepAt(n: nat): (s: Step)
    requires n < STEPS
    ensures Rank(s) == n
  {
    if n < 12 then
      [McdiInit, GetVersion, Attaching, Asserts, Resetting, GetMac, Vis, Vadaptor, PhyCfg, SetMac, SetLink, GetLink][n]
    else if n < 18 then Dma([EvqRing, DataEvqRing, TxDescRing, RxDescRing, TxBuffer, RxBuffer][n - 12])
    else [Intr, ControlEvq, DataEvq, Rxq, Txq, Filter, Cdev][n - 18]
  }

  lemma RankInjective(a: Step, b: Step)
    ensures Rank(a) == Rank(b) <==> a == b
  {
  }

  /** The first bad step among those ranked `n` and up. */
  ghost function Outcome(p: Plan, held: bool, n: nat): (r: Result)
    requires n <= STEPS
    ensures r.Failed? ==> Rank(r.step) >= n && Bad(p, held, r.step)
    decreases STEPS - n, p  // with `p` here a literal rank is not unfolded all the way
  {
    if n == STEPS then Attached else if Bad(p, held, StepAt(n)) then Failed(StepAt(n)) else Outcome(p, held, n + 1)
  }

  lemma Next(p: Plan, held: bool, s: Step)
    ensures Outcome(p, held, Rank(s)) == if Bad(p, held, s) then Failed(s) else Outcome(p, held, Rank(s) + 1)
  {
    RankInjective(StepAt(Rank(s)), s);
  }

  ghost predicate Precedes(p: Plan, held: bool, s: Step, n: nat, at: Step) {
    n <= Rank(s) < Rank(at) ==> !Bad(p, held, s)
  }

  /** The steps from rank `n` up to `at` go well. */
  ghost predicate Smooth(p: Plan, held: bool, n: nat, at: Step) {
    forall s: Step :: Precedes(p, held, s, n, at)
  }

  lemma SmoothFrom(p: Plan, held: bool, here: Step, at: Step)
    requires Rank(here) < Rank(at)
    ensures Smooth(p, held, Rank(here), at) <==> !Bad(p, held, here) && Smooth(p, held, Rank(here) + 1, at)
  {
    var n, m := Rank(here), Rank(here) + 1;
    if Smooth(p, held, n, at) {
      assert Precedes(p, held, here, n, at);
      forall s: Step ensures Precedes(p, held, s, m, at) { assert Precedes(p, held, s, n, at); }
    }
    if !Bad(p, held, here) && Smooth(p, held, m, at) {
      forall s: Step ensures Precedes(p, held, s, n, at) {
        assert Precedes(p, held, s, m, at);
        RankInjective(s, here);
      }
    }
  }

  /** A load fails at a step exactly when that step is bad and none before it is. */
  lemma {:induction false} OutcomeIff(p: Plan, held: bool, n: nat, at: Step)
    requires n <= Rank(at)
    ensures Outcome(p, held, n) == Failed(at) <==> Bad(p, held, at) && Smooth(p, held, n, at)
    decreases Rank(at) - n
  {
    var here := StepAt(n);
    Next(p, held, here);
    if n == Rank(at) {
      RankInjective(here, at);
    } else {
      OutcomeIff(p, held, n + 1, at);
      SmoothFrom(p, held, here, at);
    }
  }

  /** A command that took effect and was reported as failed. */
  predicate Silent(p: Plan, held: bool, s: Step) {
    && s in p.silent && s !in p.refused && !Hollow(p, s) && !Missing(p, s)
    && (s == Resetting ==> !p.resetDenied)
    && (s == Vis ==> !(held && p.resetDenied))
    && (s == ControlEvq ==> p.viCount > 0)
    && (s == DataEvq ==> p.viCount > 1)
  }

  /** A world as a load can find it: whatever earlier ones left in the firmware, and no host
      memory, interrupt or device node. */
  predicate Leftover(w: World) {
    WellFormed(w) && w.rings == {} && Quiet(w)
  }

  function Detached(w: World): World { w.(fn := w.fn.(attached := false)) }

  /** The function after the reset step. */
  function Renewed(w: World, p: Plan): World {
    if p.resetDenied then w else Effect(w, EntityReset)
  }

  /** What a failure at a step after the reset leaves of `w`, but for the driver attach. */
  function Granted(w: World, p: Plan, silent: bool, at: Step): World {
    match at
    case GetMac => w
    case Vis => if silent then w.(fn := w.fn.(vis := true)) else w
    case Vadaptor => w.(fn := w.fn.(vis := true, vadaptor := silent))
    case _ => w.(fn := w.fn.(vis := true, vadaptor := !Hollow(p, Vadaptor)))
  }

  /** What a load that fails inside `sfc7120_hw_init` leaves in the firmware. Its labels undo
      the driver attach and nothing else, and a failed assertion query skips even that. */
  function Residue(w: World, p: Plan, at: Step): World {
    var silent := Silent(p, w.fn.vis, at);
    match at
    case McdiInit => w
    case GetVersion => w
    case Attaching => if silent then Effect(w, DrvAttach) else w
    case Asserts => Effect(w, DrvAttach)
    case Resetting => Detached(if silent then Effect(w, EntityReset) else w)
    case _ => Detached(Granted(Renewed(w, p), p, silent, at))
  }

  /** The buffers allocated before the one of rank `n`. */
  ghost function Below(n: nat): set<Ring> { set r: Ring | RingRank(r) < n }

  ghost function AllRings(): set<Ring> { Below(6) }

  /** What `sfc7120_hw_init` and the DMA allocation establish. */
  ghost function Provisioned(p: Plan): World {
    World(Function(true, true, !Hollow(p, Vadaptor)), Queues(false, false, Off, Off, false), AllRings(), false, false)
  }

  /** ... then the interrupt, ... */
  ghost function Armed(p: Plan): World { Provisioned(p).(wired := true) }

  /** ... then the event queues, and the two others. */
  function Evqs(p: Plan): Queues {
    Queues(!Hollow(p, ControlEvq), !Hollow(p, DataEvq), Off, Off, false)
  }

  function Rings(p: Plan): Queues {
    Evqs(p).(rxq := if Hollow(p, Rxq) then Off else On(Data), txq := if Hollow(p, Txq) then Off else On(Data))
  }

  /** ... and what a successful attach is meant to leave. */
  ghost function Running(): World {
    World(Function(true, true, true), Queues(true, true, On(Data), On(Data), true), AllRings(), true, true)
  }

  /** The driver's own record of how far it got. */
  datatype FnFlags = FnFlags(drvAttached: bool, visAllocated: bool, viCount: nat, vadaptorAllocated: bool)

  datatype QueueFlags = QueueFlags(evqInitialized: bool, dataEvqInitialized: bool, rxqInitialized: bool,
                                   txqInitialized: bool, filterInserted: bool)

  /** The flags say of each resource whether the firmware holds it. */
  predicate MirrorsFn(fn: FnFlags, x: Function) {
    fn.drvAttached == x.attached && fn.visAllocated == x.vis && fn.vadaptorAllocated == x.vadaptor
  }

  predicate MirrorsQueues(q: QueueFlags, x: Queues) {
    && q.evqInitialized == x.evq0 && q.dataEvqInitialized == x.evq1
    && x.rxq == (if q.rxqInitialized then On(Data) else Off)
    && x.txq == (if q.txqInitialized then On(Data) else Off)
    && q.filterInserted == x.filter
  }

  /** The driver knows of everything the firmware holds, and of nothing but the vAdaptor and
      the queues that it does not hold. */
  predicate CoversFn(fn: FnFlags, x: Function) {
    fn.drvAttached == x.attached && fn.visAllocated == x.vis && (x.vadaptor ==> fn.vadaptorAllocated)
  }

  predicate CoversQueues(q: QueueFlags, x: Queues) {
    && (x.evq0 ==> q.evqInitialized) && (x.evq1 ==> q.dataEvqInitialized)
    && (x.rxq == Off || (x.rxq == On(Data) && q.rxqInitialized))
    && (x.txq == Off || (x.txq == On(Data) && q.txqInitialized))
    && q.filterInserted == x.filter
  }

  /** The resource of a step is in the firmware and the driver does not know. */
  predicate Lost(q: QueueFlags, x: Queues, s: Step) {
    match s
    case ControlEvq => x.evq0 && !q.evqInitialized
    case DataEvq => x.evq1 && !q.dataEvqInitialized
    case Rxq => x.rxq.On? && !q.rxqInitialized
    case Txq => x.txq.On? && !q.txqInitialized
    case Filter => x.filter && !q.filterInserted
    case _ => false
  }

  /** The steps whose command gives the firmware a queue or a filter. */
  predicate HoldsQueue(s: Step) { 19 <= Rank(s) < 24 }

  /** A queue or filter command took effect and was reported as failed. */
  predicate Unreported(p: Plan, held: bool, s: Step) { Silent(p, held, s) && HoldsQueue(s) }

  /** Where a start that fails at `s` has got: the step's resource is lost, or the flags cover
      everything, and mirror it unless some success before was hollow. */
  ghost predicate FailedAt(p: Plan, held: bool, s: Step, q: QueueFlags, x: Queues) {
    if Unreported(p, held, s) then Lost(q, x, s)
    else CoversQueues(q, x) && (Genuine(p, Rank(s)) ==> MirrorsQueues(q, x))
         && (MirrorsQueues(q, x) && !Hollow(p, Vadaptor) ==> Genuine(p, Rank(s)))
  }

  lemma FailsAtEvq(p: Plan, held: bool, s: Step, q: QueueFlags, x: Queues)
    requires s in {ControlEvq, DataEvq} && Bad(p, held, s) && (s == DataEvq ==> !Bad(p, held, ControlEvq))
    requires q == NoQueues().(evqInitialized := s == DataEvq)
    requires x == Queues(if s == DataEvq then !Hollow(p, ControlEvq) else Silent(p, held, s),
                         s == DataEvq && Silent(p, held, s), Off, Off, false)
    ensures FailedAt(p, held, s, q, x)
  {
  }

  lemma FailsAtRing(p: Plan, held: bool, s: Step, q: QueueFlags, x: Queues)
    requires s in {Rxq, Txq} && Bad(p, held, s) && (s == Txq ==> !Bad(p, held, Rxq))
    requires q == QueueFlags(true, true, s == Txq, false, false)
    requires x == Evqs(p).(rxq := if (if s == Txq then !Hollow(p, Rxq) else Silent(p, held, s)) then On(Data) else Off,
                           txq := if s == Txq && Silent(p, held, s) then On(Data) else Off)
    ensures FailedAt(p, held, s, q, x)
  {
  }

  lemma FailsAtFilter(p: Plan, held: bool, q: QueueFlags, x: Queues)
    requires Bad(p, held, Filter) && q == QueueFlags(true, true, true, true, false)
    requires x == Rings(p).(filter := Silent(p, held, Filter))
    ensures FailedAt(p, held, Filter, q, x)
  {
  }

  lemma FailsOutside(p: Plan, held: bool, s: Step, q: QueueFlags, x: Queues)
    requires s in {Intr, Cdev}
    requires s == Intr ==> q == NoQueues() && x == Bare().q
    requires s == Cdev ==> q == QueueFlags(true, true, true, true, true) && x == Rings(p).(filter := true)
    requires s == Cdev ==> Genuine(p, 22)
    ensures FailedAt(p, held, s, q, x)
  {
  }

  function NoFn(): FnFlags { FnFlags(false, false, 0, false) }

  function NoQueues(): QueueFlags { QueueFlags(false, false, false, false, false) }

  class Adapter {
    var w: World
    ghost var log: seq<Issue>
    var mcdi: bool
    var fn: FnFlags
    var q: QueueFlags
    var deviceAttached: bool

    /** The softc arrives zeroed; the firmware may remember an earlier load. */
    constructor (w: World)
      ensures this.w == w && log == [] && Zeroed()
    {
      this.w, log, mcdi, fn, q, deviceAttached := w, [], false, NoFn(), NoQueues(), false;
    }

    ghost predicate Zeroed()
      reads this
    {
      !mcdi && fn == NoFn() && q == NoQueues() && !deviceAttached
    }

    // ---------------------------------------------------------------- commands

    /** A command that sets something up. The firmware refuses it without effect unless allowed. */
    method Setup(c: Cmd, s: Step, p: Plan) returns (ok: bool)
      requires mcdi
      modifies this`w, this`log
      ensures Tidy(log) <==> Tidy(old(log)) && Orderly(old(w), c)
      ensures ok <==> Hollow(p, s) || (Allowed(old(w), c) && Fine(p, s))
      ensures w == if !Hollow(p, s) && Allowed(old(w), c) && s !in p.refused then Effect(old(w), c) else old(w)
      ensures WellFormed(old(w)) ==> WellFormed(w)
    {
      TidySnoc(log, Issue(w, c));
      log := log + [Issue(w, c)];
      if Hollow(p, s) { return true; }
      ok := Allowed(w, c) && s !in p.refused;
      if ok {
        if WellFormed(w) { EffectWellFormed(w, c); }
        w := Effect(w, c);
        ok := s !in p.silent;
      }
    }

    /** A command that takes something down. It succeeds when allowed. */
    method TakeDown(c: Cmd) returns (ok: bool)
      requires mcdi
      modifies this`w, this`log
      ensures Tidy(log) <==> Tidy(old(log)) && Orderly(old(w), c)
      ensures ok <==> Allowed(old(w), c)
      ensures w == if ok then Effect(old(w), c) else old(w)
      ensures WellFormed(old(w)) ==> WellFormed(w)
    {
      TidySnoc(log, Issue(w, c));
      log := log + [Issue(w, c)];
      ok := Allowed(w, c);
      if ok {
        if WellFormed(w) { EffectWellFormed(w, c); }
        w := Effect(w, c);
      }
    }

    method DrvDetaching()
      requires mcdi
      modifies this`w, this`log, this`fn
      ensures fn == if old(fn).drvAttached then old(fn).(drvAttached := false) else old(fn)
      ensures w == if old(fn).drvAttached then old(w).(fn := old(w).fn.(attached := false)) else old(w)
      ensures Tidy(log) <==> Tidy(old(log)) && (old(fn).drvAttached ==> Quiet(old(w)) && old(w).fn.attached)
    {
      if !fn.drvAttached { return; }
      var ok := TakeDown(DrvDetach);
      if ok { fn := fn.(drvAttached := false); }
    }

    method McdiFini()
      modifies this`mcdi
      ensures !mcdi
    {
      if !mcdi { return; }
      mcdi := false;
    }

    // ---------------------------------------------------------------- hw_init

    /** `sfc7120_mcdi_clear_assertions`: interruptions are retried, three tries in all; a
        function without the privilege leaves it to its partner, and a short answer will do. */
    method ClearAssertions(p: Plan) returns (ok: bool)
      ensures ok <==> !AssertsFail(p)
    {
      var rc := Interrupted;
      var retry := 0;
      while retry < ASSERT_TRIES
        invariant 0 <= retry <= ASSERT_TRIES
        invariant forall i: nat :: i < retry ==> AssertAnswer(p, i) == Interrupted
        invariant rc == Interrupted
      {
        rc := AssertAnswer(p, retry);
        if rc != Interrupted { break; }
        retry := retry + 1;
      }
      if rc == NotPermitted { return true; }
      return rc != Interrupted && rc != Broken;
    }

    /** The link poll of `sfc7120_hw_init`; a link that stays down is not an error. */
    method PollLink(p: Plan) returns (ok: bool)
      ensures ok <==> !LinkPollFails(p)
    {
      var i := 0;
      while i < LINK_POLLS
        invariant i <= LINK_POLLS && (i > 0 ==> i - 1 < p.linkUpAt)
        invariant forall j: nat :: j < i ==> j !in p.linkFails
      {
        if i in p.linkFails { return false; }
        if i == p.linkUpAt { break; }
        i := i + 1;
      }
      return true;
    }

    /** `sfc7120_hw_init` up to the assertion query: failures here skip the driver detach. */
    method Connect(p: Plan, ghost held: bool) returns (r: Result)
      requires Zeroed() && held == w.fn.vis
      modifies this`w, this`log, this`mcdi, this`fn
      ensures Outcome(p, held, 0) == if r.Failed? then r else Outcome(p, held, 4)
      ensures Tidy(old(log)) ==> Tidy(log)
      ensures w == if r.Failed? then Residue(old(w), p, r.step) else Effect(old(w), DrvAttach)
      ensures r.Attached? ==> mcdi && fn == NoFn().(drvAttached := true)
      ensures r.Failed? ==> r.step in {McdiInit, GetVersion, Attaching, Asserts}
    {
      Next(p, held, McdiInit);
      if !Fine(p, McdiInit) { return Failed(McdiInit); }
      mcdi := true;
      Next(p, held, GetVersion);
      if !Fine(p, GetVersion) { return Failed(GetVersion); }
      var ok := Setup(DrvAttach, Attaching, p);
      Next(p, held, Attaching);
      if !ok { return Failed(Attaching); }
      fn := fn.(drvAttached := true);
      ok := ClearAssertions(p);
      Next(p, held, Asserts);
      if !ok { return Failed(Asserts); }
      return Attached;
    }

    /** The reset, which a function without the privilege goes on without, and the MAC address. */
    method Identify(p: Plan, ghost held: bool) returns (r: Result)
      requires mcdi && w.fn.attached && held == w.fn.vis
      modifies this`w, this`log
      ensures Outcome(p, held, 4) == if r.Failed? then r else Outcome(p, held, 6)
      ensures r.Failed? ==> r.step in {Resetting, GetMac}
      ensures Tidy(old(log)) ==> Tidy(log)
      ensures w.fn.attached
      ensures if r.Failed? then Detached(w) == Residue(old(w), p, r.step) else w == Renewed(old(w), p)
    {
      var ok;
      if !p.resetDenied {
        ok := Setup(EntityReset, Resetting, p);
      } else {
        ok := Fine(p, Resetting);
      }
      Next(p, held, Resetting);
      if !ok { return Failed(Resetting); }
      Next(p, held, GetMac);
      if !Fine(p, GetMac) { return Failed(GetMac); }
      return Attached;
    }

    /** The PHY, the MAC and the link, in that order; none of them holds a resource. */
    method LinkUp(p: Plan, ghost held: bool) returns (r: Result)
      ensures Outcome(p, held, 8) == if r.Failed? then r else Outcome(p, held, 12)
      ensures r.Failed? ==> r.step in {PhyCfg, SetMac, SetLink, GetLink}
    {
      Next(p, held, PhyCfg);
      if !Fine(p, PhyCfg) { return Failed(PhyCfg); }
      Next(p, held, SetMac);
      if !Fine(p, SetMac) { return Failed(SetMac); }
      Next(p, held, SetLink);
      if !Fine(p, SetLink) { return Failed(SetLink); }
      var ok := PollLink(p);
      Next(p, held, GetLink);
      if !ok { return Failed(GetLink); }
      return Attached;
    }

    /** The VIs, which the firmware grants only to a function that has none. */
    method AcquireVis(p: Plan, ghost held: bool) returns (r: Result)
      requires mcdi && w.fn.attached && WellFormed(w) && (w.fn.vis <==> held && p.resetDenied)
      modifies this`w, this`log, this`fn
      ensures Outcome(p, held, 6) == if r.Failed? then r else Outcome(p, held, 7)
      ensures r.Failed? ==> r.step == Vis && fn == old(fn) && w == Granted(old(w), p, Silent(p, held, Vis), Vis)
      ensures r.Attached? ==> !old(w).fn.vis && w == old(w).(fn := old(w).fn.(vis := true)) && WellFormed(w)
      ensures r.Attached? ==> fn == old(fn).(visAllocated := true, viCount := p.viCount)
      ensures Tidy(old(log)) && !old(w).fn.vis ==> Tidy(log)
    {
      var ok := Setup(AllocVis, Vis, p);
      Next(p, held, Vis);
      if !ok { return Failed(Vis); }
      fn := fn.(visAllocated := true, viCount := p.viCount);
      return Attached;
    }

    /** The vAdaptor on them. */
    method AcquireVadaptor(p: Plan, ghost held: bool) returns (r: Result)
      requires mcdi && w.fn.attached && w.fn.vis && !w.fn.vadaptor
      modifies this`w, this`log, this`fn
      ensures Outcome(p, held, 7) == if r.Failed? then r else Outcome(p, held, 8)
      ensures r.Failed? ==> r.step == Vadaptor && fn == old(fn)
      ensures w == old(w).(fn := old(w).fn.(vadaptor := if r.Failed? then Silent(p, held, Vadaptor)
                                                        else !Hollow(p, Vadaptor)))
      ensures r.Attached? ==> fn == old(fn).(vadaptorAllocated := true)
      ensures Tidy(old(log)) ==> Tidy(log)
    {
      var ok := Setup(VadaptorAlloc, Vadaptor, p);
      Next(p, held, Vadaptor);
      if !ok { return Failed(Vadaptor); }
      fn := fn.(vadaptorAllocated := true);
      return Attached;
    }

    /** VIs, vAdaptor and the link, on a function that still has VIs only if it had some
        before and was denied the reset. */
    method Provision(p: Plan, ghost held: bool) returns (r: Result)
      requires mcdi && w.fn.attached && WellFormed(w) && (w.fn.vis <==> held && p.resetDenied)
      requires !fn.visAllocated && !fn.vadaptorAllocated
      modifies this`w, this`log, this`fn
      ensures Outcome(p, held, 6) == if r.Failed? then r else Outcome(p, held, 12)
      ensures r.Failed? ==> r.step in {Vis, Vadaptor, PhyCfg, SetMac, SetLink, GetLink}
      ensures Tidy(old(log)) && !old(w).fn.vis ==> Tidy(log)
      ensures r.Failed? ==> w == Granted(old(w), p, Silent(p, held, r.step), r.step)
      ensures r.Failed? ==> fn.drvAttached == old(fn).drvAttached && mcdi
      ensures r.Attached? ==> !old(w).fn.vis && w == old(w).(fn := Function(true, true, !Hollow(p, Vadaptor)))
      ensures r.Attached? ==> fn == FnFlags(old(fn).drvAttached, true, p.viCount, true)
    {
      r := AcquireVis(p, held);
      if r.Failed? { return; }
      r := AcquireVadaptor(p, held);
      if r.Failed? { return; }
      r := LinkUp(p, held);
    }

    /** The part of `sfc7120_hw_init` whose failures go through `fail_attach`. */
    method Configure(p: Plan, ghost held: bool) returns (r: Result)
      requires mcdi && w.fn.attached && Leftover(w) && held == w.fn.vis && fn == NoFn().(drvAttached := true)
      modifies this`w, this`log, this`mcdi, this`fn
      ensures Outcome(p, held, 4) == if r.Failed? then r else Outcome(p, held, 12)
      ensures Tidy(old(log)) && !(held && p.resetDenied) ==> Tidy(log)
      ensures r.Failed? ==> 4 <= Rank(r.step) < 12 && !mcdi && w == Residue(old(w), p, r.step)
      ensures r.Attached? ==> mcdi && fn == FnFlags(true, true, p.viCount, true) && w == Provisioned(p).(rings := {})
    {
      r := Identify(p, held);
      if r.Attached? {
        r := Provision(p, held);
      }
      if r.Failed? {
        DrvDetaching();
        McdiFini();
      }
    }

    /** `sfc7120_hw_init` with its three labels. */
    method HwInit(p: Plan, ghost held: bool) returns (r: Result)
      requires Zeroed() && Leftover(w) && held == w.fn.vis
      modifies this`w, this`log, this`mcdi, this`fn
      ensures Outcome(p, held, 0) == if r.Failed? then r else Outcome(p, held, 12)
      ensures Tidy(old(log)) && !(held && p.resetDenied) ==> Tidy(log)
      ensures r.Failed? ==> Rank(r.step) < 12 && w == Residue(old(w), p, r.step) && !mcdi
      ensures r.Attached? ==> mcdi && fn == FnFlags(true, true, p.viCount, true) && w == Provisioned(p).(rings := {})
    {
      r := Connect(p, held);
      if r.Failed? {
        McdiFini();
        return;
      }
      ghost var w0 := old(w);
      r := Configure(p, held);
      if r.Failed? { ResidueSame(w0, p, r.step); }
    }

    // ---------------------------------------------------------------- DMA memory

    method FreeBuffer(r: Ring)
      modifies this`w, this`log
      ensures w == old(w).(rings := old(w).rings - {r})
      ensures Tidy(log) <==> Tidy(old(log)) && (r in old(w).rings ==> !Uses(old(w), r) && Quiet(old(w)))
    {
      if r in w.rings {
        TidySnoc(log, Issue(w, FreeRing(r)));
        log := log + [Issue(w, FreeRing(r))];
        w := Effect(w, FreeRing(r));
      }
    }

    method AllocBuffer(r: Ring, p: Plan, ghost held: bool) returns (ok: bool)
      requires w.rings == Below(RingRank(r))
      modifies this`w
      ensures ok <==> !Bad(p, held, Dma(r))
      ensures w == if ok then old(w).(rings := Below(RingRank(r) + 1)) else old(w)
    {
      ok := Fine(p, Dma(r));
      if ok {
        w := w.(rings := w.rings + {r});
        assert w.rings == Below(RingRank(r) + 1);
      }
    }

    /** The event rings of `sfc7120_alloc_dma_resources`, up to the first that fails. */
    method AllocEvRings(p: Plan, ghost held: bool) returns (r: Result)
      requires w.rings == {}
      modifies this`w
      ensures Outcome(p, held, 12) == if r.Failed? then r else Outcome(p, held, 14)
      ensures r.Failed? ==> r.step.Dma?
      ensures w == old(w).(rings := Below(if r.Attached? then 2 else RingRank(r.step.ring)))
    {
      assert w.rings == Below(0);
      var ok := AllocBuffer(EvqRing, p, held);
      Next(p, held, Dma(EvqRing));
      if !ok { return Failed(Dma(EvqRing)); }
      ok := AllocBuffer(DataEvqRing, p, held);
      Next(p, held, Dma(DataEvqRing));
      if !ok { return Failed(Dma(DataEvqRing)); }
      return Attached;
    }

    /** ... then the descriptor rings. */
    method AllocRings(p: Plan, ghost held: bool) returns (r: Result)
      requires w.rings == {}
      modifies this`w
      ensures Outcome(p, held, 12) == if r.Failed? then r else Outcome(p, held, 16)
      ensures r.Failed? ==> r.step.Dma?
      ensures w == old(w).(rings := Below(if r.Attached? then 4 else RingRank(r.step.ring)))
    {
      r := AllocEvRings(p, held);
      if r.Failed? { return; }
      var ok := AllocBuffer(TxDescRing, p, held);
      Next(p, held, Dma(TxDescRing));
      if !ok { return Failed(Dma(TxDescRing)); }
      ok := AllocBuffer(RxDescRing, p, held);
      Next(p, held, Dma(RxDescRing));
      if !ok { return Failed(Dma(RxDescRing)); }
      return Attached;
    }

    /** ... and then the packet buffers. */
    method AllocBuffers(p: Plan, ghost held: bool) returns (r: Result)
      requires w.rings == {}
      modifies this`w
      ensures Outcome(p, held, 12) == if r.Failed? then r else Outcome(p, held, 18)
      ensures r.Failed? ==> r.step.Dma?
      ensures w == old(w).(rings := if r.Attached? then AllRings() else Below(RingRank(r.step.ring)))
    {
      r := AllocRings(p, held);
      if r.Failed? { return; }
      var ok := AllocBuffer(TxBuffer, p, held);
      Next(p, held, Dma(TxBuffer));
      if !ok { return Failed(Dma(TxBuffer)); }
      ok := AllocBuffer(RxBuffer, p, held);
      Next(p, held, Dma(RxBuffer));
      if !ok { return Failed(Dma(RxBuffer)); }
      return Attached;
    }

    /** The labels of `sfc7120_alloc_dma_resources`: entered at the one for the buffer that
        failed, falling through to the end. */
    method UnwindBuffers(failed: Ring)
      requires w.rings == Below(RingRank(failed)) && Idle(w.q) && Quiet(w)
      modifies this`w, this`log
      ensures w == old(w).(rings := {})
      ensures Tidy(old(log)) ==> Tidy(log)
    {
      var depth := RingRank(failed);
      if depth >= 5 { FreeBuffer(TxBuffer); }
      if depth >= 4 { FreeBuffer(RxDescRing); }
      if depth >= 3 { FreeBuffer(TxDescRing); }
      if depth >= 2 { FreeBuffer(DataEvqRing); }
      if depth >= 1 { FreeBuffer(EvqRing); }
      forall x: Ring ensures x !in w.rings { assert RingRank(x) < 6; }
    }

    /** `sfc7120_free_dma_resources`. */
    method FreeDma()
      modifies this`w, this`log
      ensures w == old(w).(rings := {})
      ensures Tidy(log) ==> Tidy(old(log))
      ensures Tidy(old(log)) && Idle(old(w).q) && Quiet(old(w)) ==> Tidy(log)
      ensures !Quiet(old(w)) && old(w).rings != {} ==> !Tidy(log)
    {
      FreeBuffer(RxBuffer);
      FreeBuffer(TxBuffer);
      FreeBuffer(RxDescRing);
      FreeBuffer(TxDescRing);
      FreeBuffer(DataEvqRing);
      FreeBuffer(EvqRing);
      forall x: Ring ensures x !in w.rings {
        assert x.RxBuffer? || x.TxBuffer? || x.RxDescRing? || x.TxDescRing? || x.DataEvqRing? || x.EvqRing?;
      }
    }

    // ---------------------------------------------------------------- queues

    /** `sfc7120_mcdi_init_evq` and the caller's bookkeeping. */
    method InitEv(n: EvqId, p: Plan, ghost held: bool) returns (ok: bool)
      requires mcdi && w.fn.vis && !Up(w, n) && (n == Data ==> w.q.evq0 == !Hollow(p, ControlEvq))
      requires w.rings == AllRings() && fn.viCount == p.viCount
      modifies this`w, this`log, this`q
      ensures var s := if n == Control then ControlEvq else DataEvq;
        && (ok <==> !Bad(p, held, s))
        && w == (if !(ok && !Hollow(p, s)) && !Silent(p, held, s) then old(w)
                 else if n == Control then old(w).(q := old(w).q.(evq0 := true))
                 else old(w).(q := old(w).q.(evq1 := true)))
      ensures Tidy(old(log)) && (if n == Data then old(w).q.evq0 else old(w).wired) ==> Tidy(log)
      ensures WellFormed(old(w)) ==> WellFormed(w)
      ensures q == if !ok then old(q)
                   else if n == Control then old(q).(evqInitialized := true)
                   else old(q).(evqInitialized := true, dataEvqInitialized := true)
    {
      var instance := if n == Control then 0 else 1;
      if instance >= fn.viCount { return false; }
      ok := Setup(InitEvq(n), if n == Control then ControlEvq else DataEvq, p);
      if !ok { return; }
      q := q.(evqInitialized := true);
      if n == Data { q := q.(dataEvqInitialized := true); }
    }

    /** What INIT_RXQ and INIT_TXQ rest on is there unless its own command was hollow. */
    ghost predicate Ready(p: Plan)
      reads this
    {
      && mcdi && fn.vadaptorAllocated && fn.viCount == p.viCount > 1 && w.rings == AllRings()
      && w.fn.vadaptor == !Hollow(p, Vadaptor) && w.q.evq1 == !Hollow(p, DataEvq)
    }

    method InitRx(p: Plan, ghost held: bool) returns (ok: bool)
      requires Ready(p) && w.q.rxq == Off
      modifies this`w, this`log, this`q
      ensures ok <==> !Bad(p, held, Rxq)
      ensures w == if (ok && !Hollow(p, Rxq)) || Silent(p, held, Rxq) then old(w).(q := old(w).q.(rxq := On(Data)))
                   else old(w)
      ensures WellFormed(old(w)) ==> WellFormed(w)
      ensures q == if ok then old(q).(rxqInitialized := true) else old(q)
      ensures Tidy(old(log)) && !Missing(p, Rxq) ==> Tidy(log)
    {
      if !fn.vadaptorAllocated || 0 >= fn.viCount || 1 >= fn.viCount { return false; }
      ok := Setup(InitRxq(Data), Rxq, p);
      if ok { q := q.(rxqInitialized := true); }
    }

    method InitTx(p: Plan, ghost held: bool) returns (ok: bool)
      requires Ready(p) && w.q.txq == Off
      modifies this`w, this`log, this`q
      ensures ok <==> !Bad(p, held, Txq)
      ensures w == if (ok && !Hollow(p, Txq)) || Silent(p, held, Txq) then old(w).(q := old(w).q.(txq := On(Data)))
                   else old(w)
      ensures WellFormed(old(w)) ==> WellFormed(w)
      ensures q == if ok then old(q).(txqInitialized := true) else old(q)
      ensures Tidy(old(log)) && !Missing(p, Txq) ==> Tidy(log)
    {
      if !fn.vadaptorAllocated || 0 >= fn.viCount || 1 >= fn.viCount { return false; }
      ok := Setup(InitTxq(Data), Txq, p);
      if ok { q := q.(txqInitialized := true); }
    }

    method FilterInserting(p: Plan, ghost held: bool) returns (ok: bool)
      requires mcdi && w.q.rxq.On? == !Hollow(p, Rxq) && !w.q.filter && !q.filterInserted
      modifies this`w, this`log, this`q
      ensures ok <==> !Bad(p, held, Filter)
      ensures w == if ok || Silent(p, held, Filter) then old(w).(q := old(w).q.(filter := true)) else old(w)
      ensures WellFormed(old(w)) ==> WellFormed(w)
      ensures q == if ok then old(q).(filterInserted := true) else old(q)
      ensures Tidy(old(log)) && !Missing(p, Filter) ==> Tidy(log)
    {
      if q.filterInserted { return true; }
      ok := Setup(FilterInsert, Filter, p);
      if ok { q := q.(filterInserted := true); }
    }

    /** The control event queue. */
    method StartControl(p: Plan, ghost held: bool) returns (r: Result)
      requires mcdi && fn.viCount == p.viCount && q == NoQueues() && w == Armed(p)
      modifies this`w, this`log, this`q
      ensures Outcome(p, held, 19) == if r.Failed? then r else Outcome(p, held, 20)
      ensures w == old(w).(q := w.q) && WellFormed(w)
      ensures r.Attached? ==> q == NoQueues().(evqInitialized := true) && w.q == Evqs(p).(evq1 := false)
      ensures r.Attached? ==> !Bad(p, held, ControlEvq)
      ensures r.Failed? ==> r.step == ControlEvq && FailedAt(p, held, ControlEvq, q, w.q)
      ensures Tidy(old(log)) ==> Tidy(log)
    {
      var ok := InitEv(Control, p, held);
      Next(p, held, ControlEvq);
      if !ok {
        FailsAtEvq(p, held, ControlEvq, q, w.q);
        return Failed(ControlEvq);
      }
      return Attached;
    }

    /** The data event queue. */
    method StartData(p: Plan, ghost held: bool) returns (r: Result)
      requires mcdi && fn.viCount == p.viCount && q == NoQueues().(evqInitialized := true)
      requires w == Armed(p).(q := Evqs(p).(evq1 := false)) && !Bad(p, held, ControlEvq)
      modifies this`w, this`log, this`q
      ensures Outcome(p, held, 20) == if r.Failed? then r else Outcome(p, held, 21)
      ensures w == old(w).(q := w.q) && WellFormed(w)
      ensures r.Attached? ==> q == QueueFlags(true, true, false, false, false) && p.viCount > 1 && w.q == Evqs(p)
      ensures r.Attached? ==> !Bad(p, held, DataEvq)
      ensures r.Failed? ==> r.step == DataEvq && FailedAt(p, held, DataEvq, q, w.q)
      ensures Tidy(old(log)) && Genuine(p, 20) ==> Tidy(log)
    {
      var ok := InitEv(Data, p, held);
      Next(p, held, DataEvq);
      if !ok {
        FailsAtEvq(p, held, DataEvq, q, w.q);
        return Failed(DataEvq);
      }
      return Attached;
    }

    /** The RX queue on the data event queue. */
    method StartRx(p: Plan, ghost held: bool) returns (r: Result)
      requires Ready(p) && q == QueueFlags(true, true, false, false, false)
      requires w == Armed(p).(q := Evqs(p)) && WellFormed(w)
      modifies this`w, this`log, this`q
      ensures Outcome(p, held, 21) == if r.Failed? then r else Outcome(p, held, 22)
      ensures w == old(w).(q := w.q) && WellFormed(w)
      ensures r.Attached? ==> q == QueueFlags(true, true, true, false, false) && w.q == Rings(p).(txq := Off)
      ensures r.Attached? ==> !Bad(p, held, Rxq)
      ensures r.Failed? ==> r.step == Rxq && FailedAt(p, held, Rxq, q, w.q)
      ensures Tidy(old(log)) && Genuine(p, 21) ==> Tidy(log)
    {
      var ok := InitRx(p, held);
      Next(p, held, Rxq);
      if !ok {
        FailsAtRing(p, held, Rxq, q, w.q);
        return Failed(Rxq);
      }
      return Attached;
    }

    /** The TX queue on the data event queue. */
    method StartTx(p: Plan, ghost held: bool) returns (r: Result)
      requires Ready(p) && q == QueueFlags(true, true, true, false, false)
      requires w == Armed(p).(q := Rings(p).(txq := Off)) && !Bad(p, held, Rxq) && WellFormed(w)
      modifies this`w, this`log, this`q
      ensures Outcome(p, held, 22) == if r.Failed? then r else Outcome(p, held, 23)
      ensures w == old(w).(q := w.q) && WellFormed(w)
      ensures r.Attached? ==> q == QueueFlags(true, true, true, true, false) && w.q == Rings(p)
      ensures r.Failed? ==> r.step == Txq && FailedAt(p, held, Txq, q, w.q)
      ensures Tidy(old(log)) && Genuine(p, 21) ==> Tidy(log)
    {
      var ok := InitTx(p, held);
      Next(p, held, Txq);
      if !ok {
        FailsAtRing(p, held, Txq, q, w.q);
        return Failed(Txq);
      }
      return Attached;
    }

    /** The filter that feeds the RX queue. It needs that queue and all that is under it, so a
        start that gets past it is short of the TX queue at most. */
    method StartFilter(p: Plan, ghost held: bool) returns (r: Result)
      requires mcdi && q == QueueFlags(true, true, true, true, false)
      requires w == Armed(p).(q := Rings(p)) && !Bad(p, held, Rxq) && WellFormed(w)
      modifies this`w, this`log, this`q
      ensures Outcome(p, held, 23) == if r.Failed? then r else Outcome(p, held, 24)
      ensures w == old(w).(q := w.q) && WellFormed(w)
      ensures r.Attached? ==> q == QueueFlags(true, true, true, true, true) && w.q == Rings(p).(filter := true)
      ensures r.Attached? ==> !Bad(p, held, Filter)
      ensures r.Failed? ==> r.step == Filter && FailedAt(p, held, Filter, q, w.q)
      ensures Tidy(old(log)) && Genuine(p, 22) ==> Tidy(log)
    {
      var ok := FilterInserting(p, held);
      Next(p, held, Filter);
      if !ok {
        FailsAtFilter(p, held, q, w.q);
        return Failed(Filter);
      }
      return Attached;
    }

    /** Both queues and the filter. */
    method StartTransfers(p: Plan, ghost held: bool) returns (r: Result)
      requires Ready(p) && q == QueueFlags(true, true, false, false, false)
      requires w == Armed(p).(q := Evqs(p)) && WellFormed(w)
      modifies this`w, this`log, this`q
      ensures Outcome(p, held, 21) == if r.Failed? then r else Outcome(p, held, 24)
      ensures r.Failed? ==> 21 <= Rank(r.step) < 24 && FailedAt(p, held, r.step, q, w.q)
      ensures w == old(w).(q := w.q) && WellFormed(w)
      ensures r.Attached? ==> q == QueueFlags(true, true, true, true, true) && w.q == Rings(p).(filter := true)
      ensures r.Attached? ==> !Bad(p, held, Rxq) && !Bad(p, held, Filter)
      ensures Tidy(old(log)) && (if r.Failed? then Genuine(p, Rank(r.step)) else Genuine(p, 22)) ==> Tidy(log)
    {
      r := StartRx(p, held);
      if r.Failed? { return; }
      r := StartTx(p, held);
      if r.Failed? { return; }
      r := StartFilter(p, held);
    }

    /** From the control event queue to the filter, as `sfc7120_fbsd_attach` orders them. */
    method StartQueues(p: Plan, ghost held: bool) returns (r: Result)
      requires mcdi && fn == FnFlags(true, true, p.viCount, true) && q == NoQueues() && w == Armed(p)
      modifies this`w, this`log, this`q
      ensures Outcome(p, held, 19) == if r.Failed? then r else Outcome(p, held, 24)
      ensures r.Failed? ==> 19 <= Rank(r.step) < 24 && FailedAt(p, held, r.step, q, w.q)
      ensures w == old(w).(q := w.q) && WellFormed(w)
      ensures r.Attached? ==> q == QueueFlags(true, true, true, true, true) && w.q == Rings(p).(filter := true)
      ensures r.Attached? ==> Genuine(p, 22)
      ensures Tidy(old(log)) && (r.Failed? ==> Genuine(p, Rank(r.step))) ==> Tidy(log)
    {
      r := StartControl(p, held);
      if r.Failed? { return; }
      r := StartData(p, held);
      if r.Failed? { return; }
      r := StartTransfers(p, held);
      if r.Attached? { PastFilter(p, held); }
    }

    // ---------------------------------------------------------------- teardown

    method FilterRemoving()
      requires mcdi
      modifies this`w, this`log, this`q
      ensures q == if old(q).filterInserted then old(q).(filterInserted := false) else old(q)
      ensures w == if old(q).filterInserted && old(w).q.filter then old(w).(q := old(w).q.(filter := false)) else old(w)
      ensures Tidy(log) <==> Tidy(old(log)) && (old(q).filterInserted ==> Orderly(old(w), FilterRemove))
    {
      if !q.filterInserted { return; }
      var _ := TakeDown(FilterRemove);
      q := q.(filterInserted := false);
    }

    method FiniTx()
      requires mcdi
      modifies this`w, this`log, this`q
      ensures q == if old(q).txqInitialized then old(q).(txqInitialized := false) else old(q)
      ensures w == if old(q).txqInitialized && old(w).q.txq.On? then old(w).(q := old(w).q.(txq := Off)) else old(w)
      ensures Tidy(log) <==> Tidy(old(log)) && (old(q).txqInitialized ==> Orderly(old(w), Cmd.FiniTxq))
    {
      if !q.txqInitialized { return; }
      var _ := TakeDown(Cmd.FiniTxq);
      q := q.(txqInitialized := false);
    }

    method FiniRx()
      requires mcdi
      modifies this`w, this`log, this`q
      ensures q == if old(q).rxqInitialized then old(q).(rxqInitialized := false) else old(q)
      ensures w == if old(q).rxqInitialized && old(w).q.rxq.On? && !old(w).q.filter
                   then old(w).(q := old(w).q.(rxq := Off)) else old(w)
      ensures Tidy(log) <==> Tidy(old(log)) && (old(q).rxqInitialized ==> Orderly(old(w), Cmd.FiniRxq))
    {
      if !q.rxqInitialized { return; }
      var _ := TakeDown(Cmd.FiniRxq);
      q := q.(rxqInitialized := false);
    }

    /** `sfc7120_mcdi_fini_evq`: the flag survives only the "busy" reply. */
    method FiniEv(n: EvqId)
      requires mcdi
      modifies this`w, this`log, this`q
      ensures var flag := if n == Control then old(q).evqInitialized else old(q).dataEvqInitialized;
        && q == (if !flag || Targets(old(w), n) then old(q)
                 else if n == Control then old(q).(evqInitialized := false)
                 else old(q).(dataEvqInitialized := false))
        && w == (if !flag || !Up(old(w), n) || Targets(old(w), n) then old(w)
                 else if n == Control then old(w).(q := old(w).q.(evq0 := false))
                 else old(w).(q := old(w).q.(evq1 := false)))
        && (Tidy(log) <==> Tidy(old(log)) && (flag ==> Orderly(old(w), FiniEvq(n))))
    {
      if !(if n == Control then q.evqInitialized else q.dataEvqInitialized) { return; }
      var busy := Targets(w, n);
      var ok := TakeDown(FiniEvq(n));
      if !ok && busy { return; }
      if n == Control { q := q.(evqInitialized := false); } else { q := q.(dataEvqInitialized := false); }
    }

    method VadaptorFreeing()
      requires mcdi
      modifies this`w, this`log, this`fn
      ensures fn == if old(fn).vadaptorAllocated then old(fn).(vadaptorAllocated := false) else old(fn)
      ensures w == if old(fn).vadaptorAllocated && Allowed(old(w), VadaptorFree)
                   then old(w).(fn := old(w).fn.(vadaptor := false)) else old(w)
      ensures Tidy(log) <==> Tidy(old(log)) && (old(fn).vadaptorAllocated ==> Orderly(old(w), VadaptorFree))
    {
      if !fn.vadaptorAllocated { return; }
      var _ := TakeDown(VadaptorFree);
      fn := fn.(vadaptorAllocated := false);
    }

    method FreeingVis()
      requires mcdi
      modifies this`w, this`log, this`fn
      ensures fn == if old(fn).visAllocated && Allowed(old(w), FreeVis)
                    then old(fn).(visAllocated := false, viCount := 0) else old(fn)
      ensures w == if old(fn).visAllocated && Allowed(old(w), FreeVis)
                   then old(w).(fn := old(w).fn.(vis := false)) else old(w)
      ensures Tidy(log) <==> Tidy(old(log)) && (old(fn).visAllocated ==> Orderly(old(w), FreeVis))
    {
      if !fn.visAllocated { return; }
      var ok := TakeDown(FreeVis);
      if ok { fn := fn.(visAllocated := false, viCount := 0); }
    }

    /** Filter, TX queue and RX queue of `sfc7120_hw_teardown`. Whatever the driver does not
        know of stays. */
    method StopTransfers(ghost lost: Step)
      requires mcdi && WellFormed(w) && Quiet(w) && w.fn.attached && (CoversQueues(q, w.q) || Lost(q, w.q, lost))
      modifies this`w, this`log, this`q
      ensures w == old(w).(q := w.q) && WellFormed(w)
      ensures Tidy(log) ==> Tidy(old(log))
      ensures CoversQueues(old(q), old(w).q) ==>
                && w.q == old(w).q.(rxq := Off, txq := Off, filter := false)
                && q == old(q).(rxqInitialized := false, txqInitialized := false, filterInserted := false)
                && (Tidy(log) <==> Tidy(old(log)) && old(q.rxqInitialized == w.q.rxq.On?)
                                   && old(q.txqInitialized == w.q.txq.On?))
      ensures Lost(old(q), old(w).q, lost) ==> Lost(q, w.q, lost)
    {
      FilterRemoving();
      FiniTx();
      FiniRx();
    }

    /** ... and then the event queues nothing targets any more. */
    method StopQueues(ghost lost: Step)
      requires mcdi && WellFormed(w) && Quiet(w) && w.fn.attached && (CoversQueues(q, w.q) || Lost(q, w.q, lost))
      modifies this`w, this`log, this`q
      ensures w == old(w).(q := w.q) && WellFormed(w)
      ensures Tidy(log) ==> Tidy(old(log))
      ensures CoversQueues(old(q), old(w).q) ==>
                && Idle(w.q) && q == NoQueues()
                && (Tidy(log) <==> Tidy(old(log)) && MirrorsQueues(old(q), old(w).q))
      ensures Lost(old(q), old(w).q, lost) ==> Lost(q, w.q, lost)
    {
      StopTransfers(lost);
      FiniEv(Data);
      FiniEv(Control);
    }

    /** The rest of `sfc7120_hw_teardown`. VIs with a queue still on them cannot be freed. */
    method Release()
      requires mcdi && WellFormed(w) && Quiet(w) && w.fn.attached && CoversFn(fn, w.fn)
      modifies this`w, this`log, this`mcdi, this`fn
      ensures !mcdi && w == old(w).(fn := w.fn) && WellFormed(w)
      ensures Idle(w.q) ==> w.fn == Bare().fn && MirrorsFn(fn, w.fn)
      ensures Tidy(log) <==> Tidy(old(log)) && Idle(w.q) && MirrorsFn(old(fn), old(w).fn)
    {
      VadaptorFreeing();
      FreeingVis();
      DrvDetaching();
      McdiFini();
    }

    /** `sfc7120_hw_teardown`. */
    method HwTeardown(ghost lost: Step)
      requires mcdi && WellFormed(w) && Quiet(w) && w.fn.attached
      requires CoversFn(fn, w.fn) && (CoversQueues(q, w.q) || Lost(q, w.q, lost))
      modifies this`w, this`log, this`mcdi, this`fn, this`q
      ensures !mcdi && w.rings == old(w).rings && Quiet(w) && WellFormed(w)
      ensures CoversQueues(old(q), old(w).q) ==>
                && w == Bare().(rings := w.rings) && MirrorsFn(fn, w.fn) && q == NoQueues()
                && (Tidy(log) <==> Tidy(old(log)) && MirrorsFn(old(fn), old(w).fn) && MirrorsQueues(old(q), old(w).q))
      ensures Lost(old(q), old(w).q, lost) ==> !Idle(w.q) && !Tidy(log)
    {
      StopQueues(lost);
      Release();
    }

    // ---------------------------------------------------------------- attach and detach

    /** `sfc7120_alloc_dma_resources`: all six buffers, or none. */
    method AllocDma(p: Plan, ghost held: bool) returns (r: Result)
      requires w.rings == {} && Idle(w.q) && Quiet(w)
      modifies this`w, this`log
      ensures Outcome(p, held, 12) == if r.Failed? then r else Outcome(p, held, 18)
      ensures r.Failed? ==> r.step.Dma? && w == old(w)
      ensures r.Attached? ==> w == old(w).(rings := AllRings())
      ensures Tidy(old(log)) ==> Tidy(log)
    {
      r := AllocBuffers(p, held);
      if r.Failed? { UnwindBuffers(r.step.ring); }
    }

    /** `sfc7120_fbsd_attach` from the event queues to the device node. */
    method StartNode(p: Plan, ghost held: bool) returns (r: Result)
      requires mcdi && fn == FnFlags(true, true, p.viCount, true) && q == NoQueues() && w == Armed(p)
      modifies this`w, this`log, this`q
      ensures Outcome(p, held, 19) == if r.Failed? then r else Outcome(p, held, STEPS)
      ensures r.Failed? ==> 19 <= Rank(r.step) && FailedAt(p, held, r.step, q, w.q)
      ensures w == old(w).(q := w.q, node := r.Attached?) && WellFormed(w)
      ensures r.Attached? ==> q == QueueFlags(true, true, true, true, true) && w.q == Rings(p).(filter := true)
      ensures r.Attached? ==> Genuine(p, 22)
      ensures Tidy(old(log)) && (r.Failed? ==> Genuine(p, Rank(r.step))) ==> Tidy(log)
    {
      r := StartQueues(p, held);
      if r.Failed? { return; }
      Next(p, held, Cdev);
      if !Fine(p, Cdev) {
        FailsOutside(p, held, Cdev, q, w.q);
        return Failed(Cdev);
      }
      w := w.(node := true);
    }

    /** ... and from the interrupt on, after which the caller unwinds at `fail_dma`. */
    method Start(p: Plan, ghost held: bool) returns (r: Result)
      requires mcdi && fn == FnFlags(true, true, p.viCount, true) && q == NoQueues() && w == Provisioned(p)
      modifies this`w, this`log, this`q
      ensures Outcome(p, held, 18) == if r.Failed? then r else Outcome(p, held, STEPS)
      ensures r.Failed? ==> 18 <= Rank(r.step) && FailedAt(p, held, r.step, q, w.q)
      ensures w == old(w).(q := w.q, wired := w.wired, node := r.Attached?) && WellFormed(w)
      ensures r.Attached? ==> w.q == Rings(p).(filter := true) && q == QueueFlags(true, true, true, true, true)
      ensures r.Attached? ==> w.wired && Genuine(p, 22)
      ensures Tidy(old(log)) && (r.Failed? ==> Genuine(p, Rank(r.step))) ==> Tidy(log)
    {
      Next(p, held, Intr);
      if !Fine(p, Intr) {
        FailsOutside(p, held, Intr, q, w.q);
        return Failed(Intr);
      }
      w := w.(wired := true);
      r := StartNode(p, held);
    }

    /** The label `fail_hw`, when the DMA allocation has failed and undone itself. */
    method UnwindHw(p: Plan, ghost held: bool, ghost at: Step)
      requires mcdi && fn == FnFlags(true, true, p.viCount, true) && q == NoQueues()
      requires w == Provisioned(p).(rings := {}) && at.Dma? && Tidy(log)
      modifies this`w, this`log, this`mcdi, this`fn, this`q
      ensures !mcdi && Leftover(w)
      ensures w == Bare() <==> !Unreported(p, held, at)
      ensures Tidy(log) <==> !Unreported(p, held, at) && Genuine(p, Rank(at))
    {
      HwTeardown(Cdev);
    }

    /** The label `fail_dma`: interrupts, firmware, memory, in that order. */
    method Unwind(ghost lost: Step)
      requires mcdi && WellFormed(w) && !w.node && w.fn.attached
      requires CoversFn(fn, w.fn) && (CoversQueues(q, w.q) || Lost(q, w.q, lost))
      modifies this`w, this`log, this`mcdi, this`fn, this`q
      ensures !mcdi && Leftover(w)
      ensures CoversQueues(old(q), old(w).q) ==>
                && w == Bare() && MirrorsFn(fn, w.fn) && q == NoQueues()
                && (Tidy(log) <==> Tidy(old(log)) && MirrorsFn(old(fn), old(w).fn) && MirrorsQueues(old(q), old(w).q))
      ensures Lost(old(q), old(w).q, lost) ==> w != Bare() && !Tidy(log)
    {
      if w.wired { w := w.(wired := false); }
      HwTeardown(lost);
      FreeDma();
    }

    /** ... for a start that has failed. */
    method UnwindStart(p: Plan, ghost held: bool, ghost at: Step)
      requires mcdi && WellFormed(w) && fn == FnFlags(true, true, p.viCount, true)
      requires w.fn == Provisioned(p).fn && !w.node && Rank(at) >= 18 && FailedAt(p, held, at, q, w.q)
      requires Tidy(log) <== Genuine(p, Rank(at))
      modifies this`w, this`log, this`mcdi, this`fn, this`q
      ensures !mcdi && Leftover(w)
      ensures w == Bare() <==> !Unreported(p, held, at)
      ensures Tidy(log) <==> !Unreported(p, held, at) && Genuine(p, Rank(at))
    {
      LostIsNotCovered(q, w.q, at);
      Unwind(at);
    }

    /** `sfc7120_fbsd_attach` past `sfc7120_hw_init`, with its `fail_dma` and `fail_hw` labels. */
    method AttachRest(p: Plan, ghost held: bool) returns (r: Result)
      requires mcdi && fn == FnFlags(true, true, p.viCount, true) && q == NoQueues()
      requires w == Provisioned(p).(rings := {}) && Tidy(log)
      modifies this
      ensures Outcome(p, held, 12) == if r.Failed? then r else Attached
      ensures r.Failed? ==> Rank(r.step) >= 12 && !mcdi && Leftover(w)
      ensures r.Failed? ==> (w == Bare() <==> !Unreported(p, held, r.step))
      ensures r.Failed? ==> (Tidy(log) <==> !Unreported(p, held, r.step) && Genuine(p, Rank(r.step)))
      ensures r.Attached? ==> Serving() && Tidy(log) && (w == Running() <==> Genuine(p, STEPS))
    {
      r := AllocDma(p, held);
      if r.Failed? {
        UnwindHw(p, held, r.step);
        return;
      }
      r := Start(p, held);
      if r.Failed? {
        UnwindStart(p, held, r.step);
        return;
      }
      deviceAttached := true;
    }

    /** What a successful attach establishes: everything in place but, it may be, the TX
        queue, and all flags up. */
    ghost predicate Serving()
      reads this
    {
      && mcdi && deviceAttached
      && w == Running().(q := Running().q.(txq := w.q.txq)) && w.q.txq in {Off, On(Data)}
      && fn == FnFlags(true, true, fn.viCount, true) && q == QueueFlags(true, true, true, true, true)
    }

    /** `sfc7120_fbsd_attach`, whatever earlier loads left in the firmware. The outcome is
        decided by the first bad step. A failure inside `sfc7120_hw_init` leaves exactly the
        residue. One past it leaves nothing exactly when no queue or filter command took
        effect and was reported as failed; every command was in order exactly if, besides, no
        success before was hollow. A load that attaches has everything in place exactly if
        INIT_TXQ was not hollow; any other hollow success makes it fail. */
    method AttachAll(p: Plan) returns (r: Result)
      requires Zeroed() && Leftover(w) && Tidy(log)
      modifies this
      ensures r == Outcome(p, old(w).fn.vis, 0) && (r.Failed? ==> !mcdi && Leftover(w))
      ensures r.Attached? ==> Serving() && Tidy(log) && (w == Running() <==> Genuine(p, STEPS)) && Genuine(p, 22)
      ensures r.Failed? && Rank(r.step) < 12 ==>
                w == Residue(old(w), p, r.step) && (!(old(w).fn.vis && p.resetDenied) ==> Tidy(log))
      ensures r.Failed? && Rank(r.step) >= 12 ==>
                && (w == Bare() <==> !Unreported(p, old(w).fn.vis, r.step))
                && (Tidy(log) <==> !Unreported(p, old(w).fn.vis, r.step) && Genuine(p, Rank(r.step)))
    {
      ghost var w0, held := w, w.fn.vis;
      r := HwInit(p, held);
      if r.Failed? {
        ResidueIsLeftover(w0, p, r.step);
        return;
      }
      ReachedIff(p, held);
      r := AttachRest(p, held);
      if r.Attached? { AttachedIsGenuine(p, held); }
    }

    /** `sfc7120_fbsd_detach`, and with it the same world a first load found, whether or not
        the firmware ever had the TX queue. */
    method Detach()
      requires Serving() && Tidy(log)
      modifies this
      ensures w == Bare() && !mcdi && !deviceAttached && MirrorsFn(fn, w.fn) && q == NoQueues()
      ensures Tidy(log) <==> old(w) == Running()
    {
      deviceAttached := false;
      w := w.(node := false);
      Unwind(Cdev);
    }
  }

  lemma LostIsNotCovered(q: QueueFlags, x: Queues, s: Step)
    ensures !(CoversQueues(q, x) && Lost(q, x, s))
  {
  }

  /** A load that got the filter in had a genuine RX queue, and so everything under it. */
  lemma PastFilter(p: Plan, held: bool)
    requires !Bad(p, held, DataEvq) && !Bad(p, held, Rxq) && !Bad(p, held, Filter)
    ensures Genuine(p, 22)
  {
  }

  lemma AttachedIsGenuine(p: Plan, held: bool)
    requires Outcome(p, held, 0) == Attached
    ensures Genuine(p, 22)
  {
    SkipTo(p, held, 0, 20);
    SkipTo(p, held, 0, 21);
    SkipTo(p, held, 0, 23);
    Next(p, held, DataEvq);
    Next(p, held, Rxq);
    Next(p, held, Filter);
    PastFilter(p, held);
  }

  lemma {:induction false} SkipTo(p: Plan, held: bool, n: nat, k: nat)
    requires n <= k <= STEPS && Outcome(p, held, n) == Attached
    ensures Outcome(p, held, k) == Attached
    decreases k - n
  {
    if n < k { SkipTo(p, held, n + 1, k); }
  }

  // ------------------------------------------------------------------ what failed loads leave

  /** The step past VI allocation is reached only if the firmware had VIs to grant. */
  lemma ReachedIff(p: Plan, held: bool)
    requires Outcome(p, held, 0) == Outcome(p, held, 12)
    ensures !(held && p.resetDenied)
  {
    UpToVis(p, held, 0);
  }

  lemma {:induction false} UpToVis(p: Plan, held: bool, n: nat)
    requires n <= Rank(Vis)
    ensures held && p.resetDenied ==> Outcome(p, held, n).Failed? && Rank(Outcome(p, held, n).step) <= Rank(Vis)
    decreases Rank(Vis) - n
  {
    Next(p, held, StepAt(n));
    if n < Rank(Vis) { UpToVis(p, held, n + 1); }
  }

  /** From the reset on it makes no difference that the driver was attached. */
  lemma ResidueSame(w: World, p: Plan, at: Step)
    requires 4 <= Rank(at) < 12
    ensures Residue(Effect(w, DrvAttach), p, at) == Residue(w, p, at)
  {
  }

  lemma ResidueIsLeftover(w: World, p: Plan, at: Step)
    requires Leftover(w) && Outcome(p, w.fn.vis, 0) == Failed(at) && Rank(at) < 12
    ensures Leftover(Residue(w, p, at))
  {
    if Rank(at) > Rank(Vis) { UpToVis(p, w.fn.vis, 0); }
  }

  /** A load attaches exactly when its own steps go well and either the reset was permitted
      or the function held no VIs. */
  lemma AttachesIff(p: Plan, held: bool)
    ensures Outcome(p, held, 0) == Attached <==> Outcome(p, false, 0) == Attached && !(held && p.resetDenied)
  {
    SameOutcome(p, held, 0);
  }

  lemma {:induction false} SameOutcome(p: Plan, held: bool, n: nat)
    requires n <= STEPS
    ensures Outcome(p, held, n) == Attached <==>
              Outcome(p, false, n) == Attached && (n <= Rank(Vis) ==> !(held && p.resetDenied))
    decreases STEPS - n
  {
    if n < STEPS {
      Next(p, held, StepAt(n));
      Next(p, false, StepAt(n));
      SameOutcome(p, held, n + 1);
      RankInjective(StepAt(n), Vis);
    }
  }

  /** A load of a clean function that fails inside `sfc7120_hw_init` leaves something behind
      exactly when the assertion query failed, when VIs had been granted, or when a command
      took effect unreported. */
  lemma LeakIff(p: Plan, at: Step)
    requires Rank(at) < 12
    ensures Residue(Bare(), p, at) != Bare() <==>
      at == Asserts || Rank(at) > Rank(Vis) || ((at == Attaching || at == Vis) && Silent(p, false, at))
    ensures Residue(Bare(), p, at).fn.vis <==> Rank(at) > Rank(Vis) || (at == Vis && Silent(p, false, at))
    ensures Residue(Bare(), p, at).fn.vadaptor <==>
      (Rank(at) > Rank(Vadaptor) && !Hollow(p, Vadaptor)) || (at == Vadaptor && Silent(p, false, at))
  {
  }

  /** Its own steps go well, and the reset is permitted or the function holds no VIs. */
  ghost predicate Succeeds(w: World, p: Plan) {
    Outcome(p, false, 0) == Attached && !(w.fn.vis && p.resetDenied)
  }

  /** One load, unloaded again if it attached: what it found, how it went, what it left. */
  datatype Trial = Trial(found: World, plan: Plan, attached: bool, left: World)

  ghost predicate Right(t: Trial) {
    && Leftover(t.left) && Leaves(t.found, t.plan, t.left)
    && (t.attached <==> Succeeds(t.found, t.plan))
  }

  method Load(w: World, p: Plan) returns (t: Trial)
    requires Leftover(w)
    ensures Right(t) && t.found == w && t.plan == p
  {
    var a := new Adapter(w);
    var r := a.AttachAll(p);
    AttachesIff(p, w.fn.vis);
    if r.Attached? { a.Detach(); }
    t := Trial(w, p, r.Attached?, a.w);
  }

  function Last(w0: World, trials: seq<Trial>): World {
    if trials == [] then w0 else trials[|trials| - 1].left
  }

  /** Loads of the driver one after the other, each finding what the one before left. */
  ghost predicate History(w0: World, plans: seq<Plan>, trials: seq<Trial>) {
    && |trials| == |plans|
    && (trials == [] ||
        (var n := |trials| - 1;
         && History(w0, plans[..n], trials[..n])
         && trials[n].found == Last(w0, trials[..n]) && trials[n].plan == plans[n] && Right(trials[n])))
  }

  lemma HistorySnoc(w0: World, plans: seq<Plan>, trials: seq<Trial>, t: Trial)
    requires History(w0, plans, trials) && t.found == Last(w0, trials) && Right(t)
    ensures History(w0, plans + [t.plan], trials + [t])
  {
    assert (plans + [t.plan])[..|plans|] == plans && (trials + [t])[..|trials|] == trials;
  }

  /** Any sequence of loads, with any failures and whatever the first one finds in the
      firmware. A load attaches exactly when its own steps go well and either its reset is
      permitted or the loads before it left no VIs; an unload leaves a bare function, and a
      failure past `sfc7120_hw_init` does unless its queue command went unreported. */
  method Loads(w0: World, plans: seq<Plan>) returns (trials: seq<Trial>)
    requires Leftover(w0)
    ensures History(w0, plans, trials) && Leftover(Last(w0, trials))
  {
    if plans == [] { return []; }
    var n := |plans| - 1;
    var before := Loads(w0, plans[..n]);
    var t := Load(Last(w0, before), plans[n]);
    HistorySnoc(w0, plans[..n], before, t);
    assert plans[..n] + [plans[n]] == plans;
    trials := before + [t];
  }

  /** What a load, and the unload of one that attached, make of the firmware. */
  ghost predicate Leaves(w: World, p: Plan, w': World) {
    match Outcome(p, w.fn.vis, 0)
    case Attached => w' == Bare()
    case Failed(at) =>
      if Rank(at) < 12 then w' == Residue(w, p, at)
      else w' != Bare() <==> Unreported(p, w.fn.vis, at)
  }

  /** A plan without trouble but for the steps given and, if so, a denied reset. */
  function Smoothly(refused: set<Step>, resetDenied: bool, linkFails: set<nat>): Plan {
    Plan(refused, {}, {}, resetDenied, [], linkFails, 0, 2)
  }

  lemma {:induction false} SmoothlyAttaches(p: Plan, n: nat)
    requires p == Smoothly({}, p.resetDenied, {}) && n <= STEPS
    ensures Outcome(p, false, n) == Attached
    decreases STEPS - n
  {
    if n < STEPS {
      SmoothlyAttaches(p, n + 1);
      SmoothStep(p, StepAt(n));
      Next(p, false, StepAt(n));
    }
  }

  lemma SmoothStep(p: Plan, s: Step)
    requires p == Smoothly({}, p.resetDenied, {})
    ensures !Bad(p, false, s)
  {
    assert AssertAnswer(p, 0) == Answered;
  }

  lemma FirstFailsAtLink(p: Plan)
    requires p == Smoothly({}, false, {0})
    ensures Outcome(p, false, 0) == Failed(GetLink)
  {
    assert 0 in p.linkFails && LinkPollFails(p);
    assert AssertAnswer(p, 0) == Answered;
    forall s: Step ensures Precedes(p, false, s, 0, GetLink) { }
    assert Smooth(p, false, 0, GetLink);
    OutcomeIff(p, false, 0, GetLink);
  }

  lemma SecondFailsAtVis(p: Plan)
    requires p == Smoothly({}, true, {})
    ensures Outcome(p, true, 0) == Failed(Vis)
  {
    assert AssertAnswer(p, 0) == Answered;
    forall s: Step ensures Precedes(p, true, s, 0, Vis) { }
    assert Smooth(p, true, 0, Vis);
    OutcomeIff(p, true, 0, Vis);
  }

  /** One load that fails at the link and leaves its VIs, then one with no trouble of its own
      but a denied reset: it fails at the VIs, where on a clean function it would attach. */
  method LeakThenFail() returns (first: Trial, second: Trial)
    ensures first.found == Bare() && first.plan == Smoothly({}, false, {0}) && !first.attached && first.left.fn.vis
    ensures second.found == first.left && second.plan == Smoothly({}, true, {}) && !second.attached
    ensures Outcome(first.plan, false, 0) == Failed(GetLink)
    ensures Outcome(second.plan, false, 0) == Attached && Outcome(second.plan, true, 0) == Failed(Vis)
  {
    first := Load(Bare(), Smoothly({}, false, {0}));
    second := Load(first.left, Smoothly({}, true, {}));
    FirstFailsAtLink(first.plan);
    SecondFailsAtVis(second.plan);
    SmoothlyAttaches(second.plan, 0);
  }
}
