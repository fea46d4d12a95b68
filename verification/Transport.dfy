/** The MCDI transport over whole runs: a 4-bit sequence number, an epoch bit, and a
    management controller that may write a reply long after the driver has given up on the
    request. The mailbox is reduced to the header fields the protocol rests on. */
module Transport {
  const SEQ_MODULUS: nat := 16

  /** What is in the mailbox header: a request as sent, or a reply. `request` is which send
      of the epoch it belongs to; the driver does not see it. */
  datatype Header = Header(response: bool, seqNo: nat, notEpoch: bool, request: nat)

  datatype Exchange = Accepted(request: nat, reply: nat) | Rejected(request: nat, reply: nat) | TimedOut(request: nat)

  datatype State = State(
    seqNo: nat, newEpoch: bool,   // the driver: mcdi_seq, mcdi_new_epoch
    waiting: bool,                // inside sfc7120_mcdi_exec
    box: Header,
    issued: nat,                  // requests of this epoch sent so far
    sent: seq<Header>,            //   and their headers
    history: seq<Exchange>)       // how the exchanges of this epoch ended

  datatype Step =
    | Send               // build the request, ring the doorbell
    | Reply(i: nat)      // the MC writes its reply to request i, however late
    | Poll               // a look at the mailbox
    | Timeout            // the backoff runs out
    | Reboot             // the MC has rebooted; the driver starts a new epoch

  function Opened(x: Header): State {
    State(0, true, false, x, 0, [], [])
  }

  function Finish(s: State, e: Exchange): State {
    s.(waiting := false, newEpoch := false, seqNo := (s.seqNo + 1) % SEQ_MODULUS, history := s.history + [e])
  }

  function Next(s: State, step: Step): State {
    match step
    case Send =>
      if s.waiting then s
      else
        var h := Header(false, s.seqNo % SEQ_MODULUS, !s.newEpoch, s.issued);
        s.(waiting := true, box := h, issued := s.issued + 1, sent := s.sent + [h])
    case Reply(i) =>
      if i < s.issued && i < |s.sent| then s.(box := s.sent[i].(response := true)) else s
    case Poll =>
      if !s.waiting || !s.box.response || s.issued == 0 then s
      else if s.box.seqNo == s.seqNo then Finish(s, Accepted(s.issued - 1, s.box.request))
      else Finish(s, Rejected(s.issued - 1, s.box.request))
    case Timeout =>
      if s.waiting && s.issued > 0 then Finish(s, TimedOut(s.issued - 1)) else s
    case Reboot =>
      if s.waiting then s else Opened(s.box)
  }

  /** Requests whose exchange is over. */
  function Over(s: State): int {
    s.issued - (if s.waiting then 1 else 0)
  }

  ghost predicate Right(e: Exchange, n: nat) {
    match e
    case Accepted(request, reply) => request == n && reply <= n && reply % SEQ_MODULUS == n % SEQ_MODULUS
    case Rejected(request, reply) => request == n && reply <= n && reply % SEQ_MODULUS != n % SEQ_MODULUS
    case TimedOut(request) => request == n
  }

  ghost predicate SentRight(sent: seq<Header>, i: nat) {
    i < |sent| ==> sent[i] == Header(false, i % SEQ_MODULUS, i > 0, i)
  }

  ghost predicate EndedRight(history: seq<Exchange>, i: nat) {
    i < |history| ==> Right(history[i], i)
  }

  /** While a request waits, a reply in the mailbox is one to a request of this epoch. What is
      left in it otherwise is nobody's. */
  ghost predicate Inv(s: State) {
    && 0 <= Over(s) == |s.history| && |s.sent| == s.issued
    && s.seqNo == Over(s) % SEQ_MODULUS
    && (s.newEpoch <==> Over(s) == 0)
    && (forall i: nat :: SentRight(s.sent, i))
    && (s.waiting && s.box.response ==> s.box.request < s.issued && s.box.seqNo == s.box.request % SEQ_MODULUS)
    && (forall i: nat :: EndedRight(s.history, i))
  }

  lemma SendInv(s: State)
    requires Inv(s) && !s.waiting
    ensures Inv(Next(s, Send))
  {
    var t := Next(s, Send);
    forall i: nat ensures SentRight(t.sent, i) { assert SentRight(s.sent, i); }
  }

  lemma ReplyInv(s: State, i: nat)
    requires Inv(s)
    ensures Inv(Next(s, Reply(i)))
  {
    assert SentRight(s.sent, i);
  }

  lemma FinishInv(s: State, e: Exchange)
    requires Inv(s) && s.waiting && Right(e, s.issued - 1)
    ensures Inv(Finish(s, e))
  {
    var t := Finish(s, e);
    forall i: nat ensures EndedRight(t.history, i) { assert EndedRight(s.history, i); }
    SuccResidue(Over(s));
  }

  lemma SuccResidue(n: nat)
    ensures (n % SEQ_MODULUS + 1) % SEQ_MODULUS == (n + 1) % SEQ_MODULUS
  {
  }

  lemma NextInv(s: State, step: Step)
    requires Inv(s)
    ensures Inv(Next(s, step))
  {
    match step
    case Send => if !s.waiting { SendInv(s); }
    case Reply(i) => ReplyInv(s, i);
    case Poll =>
      if s.waiting && s.box.response {
        FinishInv(s, if s.box.seqNo == s.seqNo then Accepted(s.issued - 1, s.box.request)
                     else Rejected(s.issued - 1, s.box.request));
      }
    case Timeout => if s.waiting { FinishInv(s, TimedOut(s.issued - 1)); }
    case Reboot =>
  }

  ghost predicate Run(ss: seq<State>, steps: seq<Step>) {
    && |ss| == |steps| + 1
    && ss[0] == Opened(ss[0].box)
    && forall k :: 0 <= k < |steps| ==> ss[k + 1] == Next(ss[k], steps[k])
  }

  lemma {:induction false} RunInv(ss: seq<State>, steps: seq<Step>, k: nat)
    requires Run(ss, steps) && k < |ss|
    ensures Inv(ss[k])
  {
    if k > 0 {
      RunInv(ss, steps, k - 1);
      NextInv(ss[k - 1], steps[k - 1]);
    }
  }

  /** In every run: request `n` of an epoch carries sequence number n mod 16 and leaves
      NOT_EPOCH clear exactly if it is the first; and a reply accepted for it is its own or
      one at least 16 requests old. */
  lemma LateRepliesRejected(ss: seq<State>, steps: seq<Step>, k: nat, n: nat)
    requires Run(ss, steps) && k < |ss|
    ensures n < ss[k].issued ==> n < |ss[k].sent| && ss[k].sent[n].seqNo == n % SEQ_MODULUS
                                 && (ss[k].sent[n].notEpoch <==> n > 0) && !ss[k].sent[n].response
    ensures n < |ss[k].history| && ss[k].history[n].Accepted? ==>
              ss[k].history[n].reply == n || ss[k].history[n].reply + SEQ_MODULUS <= n
    ensures n < |ss[k].history| && ss[k].history[n].Rejected? ==> ss[k].history[n].reply != n
  {
    RunInv(ss, steps, k);
    assert SentRight(ss[k].sent, n) && EndedRight(ss[k].history, n);
    if n < |ss[k].history| && ss[k].history[n].Accepted? {
      SameResidueIff(ss[k].history[n].reply, n);
    }
  }

  /** The sequence number tells a reply to request `i` from one to request `n` exactly when
      they are not a multiple of 16 apart: while request `n` waits, a poll that finds the
      reply to `i` accepts it if and only if 16 divides n - i. */
  lemma AcceptedIff(ss: seq<State>, steps: seq<Step>, k: nat, i: nat)
    requires Run(ss, steps) && k < |ss| && ss[k].waiting && i < ss[k].issued
    ensures var n := ss[k].issued - 1;
            var s := Next(Next(ss[k], Reply(i)), Poll);
            |s.history| == n + 1 && (s.history[n] == Accepted(n, i) <==> (n - i) % SEQ_MODULUS == 0)
  {
    RunInv(ss, steps, k);
    PollAfterReply(ss[k], i);
    SameResidueIff(i, ss[k].issued - 1);
  }

  lemma SameResidueIff(i: nat, n: nat)
    requires i <= n
    ensures i % SEQ_MODULUS == n % SEQ_MODULUS <==> (n - i) % SEQ_MODULUS == 0
  {
  }

  lemma PollAfterReply(s: State, i: nat)
    requires Inv(s) && s.waiting && i < s.issued
    ensures var n := s.issued - 1;
            Next(Next(s, Reply(i)), Poll).history
            == s.history + [if i % SEQ_MODULUS == n % SEQ_MODULUS then Accepted(n, i) else Rejected(n, i)]
            && |s.history| == n
  {
    assert SentRight(s.sent, i);
  }

  /** A request clears the response bit, so what an earlier exchange left in the mailbox
      cannot end this one: after a send, polls change nothing until the MC writes. */
  lemma LeftoversCannotAnswer(ss: seq<State>, steps: seq<Step>, k: nat, polls: nat)
    requires Run(ss, steps) && k + polls + 1 < |ss| && !ss[k].waiting
    requires steps[k] == Send
    requires forall j :: k < j <= k + polls ==> steps[j] == Poll
    ensures ss[k + polls + 1] == ss[k + 1] && ss[k + 1].waiting && !ss[k + 1].box.response
    decreases polls
  {
    if polls > 0 {
      LeftoversCannotAnswer(ss, steps, k, polls - 1);
      assert ss[k + polls + 1] == Next(ss[k + polls], steps[k + polls]);
    }
  }

  /** Sixteen requests late is too late to be told apart. */
  lemma SixteenLateIsAccepted()
    ensures exists ss: seq<State>, steps: seq<Step> ::
              Run(ss, steps) && |ss| > 0 && Accepted(16, 0) in ss[|ss| - 1].history
  {
    var ss, steps := TimeoutRun(16);
    var s := ss[|steps|];
    RunInv(ss, steps, |steps|);
    var s1 := Next(s, Send);
    NextInv(s, Send);
    PollAfterReply(s1, 0);
    var s2 := Next(s1, Reply(0));
    var s3 := Next(s2, Poll);
    var ss', steps' := ss + [s1, s2, s3], steps + [Send, Reply(0), Poll];
    assert s3.history[16] == Accepted(16, 0);
    assert forall k :: 0 <= k < |steps'| ==> ss'[k + 1] == Next(ss'[k], steps'[k]);
    assert Run(ss', steps') && ss'[|ss'| - 1] == s3;
  }

  /** `n` requests that all time out. */
  lemma {:induction false} TimeoutRun(n: nat) returns (ss: seq<State>, steps: seq<Step>)
    ensures Run(ss, steps) && ss[|steps|].issued == n && !ss[|steps|].waiting
  {
    if n == 0 {
      ss, steps := [Opened(Header(false, 0, false, 0))], [];
    } else {
      var ss0, steps0 := TimeoutRun(n - 1);
      var s1 := Next(ss0[|steps0|], Send);
      var s2 := Next(s1, Timeout);
      ss, steps := ss0 + [s1, s2], steps0 + [Send, Timeout];
      assert forall k :: 0 <= k < |steps0| ==> ss[k + 1] == Next(ss[k], steps[k]);
    }
  }
}
