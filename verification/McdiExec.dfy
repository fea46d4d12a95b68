/** sfc7120_mcdi.c: the mailbox accessors and the synchronous exchange, on real memory. The
    management controller may rewrite the mailbox before every look the driver takes at it;
    what it writes is an arbitrary script. */
module McdiExec {
  import opened Rings
  import opened Mailbox
  import Backoff
  import Transport

  const EIO: int := 5
  const ENXIO: int := 6
  const EACCES: int := 13
  const EINVAL: int := 22
  const ETIMEDOUT: int := 60
  const EPROTO: int := 92

  /** The codes a driver's caller understands as they are; four are renumbered, and anything
      else is an I/O error. */
  predicate Errno(code: nat, rc: int) {
    if code in {0, 1, 2, 4, 5, 12, 13, 16, 22} then rc == code
    else if code in {11, 38, 62, 95} then rc == map[11 := 35, 38 := 78, 62 := 60, 95 := 45][code]
    else rc == 5
  }

  /** `sfc7120_mcdi_xlate_err`, with FreeBSD's errno values. */
  function XlateErr(mcErr: nat): (rc: int)
    ensures Errno(mcErr, rc)
  {
    match mcErr
    case 0 => 0
    case 1 => 1     // EPERM
    case 2 => 2     // ENOENT
    case 4 => 4     // EINTR
    case 5 => 5     // EIO
    case 11 => 35   // EAGAIN
    case 12 => 12   // ENOMEM
    case 13 => 13   // EACCES
    case 16 => 16   // EBUSY
    case 22 => 22   // EINVAL
    case 38 => 78   // ENOSYS
    case 62 => 60   // ETIMEDOUT
    case 95 => 45   // EOPNOTSUPP
    case _ => 5     // EIO
  }

  const MC_CMD_REBOOT: nat := 0x3d
  const REBOOT_AFTER_ASSERTION: nat := 1

  /** Reads of the revision register, one per millisecond for five seconds. */
  const REVIVAL_READS: nat := 5000

  ghost predicate BackWithin(alive: nat -> bool) {
    exists i: nat :: i < 5000 && alive(i)
  }

  // ------------------------------------------------------------------ reading a reply

  function HeaderOf(m: Bytes): nat
    requires |m| >= 8
  {
    Dword(m[..4])
  }

  /** The length a reply advertises, in the framing its request used. */
  function ReplyLen(m: Bytes, off: nat): (n: nat)
    requires |m| >= 8
    ensures n < 0x400
  {
    if off == V2_HEADER_LEN then ExtLen(Dword(m[4..8])) else DataLen(HeaderOf(m))
  }

  function Min(a: nat, b: nat): nat {
    if a < b then a else b
  }

  /** What an accepted reply delivers into a buffer of `outLen` bytes. */
  function Delivered(m: Bytes, off: nat, outLen: nat): (out: Bytes)
    requires |m| >= 8 && off + outLen <= |m|
    ensures |out| == outLen
  {
    var n := Min(ReplyLen(m, off), outLen);
    m[off..off + n] + Zeros(outLen - n)
  }

  /** Whether that is all payload: whether the bytes asked for lie in the mailbox. */
  predicate InMailbox(m: Bytes, off: nat, outLen: nat)
    requires |m| >= 8
  {
    off + Min(ReplyLen(m, off), outLen) <= MAILBOX_LEN
  }

  /** The delivered bytes are those of the mailbox as far as it goes, and of whatever lies
      behind it from there on; the rest of the buffer is zero. */
  ghost predicate Handed(m: Bytes, off: nat, outLen: nat, out: Bytes, used: nat)
    requires |m| >= MAILBOX_LEN + 4 && off + outLen <= |m| && off <= MAILBOX_LEN
  {
    && used == Min(ReplyLen(m, off), outLen) && |out| == outLen
    && out[used..] == Zeros(outLen - used)
    && (if InMailbox(m, off, outLen) then out[..used] == m[..MAILBOX_LEN][off..off + used]
        else var inside := MAILBOX_LEN - off;
             && inside < used && out[..inside] == m[..MAILBOX_LEN][off..]
             && out[inside..used] == m[MAILBOX_LEN..off + used])
  }

  lemma DeliveredIsHanded(m: Bytes, off: nat, outLen: nat)
    requires |m| >= MAILBOX_LEN + 4 && off + outLen <= |m| && off <= MAILBOX_LEN
    ensures Handed(m, off, outLen, Delivered(m, off, outLen), Min(ReplyLen(m, off), outLen))
  {
    var n := Min(ReplyLen(m, off), outLen);
    var out := Delivered(m, off, outLen);
    assert out[..n] == m[off..off + n];
    if InMailbox(m, off, outLen) {
      TakeSlice(m, MAILBOX_LEN, off, off + n);
    } else {
      var inside := MAILBOX_LEN - off;
      assert out[..inside] == out[..n][..inside] == m[off..MAILBOX_LEN];
      assert out[inside..n] == out[..n][inside..] == m[MAILBOX_LEN..off + n];
    }
  }

  /** The delivery depends on the mailbox alone. */
  ghost predicate MailboxOnly(m: Bytes, off: nat, outLen: nat)
    requires |m| >= MAILBOX_LEN + 4 && off + outLen <= |m|
  {
    forall m': Bytes :: |m'| == |m| && m'[..MAILBOX_LEN] == m[..MAILBOX_LEN] ==>
      Delivered(m', off, outLen) == Delivered(m, off, outLen)
  }

  lemma SameReplyLen(m: Bytes, m': Bytes, off: nat)
    requires |m| == |m'| >= MAILBOX_LEN && m'[..MAILBOX_LEN] == m[..MAILBOX_LEN]
    ensures ReplyLen(m', off) == ReplyLen(m, off)
  {
    TakeSlice(m, MAILBOX_LEN, 0, 4);
    TakeSlice(m', MAILBOX_LEN, 0, 4);
    TakeSlice(m, MAILBOX_LEN, 4, 8);
    TakeSlice(m', MAILBOX_LEN, 4, 8);
    assert m[..4] == m[0..4] && m'[..4] == m'[0..4];
  }

  /** The same 252-byte guard that lets requests past the mailbox lets replies be read from
      behind it: what is delivered comes from the mailbox exactly for v1 framing, or up to
      248 bytes. */
  lemma MailboxOnlyIff(m: Bytes, off: nat, outLen: nat)
    requires |m| >= MAILBOX_LEN + 4 && outLen <= PAYLOAD_MAX && (off == HEADER_LEN || off == V2_HEADER_LEN)
    ensures MailboxOnly(m, off, outLen) <==>
              off == HEADER_LEN || Min(ReplyLen(m, off), outLen) <= MAILBOX_LEN - V2_HEADER_LEN
    ensures InMailbox(m, off, outLen) <==> MailboxOnly(m, off, outLen)
  {
    var n := Min(ReplyLen(m, off), outLen);
    if InMailbox(m, off, outLen) {
      forall m': Bytes | |m'| == |m| && m'[..MAILBOX_LEN] == m[..MAILBOX_LEN]
        ensures Delivered(m', off, outLen) == Delivered(m, off, outLen)
      {
        SameReplyLen(m, m', off);
        TakeSlice(m, MAILBOX_LEN, off, off + n);
        TakeSlice(m', MAILBOX_LEN, off, off + n);
      }
    } else {
      var m' := m[MAILBOX_LEN := if m[MAILBOX_LEN] == 0 then 1 else 0];
      assert m'[..MAILBOX_LEN] == m[..MAILBOX_LEN];
      SameReplyLen(m, m', off);
      var k := MAILBOX_LEN - off;
      assert Delivered(m, off, outLen)[k] == m[MAILBOX_LEN] && Delivered(m', off, outLen)[k] == m'[MAILBOX_LEN];
    }
  }

  /** A reply whose last four delivered bytes are not the controller's. */
  lemma OverreadInput() returns (m: Bytes)
    ensures |m| == MAILBOX_LEN + 4 && ReplyLen(m, V2_HEADER_LEN) == PAYLOAD_MAX
    ensures !InMailbox(m, V2_HEADER_LEN, PAYLOAD_MAX)
    ensures Delivered(m, V2_HEADER_LEN, PAYLOAD_MAX)[251] == m[MAILBOX_LEN + 3] == 1
  {
    var x := V2Header(0, PAYLOAD_MAX);
    m := Zeros(4) + Lanes(x) + Zeros(251) + [1];
    DwordOfLanes(x);
    assert m[4..8] == Lanes(x);
  }

  function ReplyRc(m: Bytes, off: nat, seqNo: nat): int
    requires |m| >= off + 4 && off + 4 >= 8
  {
    if SeqNo(HeaderOf(m)) != seqNo then EPROTO
    else if Error(HeaderOf(m)) then XlateErr(if ReplyLen(m, off) >= 4 then Dword(m[off..off + 4]) else 0)
    else 0
  }

  lemma ProtocolErrorIff(m: Bytes, off: nat, seqNo: nat)
    requires |m| >= off + 4 && off + 4 >= 8
    ensures ReplyRc(m, off, seqNo) == EPROTO <==> SeqNo(HeaderOf(m)) != seqNo
  {
  }

  /** A return of 0 is a success exactly when the error bit is clear: an error reply whose
      code is missing or zero also yields 0, and leaves the buffer unwritten. */
  lemma ZeroRcIff(m: Bytes, off: nat, seqNo: nat)
    requires |m| >= off + 4 && off + 4 >= 8
    ensures ReplyRc(m, off, seqNo) == 0 <==>
              SeqNo(HeaderOf(m)) == seqNo
              && (Error(HeaderOf(m)) ==> ReplyLen(m, off) < 4 || Dword(m[off..off + 4]) == 0)
  {
  }

  /** The reply `m` carries the number of request `s`, has the error bit, and gives this
      code, 0 if its length leaves no room for one; in the bytes themselves, and in the
      framing of the request. */
  ghost predicate Refuses(m: Bytes, cmd: nat, s: nat, code: nat)
    requires |m| >= MAILBOX_LEN
  {
    var flags: nat, off := m[2], if cmd < 0x7f then 4 else 8;
    var len := if cmd < 0x7f then m[1] as nat else m[6] as nat + 0x100 * (m[7] as nat % 4);
    && flags % 0x10 == s && flags / 0x40 % 2 == 1
    && code == if len < 4 then 0
               else m[off] as nat + 0x100 * (m[off + 1] as nat)
                    + 0x1_0000 * (m[off + 2] as nat) + 0x100_0000 * (m[off + 3] as nat)
  }

  /** The reply `m` is request `s` done. */
  ghost predicate Grants(m: Bytes, s: nat)
    requires |m| >= MAILBOX_LEN
  {
    var flags: nat := m[2];
    flags % 0x10 == s && flags / 0x40 % 2 == 0
  }

  /** What the caller is told, on the bytes of the reply. */
  lemma ReplyRcExact(m: Bytes, cmd: nat, s: nat, code: nat)
    requires |m| >= MAILBOX_LEN
    ensures Grants(m, s) ==> ReplyRc(m, PayloadOff(cmd), s) == 0
    ensures Refuses(m, cmd, s, code) ==> Errno(code, ReplyRc(m, PayloadOff(cmd), s))
    ensures m[2] as nat % 0x10 != s ==> ReplyRc(m, PayloadOff(cmd), s) == 92
  {
    ReplyBytes(m);
  }

  /** An accepted look at `m` ends request `s` with `rc`, in the bytes of the reply. */
  ghost predicate Told(m: Bytes, cmd: nat, s: nat, rc: int)
    requires |m| >= MAILBOX_LEN
  {
    && m[2] as nat >= 0x80
    && (m[2] as nat % 0x10 != s ==> rc == 92)
    && (Grants(m, s) ==> rc == 0)
    && forall code: nat :: Refuses(m, cmd, s, code) ==> Errno(code, rc)
  }

  lemma AnsweredTold(m: Bytes, cmd: nat, s: nat, buffer: Bytes, rc: int, out: Bytes, used: nat)
    requires |m| >= MAILBOX_LEN + 4 && |buffer| <= PAYLOAD_MAX && Answered(m, cmd, s, buffer, rc, out, used)
    ensures Told(m, cmd, s, rc)
  {
    ReplyBytes(m);
    ReplyRcExact(m, cmd, s, 0);
    forall code: nat | Refuses(m, cmd, s, code) ensures Errno(code, rc) { ReplyRcExact(m, cmd, s, code); }
  }

  /** A refusal has exactly one code. */
  lemma RefusedOrNot(m: Bytes, cmd: nat, s: nat) returns (code: nat)
    requires |m| >= MAILBOX_LEN
    ensures m[2] as nat % 0x10 != s || Grants(m, s) || Refuses(m, cmd, s, code)
    ensures forall other: nat :: Refuses(m, cmd, s, other) ==> other == code
  {
    ReplyBytes(m);
    var off := PayloadOff(cmd);
    code := if ReplyLen(m, off) >= 4 then Dword(m[off..off + 4]) else 0;
  }

  /** Whether the answer to the reboot request is taken for a reboot: silence, or an error
      reply whose code reads as a timeout or as an I/O error. */
  ghost predicate LooksRebooted(m: Bytes, s: nat, answered: bool)
    requires |m| >= MAILBOX_LEN
  {
    answered ==>
      exists code: nat :: Refuses(m, 0x3d, s, code) && code !in {0, 1, 2, 4, 11, 12, 13, 16, 22, 38, 95}
  }

  lemma LooksRebootedIff(m: Bytes, s: nat, answered: bool, first: int)
    requires |m| >= MAILBOX_LEN
    requires first == if answered then ReplyRc(m, HEADER_LEN, s) else ETIMEDOUT
    ensures LooksRebooted(m, s, answered) <==> first == ETIMEDOUT || first == EIO
    ensures answered && Refuses(m, 0x3d, s, 13) ==> first == 13 && !LooksRebooted(m, s, answered)
  {
    if answered {
      var code := RefusedOrNot(m, 0x3d, s);
      ReplyRcExact(m, 0x3d, s, code);
    }
  }

  /** What a caller gets for the reply `m` to request `s`: delivery for an accepted reply
      without the error bit, an untouched buffer otherwise. */
  ghost predicate Answered(m: Bytes, cmd: nat, s: nat, buffer: Bytes, rc: int, out: Bytes, used: nat)
    requires |m| >= MAILBOX_LEN + 4 && |buffer| <= PAYLOAD_MAX
  {
    && Response(HeaderOf(m))
    && rc == ReplyRc(m, PayloadOff(cmd), s)
    && (if SeqNo(HeaderOf(m)) == s && !Error(HeaderOf(m))
        then out == Delivered(m, PayloadOff(cmd), |buffer|) && Handed(m, PayloadOff(cmd), |buffer|, out, used)
        else out == buffer && used == 0)
  }

  // ------------------------------------------------------------------ the wait

  /** Memory after the MC has written `box` into the mailbox. */
  function Rewritten(m: Bytes, box: Bytes): (r: Bytes)
    requires |m| >= MAILBOX_LEN
    ensures |r| == |m| && r[MAILBOX_LEN..] == m[MAILBOX_LEN..]
  {
    if |box| == MAILBOX_LEN then box + m[MAILBOX_LEN..] else m
  }

  /** Memory as poll `n` finds it, if the MC follows `script` from `m` on. */
  function Looked(m: Bytes, script: seq<Bytes>, n: nat): (r: Bytes)
    requires |m| >= MAILBOX_LEN
    ensures |r| == |m| && r[MAILBOX_LEN..] == m[MAILBOX_LEN..]
  {
    var before := if n == 0 then m else Looked(m, script, n - 1);
    if n < |script| then Rewritten(before, script[n]) else before
  }

  /** Poll `n` finds the response bit. */
  predicate Responds(m: Bytes, script: seq<Bytes>, n: nat)
    requires |m| >= MAILBOX_LEN
  {
    Response(HeaderOf(Looked(m, script, n)))
  }

  /** The wait ends with poll `n`: the first that finds the response bit, or else the one at
      which the backoff gives up. */
  ghost predicate Waited(m: Bytes, script: seq<Bytes>, answered: bool, n: nat)
    requires |m| >= MAILBOX_LEN
  {
    && (forall j :: 0 <= j < n ==> !Responds(m, script, j) && Backoff.Before(Backoff.TIMEOUT_US, j))
    && (answered <==> Responds(m, script, n))
    && (!answered ==> Backoff.GivesUpAt(Backoff.TIMEOUT_US, n))
  }

  /** That is how the backoff loop ends for this controller; at the latest with poll 113. */
  lemma WaitedIsBackoff(m: Bytes, script: seq<Bytes>, answered: bool, n: nat)
    requires |m| >= MAILBOX_LEN && Waited(m, script, answered, n)
    ensures Backoff.Ends((j: nat) => Responds(m, script, j), Backoff.TIMEOUT_US, answered, n, Backoff.Total(n))
    ensures n <= 113 && (!answered ==> n == 113)
  {
    Backoff.LastPoll(n);
  }

  /** What is left of a script after the first `n` entries. */
  function Rest<T>(script: seq<T>, n: nat): seq<T> {
    if n <= |script| then script[n..] else []
  }

  // ------------------------------------------------------------------ the exchange as protocol steps

  /** The driver's two variables agree with a state of the transport. */
  ghost predicate Tracks(s: Transport.State, seqNo: nat, newEpoch: bool) {
    Transport.Inv(s) && !s.waiting && s.seqNo == seqNo && s.newEpoch == newEpoch
  }

  function Sent(s: Transport.State): Transport.State { Transport.Next(s, Transport.Send) }

  function GivenUp(s: Transport.State): Transport.State { Transport.Next(Sent(s), Transport.Timeout) }

  function RepliedTo(s: Transport.State, i: nat): Transport.State {
    Transport.Next(Transport.Next(Sent(s), Transport.Reply(i)), Transport.Poll)
  }

  /** The header a send puts into the mailbox is the one the protocol's step does. */
  lemma RequestTracks(s: Transport.State, m: Bytes, cmd: nat, input: Bytes, seqNo: nat, newEpoch: bool)
    requires Tracks(s, seqNo, newEpoch) && |input| <= PAYLOAD_MAX && |m| >= MAILBOX_LEN + 4
    ensures RequestEnd(cmd, |input|) <= |m| && seqNo < 0x10
    ensures var h, b := HeaderOf(Framed(m, cmd, input, seqNo, !newEpoch)), Sent(s).box;
            Response(h) == b.response && SeqNo(h) == b.seqNo && NotEpoch(h) == b.notEpoch
  {
    RequestFitsIff(cmd, |input|);
    FramedParts(m, cmd, input, seqNo, !newEpoch);
    HeadersDecode(cmd, |input|, seqNo, !newEpoch);
  }

  lemma GivenUpTracks(s: Transport.State, seqNo: nat, newEpoch: bool)
    requires Tracks(s, seqNo, newEpoch)
    ensures Tracks(GivenUp(s), (seqNo + 1) % 0x10, false)
  {
    Transport.NextInv(s, Transport.Send);
    Transport.NextInv(Sent(s), Transport.Timeout);
  }

  /** A reply that carries the sequence number of request `i` ends the exchange as that reply
      does in the protocol; it is accepted exactly if the numbers match. */
  lemma RepliedTracks(s: Transport.State, i: nat, seqNo: nat, newEpoch: bool)
    requires Tracks(s, seqNo, newEpoch) && i <= s.issued
    ensures Tracks(RepliedTo(s, i), (seqNo + 1) % 0x10, false)
    ensures RepliedTo(s, i).history == s.history + [if i % 0x10 == seqNo then Transport.Accepted(s.issued, i)
                                                    else Transport.Rejected(s.issued, i)]
  {
    Transport.NextInv(s, Transport.Send);
    Transport.PollAfterReply(Sent(s), i);
    Transport.NextInv(Sent(s), Transport.Reply(i));
    Transport.NextInv(Transport.Next(Sent(s), Transport.Reply(i)), Transport.Poll);
  }

  /** The exchange that follows state `s` and ends with mailbox `m` is a send and a timeout,
      or a send, the reply to a request whose number the mailbox shows, and a poll; a
      protocol error is what the protocol calls a rejected reply. */
  ghost predicate Follows(s: Transport.State, m: Bytes, answered: bool, rc: int, seqNo: nat, newEpoch: bool)
    requires |m| >= 8
  {
    if !answered then Tracks(GivenUp(s), seqNo, newEpoch)
    else forall i: nat :: i <= s.issued && SeqNo(HeaderOf(m)) == i % 0x10 ==>
           Tracks(RepliedTo(s, i), seqNo, newEpoch) && (Accepts(s, i) <==> rc != EPROTO)
  }

  ghost predicate Accepts(s: Transport.State, i: nat) {
    RepliedTo(s, i).history == s.history + [Transport.Accepted(s.issued, i)]
  }

  lemma ExchangeFollows(s: Transport.State, m: Bytes, answered: bool, rc: int, seqNo: nat, newEpoch: bool)
    requires Tracks(s, seqNo, newEpoch) && |m| >= 8
    requires answered ==> (rc == EPROTO <==> SeqNo(HeaderOf(m)) != seqNo)
    ensures Follows(s, m, answered, rc, (seqNo + 1) % 0x10, false)
  {
    GivenUpTracks(s, seqNo, newEpoch);
    forall i: nat | i <= s.issued
      ensures Tracks(RepliedTo(s, i), (seqNo + 1) % 0x10, false) && (Accepts(s, i) <==> i % 0x10 == seqNo)
    {
      RepliedTracks(s, i, seqNo, newEpoch);
      var h := RepliedTo(s, i).history;
      assert h[|s.history|] == if i % 0x10 == seqNo then Transport.Accepted(s.issued, i)
                               else Transport.Rejected(s.issued, i);
    }
  }

  /** A whole exchange from memory `m` on, the MC following `script`: what was sent, which
      poll ended the wait, what memory then held, and what the caller got. */
  ghost predicate Exchanged(m: Bytes, script: seq<Bytes>, cmd: nat, input: Bytes, seqNo: nat, newEpoch: bool,
                            buffer: Bytes, m': Bytes, polls: nat, answered: bool, rc: int, out: Bytes, used: nat)
  {
    && |m| >= MAILBOX_LEN + 4 && |input| <= PAYLOAD_MAX && |buffer| <= PAYLOAD_MAX && seqNo < 0x10
    && RequestEnd(cmd, |input|) <= |m|
    && Waited(Framed(m, cmd, input, seqNo, !newEpoch), script, answered, polls)
    && m' == Looked(Framed(m, cmd, input, seqNo, !newEpoch), script, polls)
    && (if answered then Answered(m', cmd, seqNo, buffer, rc, out, used)
        else rc == ETIMEDOUT && out == buffer && used == 0)
  }

  ghost predicate Spelled(m: Bytes, cmd: nat, input: Bytes, seqNo: nat, notEpoch: bool) {
    |input| <= PAYLOAD_MAX && |m| >= 8 + |input| && Spells(m, cmd, input, seqNo, notEpoch)
  }

  /** The same in bytes: the request as it lay there at the doorbell, and what the caller is
      told. */
  ghost predicate Observed(bell: Bytes, cmd: nat, input: Bytes, s: nat, notEpoch: bool, m: Bytes, answered: bool,
                           rc: int)
  {
    && Spelled(bell, cmd, input, s, notEpoch)
    && |m| >= MAILBOX_LEN
    && (if answered then Told(m, cmd, s, rc) else rc == 60)
  }

  lemma ExchangedObserved(m: Bytes, script: seq<Bytes>, cmd: nat, input: Bytes, seqNo: nat, newEpoch: bool,
                          buffer: Bytes, m': Bytes, polls: nat, answered: bool, rc: int, out: Bytes, used: nat)
    requires Exchanged(m, script, cmd, input, seqNo, newEpoch, buffer, m', polls, answered, rc, out, used)
    ensures Observed(Framed(m, cmd, input, seqNo, !newEpoch), cmd, input, seqNo, !newEpoch, m', answered, rc)
  {
    RequestBytes(m, cmd, input, seqNo, !newEpoch);
    if answered { AnsweredTold(m', cmd, seqNo, buffer, rc, out, used); }
  }

  predicate Fits(input: Bytes, buffer: Bytes) {
    |input| <= PAYLOAD_MAX && |buffer| <= PAYLOAD_MAX
  }

  class Mcdi {
    const mem: array<Byte>   // the mailbox, and the memory behind it
    var initialized: bool
    var seqNo: nat           // mcdi_seq
    var newEpoch: bool       // mcdi_new_epoch
    var script: seq<Bytes>   // what the MC writes before each look; nothing if not a mailbox
    ghost var bells: seq<Bytes>  // memory at each doorbell

    ghost predicate Valid()
      reads this
    {
      mem.Length >= MAILBOX_LEN + 4 && seqNo < 0x10
    }

    /** The state `sfc7120_mcdi_init` leaves. */
    constructor (mem: array<Byte>, script: seq<Bytes>)
      requires mem.Length >= MAILBOX_LEN + 4
      ensures Valid() && this.mem == mem && initialized && seqNo == 0 && newEpoch && this.script == script
    {
      this.mem, this.script, bells := mem, script, [];
      initialized, seqNo, newEpoch := true, 0, true;
    }

    method WriteDword(off: nat, v: nat)
      requires off + 4 <= mem.Length && v < 0x1_0000_0000
      modifies mem
      ensures mem[..] == Splice(old(mem[..]), off, Lanes(v))
    {
      var b := Lanes(v);
      mem[off], mem[off + 1], mem[off + 2], mem[off + 3] := b[0], b[1], b[2], b[3];
    }

    method ReadDword(off: nat) returns (v: nat)
      requires off + 4 <= mem.Length
      ensures v == Dword(mem[..][off..off + 4])
    {
      assert mem[off..off + 4] == mem[..][off..off + 4];
      v := Dword(mem[off..off + 4]);
    }

    /** Four bytes, through a dword. */
    method WriteFour(off: nat, b: Bytes)
      requires off + 4 <= mem.Length && |b| == 4
      modifies mem
      ensures mem[..] == Splice(old(mem[..]), off, b)
    {
      LanesOfDword(b);
      WriteDword(off, Dword(b));
    }

    method ReadFour(off: nat) returns (b: Bytes)
      requires off + 4 <= mem.Length
      ensures b == mem[..][off..off + 4]
    {
      var v := ReadDword(off);
      LanesOfDword(mem[..][off..off + 4]);
      b := Lanes(v);
    }

    /** `mcdi_buf_write_payload`: the bytes, then zeros to the end of the last dword. */
    method WritePayload(off: nat, src: Bytes)
      requires off + RoundUp(|src|) <= mem.Length
      modifies mem
      ensures mem[..] == Splice(old(mem[..]), off, Padded(src))
    {
      ghost var m := mem[..];
      var i := WriteWhole(off, src);
      if i < |src| {
        var tail := src[i..] + Zeros(4 - (|src| - i));
        WriteFour(off + i, tail);
        SpliceAppend(m, off, src[..i], tail);
        PaddedTail(src, i);
      } else {
        assert src[..i] == src;
        PaddedWhole(src);
      }
    }

    /** The loop over whole dwords. */
    method WriteWhole(off: nat, src: Bytes) returns (i: nat)
      requires off + |src| <= mem.Length
      modifies mem
      ensures i <= |src| < i + 4 && i % 4 == 0
      ensures mem[..] == Splice(old(mem[..]), off, src[..i])
    {
      ghost var m := mem[..];
      i := 0;
      SpliceNothing(m, off);
      while i + 4 <= |src|
        invariant 0 <= i <= |src| && i % 4 == 0
        invariant mem[..] == Splice(m, off, src[..i])
      {
        WriteFour(off + i, src[i..i + 4]);
        SpliceAppend(m, off, src[..i], src[i..i + 4]);
        SliceConcat(src, 0, i, i + 4);
        i := i + 4;
      }
    }

    /** `mcdi_buf_read_payload`. */
    method ReadPayload(off: nat, len: nat) returns (dst: Bytes)
      requires off + RoundUp(len) <= mem.Length
      ensures dst == mem[..][off..off + len]
    {
      ghost var m := mem[..];
      var i;
      i, dst := ReadWhole(off, len);
      if i < len {
        var b := ReadFour(off + i);
        dst := dst + b[..len - i];
        SliceTail(m, off + i, off + len, off + i + 4);
        SliceConcat(m, off, off + i, off + len);
      }
    }

    /** The loop over whole dwords. */
    method ReadWhole(off: nat, len: nat) returns (i: nat, dst: Bytes)
      requires off + len <= mem.Length
      ensures i <= len < i + 4 && i % 4 == 0
      ensures dst == mem[..][off..off + i]
    {
      ghost var m := mem[..];
      i, dst := 0, [];
      while i + 4 <= len
        invariant 0 <= i <= len && i % 4 == 0
        invariant dst == m[off..off + i]
      {
        var b := ReadFour(off + i);
        dst := dst + b;
        SliceConcat(m, off, off + i, off + i + 4);
        i := i + 4;
      }
    }

    /** `sfc7120_mcdi_send_locked`. */
    method SendLocked(cmd: nat, input: Bytes, s: nat) returns (payloadOff: nat)
      requires Valid() && |input| <= PAYLOAD_MAX && s < 0x10
      modifies this`bells, mem
      ensures payloadOff == PayloadOff(cmd)
      ensures RequestEnd(cmd, |input|) <= mem.Length
      ensures mem[..] == Framed(old(mem[..]), cmd, input, s, !newEpoch)
      ensures bells == old(bells) + [mem[..]]
      ensures !Response(HeaderOf(mem[..]))
    {
      RequestFitsIff(cmd, |input|);
      ghost var m := mem[..];
      if cmd >= V2_EXTN {
        var v1 := V1Header(V2_EXTN, 0, s, !newEpoch);
        var v2 := V2Header(cmd, |input|);
        WriteDword(0, v1);
        WriteDword(HEADER_LEN, v2);
        SpliceAppend(m, 0, Lanes(v1), Lanes(v2));
        payloadOff := V2_HEADER_LEN;
      } else {
        var v1 := V1Header(cmd, |input|, s, !newEpoch);
        WriteDword(0, v1);
        payloadOff := HEADER_LEN;
      }
      assert mem[..] == Splice(m, 0, Headers(cmd, |input|, s, !newEpoch));
      SpliceAppend(m, 0, Headers(cmd, |input|, s, !newEpoch), Padded(input));
      if |input| > 0 {
        WritePayload(payloadOff, input);
      } else {
        assert Padded(input) == [];
      }
      FramedParts(m, cmd, input, s, !newEpoch);
      HeadersDecode(cmd, |input|, s, !newEpoch);
      bells := bells + [mem[..]];
    }

    /** The MC may write; then the response bit is looked at. */
    method PollResponse() returns (answered: bool)
      requires Valid()
      modifies this`script, mem
      ensures script == Rest(old(script), 1)
      ensures mem[..] == if old(script) == [] then old(mem[..]) else Rewritten(old(mem[..]), old(script)[0])
      ensures answered == Response(HeaderOf(mem[..]))
    {
      ghost var m := mem[..];
      if script != [] {
        var box := script[0];
        script := script[1..];
        if |box| == MAILBOX_LEN {
          forall i | 0 <= i < MAILBOX_LEN {
            mem[i] := box[i];
          }
          assert mem[..] == box + m[MAILBOX_LEN..];
        }
      }
      var header := ReadDword(0);
      assert mem[..][0..4] == mem[..][..4];
      answered := Response(header);
    }

    /** The wait: polls with exponential backoff until the response bit shows, or for
        exactly 113 delays adding up to 10,063,830 us. */
    method AwaitResponse() returns (answered: bool, totalUs: nat, ghost polls: nat)
      requires Valid()
      modifies this`script, mem
      ensures Waited(old(mem[..]), old(script), answered, polls)
      ensures mem[..] == Looked(old(mem[..]), old(script), polls) && script == Rest(old(script), polls + 1)
      ensures totalUs == Backoff.Total(polls) < Backoff.TIMEOUT_US + Backoff.MAX_US
      ensures !answered ==> totalUs == 10063830
    {
      ghost var m, writes := mem[..], script;
      var delayUs := Backoff.MIN_US;
      totalUs, polls := 0, 0;
      answered := PollResponse();
      while !answered
        invariant answered == Responds(m, writes, polls)
        invariant mem[..] == Looked(m, writes, polls) && script == Rest(writes, polls + 1)
        invariant totalUs == Backoff.Total(polls) < Backoff.TIMEOUT_US + Backoff.MAX_US
        invariant delayUs == Backoff.Interval(polls)
        invariant forall j :: 0 <= j < polls ==> !Responds(m, writes, j) && Backoff.Before(Backoff.TIMEOUT_US, j)
        decreases Backoff.TIMEOUT_US + Backoff.MAX_US - totalUs
      {
        if totalUs >= Backoff.TIMEOUT_US {
          Backoff.TenSeconds(polls);
          return;
        }
        totalUs := totalUs + delayUs;
        delayUs := delayUs * 2;
        if delayUs > Backoff.MAX_US {
          delayUs := Backoff.MAX_US;
        }
        polls := polls + 1;
        answered := PollResponse();
      }
    }

    /** The half of `sfc7120_mcdi_exec` after the wait. */
    method TakeReply(payloadOff: nat, s: nat, buffer: Bytes) returns (rc: int, out: Bytes, used: nat)
      requires Valid() && (payloadOff == HEADER_LEN || payloadOff == V2_HEADER_LEN) && |buffer| <= PAYLOAD_MAX
      ensures rc == ReplyRc(mem[..], payloadOff, s)
      ensures SeqNo(HeaderOf(mem[..])) == s && !Error(HeaderOf(mem[..])) ==>
                out == Delivered(mem[..], payloadOff, |buffer|) && Handed(mem[..], payloadOff, |buffer|, out, used)
      ensures SeqNo(HeaderOf(mem[..])) != s || Error(HeaderOf(mem[..])) ==> out == buffer && used == 0
    {
      out, used := buffer, 0;
      var header := ReadDword(0);
      assert mem[..][0..4] == mem[..][..4];
      var respLen;
      if payloadOff == V2_HEADER_LEN {
        var v2 := ReadDword(HEADER_LEN);
        respLen := ExtLen(v2);
      } else {
        respLen := DataLen(header);
      }
      if SeqNo(header) != s {
        return EPROTO, buffer, 0;
      }
      if Error(header) {
        var mcErr := 0;
        if respLen >= 4 {
          mcErr := ReadDword(payloadOff);
        }
        return XlateErr(mcErr), buffer, 0;
      }
      DeliveredIsHanded(mem[..], payloadOff, |buffer|);
      if |buffer| > 0 {
        var copy := if respLen < |buffer| then respLen else |buffer|;
        out := [];
        if copy > 0 {
          out := ReadPayload(payloadOff, copy);
        }
        if copy < |buffer| {
          out := out + Zeros(|buffer| - copy);
        }
        used := copy;
      }
      rc := 0;
    }

    /** One exchange: send, wait, take the reply. */
    method Exchange(cmd: nat, input: Bytes, s: nat, buffer: Bytes)
      returns (rc: int, out: Bytes, used: nat, answered: bool, ghost polls: nat)
      requires Valid() && |input| <= PAYLOAD_MAX && |buffer| <= PAYLOAD_MAX && s < 0x10
      modifies this`script, this`bells, mem
      ensures Exchanged(old(mem[..]), old(script), cmd, input, s, newEpoch, buffer,
                        mem[..], polls, answered, rc, out, used)
      ensures RequestEnd(cmd, |input|) <= mem.Length
      ensures bells == old(bells) + [Framed(old(mem[..]), cmd, input, s, !newEpoch)]
      ensures script == Rest(old(script), polls + 1)
      ensures answered ==> (rc == EPROTO <==> SeqNo(HeaderOf(mem[..])) != s)
    {
      var payloadOff := SendLocked(cmd, input, s);
      var totalUs;
      answered, totalUs, polls := AwaitResponse();
      if answered {
        rc, out, used := TakeReply(payloadOff, s, buffer);
        ProtocolErrorIff(mem[..], payloadOff, s);
      } else {
        rc, out, used := ETIMEDOUT, buffer, 0;
      }
    }

    /** The part of `sfc7120_mcdi_exec` under the lock: the exchange, then the next number
        and epoch. */
    method Attempt(cmd: nat, input: Bytes, buffer: Bytes, ghost s: Transport.State)
      returns (rc: int, out: Bytes, used: nat, answered: bool, ghost polls: nat)
      requires Valid() && |input| <= PAYLOAD_MAX && |buffer| <= PAYLOAD_MAX
      modifies this`seqNo, this`newEpoch, this`script, this`bells, mem
      ensures Valid() && seqNo == (old(seqNo) + 1) % 0x10 && !newEpoch
      ensures Exchanged(old(mem[..]), old(script), cmd, input, old(seqNo), old(newEpoch), buffer,
                        mem[..], polls, answered, rc, out, used)
      ensures RequestEnd(cmd, |input|) <= mem.Length
      ensures bells == old(bells) + [Framed(old(mem[..]), cmd, input, old(seqNo), !old(newEpoch))]
      ensures script == Rest(old(script), polls + 1)
      ensures old(Tracks(s, seqNo, newEpoch)) ==> Follows(s, mem[..], answered, rc, seqNo, newEpoch)
    {
      var n := seqNo % 0x10;
      assert n == seqNo;
      rc, out, used, answered, polls := Exchange(cmd, input, n, buffer);
      if Tracks(s, seqNo, newEpoch) { ExchangeFollows(s, mem[..], answered, rc, seqNo, newEpoch); }
      newEpoch := false;
      seqNo := (seqNo + 1) % 0x10;
    }

    /** `sfc7120_mcdi_exec`. Refused calls change nothing, send nothing and look at nothing.
        Every other one rings the doorbell once, on the framed request; ends with the first
        poll that shows the response bit, or when the backoff gives up; uses up one sequence
        number and ends the epoch's opening. Memory behind the mailbox changes only if the
        request does not fit. Against any state `s` of the protocol that the driver is in,
        the call is a send followed by a timeout, or by a reply and a poll. */
    method Exec(cmd: nat, input: Bytes, buffer: Bytes, ghost s: Transport.State)
      returns (rc: int, out: Bytes, used: nat, answered: bool, ghost polls: nat)
      requires Valid()
      modifies this`seqNo, this`newEpoch, this`script, this`bells, mem
      ensures Valid()
      ensures !initialized ==> rc == ENXIO
      ensures initialized && !Fits(input, buffer) ==> rc == EINVAL
      ensures !initialized || !Fits(input, buffer) ==>
                && seqNo == old(seqNo) && newEpoch == old(newEpoch) && mem[..] == old(mem[..]) && out == buffer
                && bells == old(bells) && script == old(script)
      ensures initialized && Fits(input, buffer) ==>
                && |bells| == |old(bells)| + 1
                && Observed(bells[|old(bells)|], cmd, input, old(seqNo), !old(newEpoch), mem[..], answered, rc)
      ensures initialized && Fits(input, buffer) ==>
                && seqNo == (old(seqNo) + 1) % 0x10 && !newEpoch
                && Exchanged(old(mem[..]), old(script), cmd, input, old(seqNo), old(newEpoch), buffer,
                             mem[..], polls, answered, rc, out, used)
                && RequestEnd(cmd, |input|) <= mem.Length
                && bells == old(bells) + [Framed(old(mem[..]), cmd, input, old(seqNo), !old(newEpoch))]
                && script == Rest(old(script), polls + 1)
                && (!IsV2(cmd) || |input| <= MAILBOX_LEN - V2_HEADER_LEN ==>
                      mem[..][MAILBOX_LEN..] == old(mem[..])[MAILBOX_LEN..])
                && (old(Tracks(s, seqNo, newEpoch)) ==> Follows(s, mem[..], answered, rc, seqNo, newEpoch))
    {
      out, used, answered, polls := buffer, 0, false, 0;
      if !initialized {
        return ENXIO, out, used, answered, polls;
      }
      if |input| > PAYLOAD_MAX || |buffer| > PAYLOAD_MAX {
        return EINVAL, out, used, answered, polls;
      }
      FramedOutside(mem[..], cmd, input, seqNo, !newEpoch);
      rc, out, used, answered, polls := Attempt(cmd, input, buffer, s);
      ExchangedObserved(old(mem[..]), old(script), cmd, input, old(seqNo), old(newEpoch), buffer,
                        mem[..], polls, answered, rc, out, used);
    }

    /** `sfc7120_mcdi_reboot_after_assertion`; `alive` is what reading the revision register
        finds, and `first` what the exchange of the reboot request returned. If it was
        acknowledged or refused for lack of privilege the epoch is left alone. A timeout or
        an I/O error is taken for a reboot: once the register is back, within 5000 reads, a
        new epoch is open, and the protocol is where a reboot puts it, whatever the state
        before; otherwise, and for every other error, the caller is told. */
    method RebootAfterAssertion(alive: nat -> bool, ghost s: Transport.State)
      returns (rc: int, ghost first: int, ghost answered: bool, ghost polls: nat)
      requires Valid()
      modifies this`seqNo, this`newEpoch, this`script, this`bells, mem
      ensures Valid()
      ensures !initialized ==> rc == ENXIO && seqNo == old(seqNo) && newEpoch == old(newEpoch) && bells == old(bells)
      ensures initialized ==>
                && Exchanged(old(mem[..]), old(script), MC_CMD_REBOOT, Lanes(REBOOT_AFTER_ASSERTION), old(seqNo),
                             old(newEpoch), [], mem[..], polls, answered, first, [], 0)
                && RequestEnd(MC_CMD_REBOOT, 4) <= mem.Length
                && bells == old(bells) + [Framed(old(mem[..]), MC_CMD_REBOOT, Lanes(REBOOT_AFTER_ASSERTION),
                                                 old(seqNo), !old(newEpoch))]
                && first == if answered then ReplyRc(mem[..], HEADER_LEN, old(seqNo)) else ETIMEDOUT
      ensures initialized ==>
                && |bells| == |old(bells)| + 1
                && Spelled(bells[|old(bells)|], 0x3d, [1, 0, 0, 0], old(seqNo), !old(newEpoch))
                && (newEpoch <==> LooksRebooted(mem[..], old(seqNo), answered) && BackWithin(alive))
                && (answered && Refuses(mem[..], 0x3d, old(seqNo), 13) ==>
                      rc == 0 && !newEpoch && seqNo == (old(seqNo) + 1) % 0x10)
      ensures initialized && (first == ETIMEDOUT || first == EIO) && BackWithin(alive) ==>
                && rc == 0 && seqNo == 0 && newEpoch
                && forall u: Transport.State :: !u.waiting ==>
                     Tracks(Transport.Next(u, Transport.Reboot), seqNo, newEpoch)
      ensures initialized && !((first == ETIMEDOUT || first == EIO) && BackWithin(alive)) ==>
                && !newEpoch && seqNo == (old(seqNo) + 1) % 0x10
                && (old(Tracks(s, seqNo, newEpoch)) ==> Follows(s, mem[..], answered, first, seqNo, newEpoch))
                && rc == (if first == 0 || first == EACCES then 0 else if first == ETIMEDOUT then EIO else first)
    {
      var flags := Lanes(REBOOT_AFTER_ASSERTION);
      assert flags == [1, 0, 0, 0];
      ghost var n := seqNo;
      var out, used, shown;
      rc, out, used, shown, polls := Exec(MC_CMD_REBOOT, flags, [], s);
      first, answered := rc, shown;
      assert initialized ==> out == [] && used == 0;
      if initialized { LooksRebootedIff(mem[..], n, shown, rc); }
      if rc == 0 || rc == EACCES {
        return 0, first, answered, polls;
      }
      if rc != ETIMEDOUT && rc != EIO {
        return rc, first, answered, polls;
      }
      var back := AwaitRevival(alive);
      if !back {
        return EIO, first, answered, polls;
      }
      newEpoch, seqNo := true, 0;
      rc := 0;
    }

    /** The wait for the revision register: 5000 reads at most. */
    method AwaitRevival(alive: nat -> bool) returns (back: bool)
      ensures back <==> BackWithin(alive)
    {
      var waited := 0;
      back := false;
      while waited < REVIVAL_READS && !back
        invariant waited <= REVIVAL_READS
        invariant !back ==> forall i: nat :: i < waited ==> !alive(i)
        invariant back ==> BackWithin(alive)
      {
        back := alive(waited);
        waited := waited + 1;
      }
    }

    lemma FramedOutside(m: Bytes, cmd: nat, input: Bytes, s: nat, notEpoch: bool)
      requires |m| >= MAILBOX_LEN + 4 && |input| <= PAYLOAD_MAX && s < 0x10
      ensures RequestEnd(cmd, |input|) <= |m|
      ensures !IsV2(cmd) || |input| <= MAILBOX_LEN - V2_HEADER_LEN ==>
                Framed(m, cmd, input, s, notEpoch)[MAILBOX_LEN..] == m[MAILBOX_LEN..]
    {
      RequestFitsIff(cmd, |input|);
      if RequestEnd(cmd, |input|) <= MAILBOX_LEN {
        forall i | MAILBOX_LEN <= i < |m|
          ensures Framed(m, cmd, input, s, notEpoch)[i] == m[i]
        {
          FramedFrame(m, cmd, input, s, notEpoch, i);
        }
      }
    }
  }
}
