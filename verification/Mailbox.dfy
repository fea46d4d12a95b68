/** The MCDI mailbox: 256 bytes of DMA memory, accessed by little-endian dwords. The memory
    behind it is modelled too, so that an access past the mailbox has somewhere to go. */
module Mailbox {
  import opened Rings
  import opened Options

  type Bytes = seq<Byte>

  const MAILBOX_LEN: nat := 256
  const HEADER_LEN: nat := 4
  const V2_HEADER_LEN: nat := 8
  const PAYLOAD_MAX: nat := 0xfc
  const V2_EXTN: nat := 0x7f

  // ------------------------------------------------------------------ dwords

  function Dword(b: Bytes): (v: nat)
    requires |b| == 4
    ensures v < 0x1_0000_0000
  {
    b[0] as nat + 0x100 * (b[1] as nat + 0x100 * (b[2] as nat + 0x100 * (b[3] as nat)))
  }

  function Lanes(v: nat): (b: Bytes)
    requires v < 0x1_0000_0000
    ensures |b| == 4
  {
    [v % 0x100, v / 0x100 % 0x100, v / 0x100 / 0x100 % 0x100, v / 0x100 / 0x100 / 0x100]
  }

  lemma DwordOfLanes(v: nat)
    requires v < 0x1_0000_0000
    ensures Dword(Lanes(v)) == v
  {
  }

  lemma Peel(lane: nat, rest: nat)
    requires lane < 0x100
    ensures (lane + 0x100 * rest) % 0x100 == lane && (lane + 0x100 * rest) / 0x100 == rest
  {
  }

  lemma LanesOfDword(b: Bytes)
    requires |b| == 4
    ensures Lanes(Dword(b)) == b
  {
    var top: nat := b[3];
    Peel(b[2], top);
    Peel(b[1], b[2] as nat + 0x100 * top);
    Peel(b[0], b[1] as nat + 0x100 * (b[2] as nat + 0x100 * top));
  }

  function RoundUp(len: nat): (r: nat)
    ensures len <= r < len + 4 && r % 4 == 0
  {
    (len + 3) / 4 * 4
  }

  // ------------------------------------------------------------------ headers

  function Code(h: nat): nat { h % 0x80 }
  function DataLen(h: nat): nat { h / 0x100 % 0x100 }
  function SeqNo(h: nat): nat { h / 0x1_0000 % 0x10 }
  function NotEpoch(h: nat): bool { h / 0x20_0000 % 2 == 1 }
  function Error(h: nat): bool { h / 0x40_0000 % 2 == 1 }
  function Response(h: nat): bool { h / 0x80_0000 % 2 == 1 }

  function ExtCmd(x: nat): nat { x % 0x8000 }
  function ExtLen(x: nat): nat { x / 0x1_0000 % 0x400 }

  function V1Header(code: nat, len: nat, seqNo: nat, notEpoch: bool): (h: nat)
    requires code < 0x80 && len < 0x100 && seqNo < 0x10
    ensures h < 0x1_0000_0000
    ensures Code(h) == code && DataLen(h) == len && SeqNo(h) == seqNo && NotEpoch(h) == notEpoch
    ensures !Error(h) && !Response(h)
  {
    var e := if notEpoch then 1 else 0;
    var h := code + len * 0x100 + seqNo * 0x1_0000 + e * 0x20_0000;
    assert h / 0x100 == len + seqNo * 0x100 + e * 0x2000;
    assert h / 0x1_0000 == seqNo + e * 0x20;
    assert h / 0x20_0000 == e && h / 0x40_0000 == 0 && h / 0x80_0000 == 0;
    h
  }

  function V2Header(cmd: nat, len: nat): (x: nat)
    ensures x < 0x1_0000_0000
    ensures ExtCmd(x) == cmd % 0x8000 && ExtLen(x) == len % 0x400
  {
    cmd % 0x8000 + (len % 0x400) * 0x1_0000
  }

  // ------------------------------------------------------------------ framing

  /** Replace the bytes from `off` on by `b`. */
  function Splice(m: Bytes, off: nat, b: Bytes): (r: Bytes)
    requires off + |b| <= |m|
    ensures |r| == |m|
  {
    m[..off] + b + m[off + |b|..]
  }

  lemma SpliceAppend(m: Bytes, off: nat, a: Bytes, b: Bytes)
    requires off + |a| + |b| <= |m|
    ensures Splice(Splice(m, off, a), off + |a|, b) == Splice(m, off, a + b)
  {
  }

  lemma SpliceNothing(m: Bytes, off: nat)
    requires off <= |m|
    ensures Splice(m, off, []) == m
  {
  }

  lemma TakeSlice(s: Bytes, n: nat, a: nat, b: nat)
    requires a <= b <= n <= |s|
    ensures s[..n][a..b] == s[a..b]
  {
  }

  lemma SliceConcat(s: Bytes, a: nat, b: nat, c: nat)
    requires a <= b <= c <= |s|
    ensures s[a..b] + s[b..c] == s[a..c]
  {
  }

  function Zeros(n: nat): Bytes {
    seq(n, i => 0)
  }

  /** A payload as it lies in the mailbox: whole dwords, the last one padded with zeros. */
  function Padded(b: Bytes): (p: Bytes)
    ensures |p| == RoundUp(|b|)
  {
    b + Zeros(RoundUp(|b|) - |b|)
  }

  /** Whole dwords up to `i`, then a last one filled up with zeros. */
  lemma PaddedTail(b: Bytes, i: nat)
    requires i < |b| < i + 4 && i % 4 == 0
    ensures b[..i] + (b[i..] + Zeros(4 - (|b| - i))) == Padded(b)
  {
    assert RoundUp(|b|) == i + 4;
    assert b[..i] + b[i..] == b;
  }

  lemma PaddedWhole(b: Bytes)
    requires |b| % 4 == 0
    ensures Padded(b) == b
  {
  }

  /** The first bytes of a dword. */
  lemma SliceTail(s: Bytes, a: nat, b: nat, c: nat)
    requires a <= b <= c <= |s|
    ensures s[a..c][..b - a] == s[a..b]
  {
  }

  predicate IsV2(cmd: nat) {
    cmd >= V2_EXTN
  }

  function PayloadOff(cmd: nat): nat {
    if IsV2(cmd) then V2_HEADER_LEN else HEADER_LEN
  }

  /** The headers of a request. */
  function Headers(cmd: nat, len: nat, seqNo: nat, notEpoch: bool): (b: Bytes)
    requires len <= PAYLOAD_MAX && seqNo < 0x10
    ensures |b| == PayloadOff(cmd)
  {
    if IsV2(cmd) then Lanes(V1Header(V2_EXTN, 0, seqNo, notEpoch)) + Lanes(V2Header(cmd, len))
    else Lanes(V1Header(cmd, len, seqNo, notEpoch))
  }

  /** The end of what a request touches. */
  function RequestEnd(cmd: nat, len: nat): nat {
    PayloadOff(cmd) + RoundUp(len)
  }

  /** Memory after a request has been built in it. */
  function Framed(m: Bytes, cmd: nat, input: Bytes, seqNo: nat, notEpoch: bool): (r: Bytes)
    requires |input| <= PAYLOAD_MAX && seqNo < 0x10 && RequestEnd(cmd, |input|) <= |m|
    ensures |r| == |m|
  {
    Splice(m, 0, Headers(cmd, |input|, seqNo, notEpoch) + Padded(input))
  }

  datatype Request = Request(cmd: nat, seqNo: nat, notEpoch: bool, payload: Bytes)

  /** The management controller's reading of a mailbox. */
  function DecodeRequest(box: Bytes): Option<Request>
    requires |box| == MAILBOX_LEN
  {
    Interpret(Dword(box[..4]), Dword(box[4..8]), box)
  }

  /** ... given its first two dwords. */
  function Interpret(h: nat, x: nat, box: Bytes): Option<Request>
    requires |box| == MAILBOX_LEN
  {
    var v2 := Code(h) == V2_EXTN;
    var off := if v2 then V2_HEADER_LEN else HEADER_LEN;
    var len := if v2 then ExtLen(x) else DataLen(h);
    if Response(h) || off + len > MAILBOX_LEN then None
    else Some(Request(if v2 then ExtCmd(x) else Code(h), SeqNo(h), NotEpoch(h), box[off..off + len]))
  }

  /** The driver's 252-byte guard keeps a request inside the mailbox for v1 framing; for v2,
      whose payload starts at 8, exactly up to 248 bytes. */
  lemma RequestFitsIff(cmd: nat, len: nat)
    requires len <= PAYLOAD_MAX
    ensures RequestEnd(cmd, len) <= MAILBOX_LEN <==> !IsV2(cmd) || len <= MAILBOX_LEN - V2_HEADER_LEN
    ensures RequestEnd(cmd, len) <= MAILBOX_LEN + 4
  {
  }

  /** Only the request's own dwords change, and the padding is zero. */
  lemma FramedFrame(m: Bytes, cmd: nat, input: Bytes, seqNo: nat, notEpoch: bool, i: nat)
    requires |input| <= PAYLOAD_MAX && seqNo < 0x10 && RequestEnd(cmd, |input|) <= |m| && i < |m|
    ensures RequestEnd(cmd, |input|) <= i ==> Framed(m, cmd, input, seqNo, notEpoch)[i] == m[i]
    ensures PayloadOff(cmd) + |input| <= i < RequestEnd(cmd, |input|) ==>
              Framed(m, cmd, input, seqNo, notEpoch)[i] == 0
  {
  }

  lemma HeadersDecode(cmd: nat, len: nat, seqNo: nat, notEpoch: bool)
    requires len <= PAYLOAD_MAX && seqNo < 0x10
    ensures var hs := Headers(cmd, len, seqNo, notEpoch);
            && Dword(hs[..4]) == (if IsV2(cmd) then V1Header(V2_EXTN, 0, seqNo, notEpoch)
                                  else V1Header(cmd, len, seqNo, notEpoch))
            && (IsV2(cmd) ==> Dword(hs[4..8]) == V2Header(cmd, len))
  {
    var hs := Headers(cmd, len, seqNo, notEpoch);
    if IsV2(cmd) {
      DwordOfLanes(V1Header(V2_EXTN, 0, seqNo, notEpoch));
      DwordOfLanes(V2Header(cmd, len));
      assert hs[..4] == Lanes(V1Header(V2_EXTN, 0, seqNo, notEpoch));
      assert hs[4..8] == Lanes(V2Header(cmd, len));
    } else {
      DwordOfLanes(V1Header(cmd, len, seqNo, notEpoch));
      assert hs[..4] == hs;
    }
  }

  lemma ConcatParts(a: Bytes, b: Bytes, c: Bytes, n: nat)
    requires n <= |b|
    ensures (a + b + c)[..|a|] == a && (a + b + c)[|a|..|a| + n] == b[..n]
  {
  }

  lemma PaddedStarts(b: Bytes)
    ensures Padded(b)[..|b|] == b
  {
  }

  /** The pieces of a framed mailbox. */
  lemma FramedParts(m: Bytes, cmd: nat, input: Bytes, seqNo: nat, notEpoch: bool)
    requires |input| <= PAYLOAD_MAX && seqNo < 0x10 && RequestEnd(cmd, |input|) <= |m| && |m| >= MAILBOX_LEN
    ensures var r := Framed(m, cmd, input, seqNo, notEpoch);
            var hs, off := Headers(cmd, |input|, seqNo, notEpoch), PayloadOff(cmd);
            && r[..4] == hs[..4] && (IsV2(cmd) ==> r[4..8] == hs[4..8])
            && r[off..off + |input|] == input
  {
    PiecesOf(m, Headers(cmd, |input|, seqNo, notEpoch), input);
  }

  lemma PiecesOf(m: Bytes, hs: Bytes, input: Bytes)
    requires |hs| >= 4 && |hs| + RoundUp(|input|) <= |m|
    ensures var r := Splice(m, 0, hs + Padded(input));
            && r[..4] == hs[..4] && (|hs| >= 8 ==> r[4..8] == hs[4..8])
            && r[|hs|..|hs| + |input|] == input
  {
    var pad := Padded(input);
    var rest := m[|hs| + |pad|..];
    var r := Splice(m, 0, hs + pad);
    assert r == hs + pad + rest;
    ConcatParts(hs, pad, rest, |input|);
    PaddedStarts(input);
    TakeSlice(r, |hs|, 0, 4);
    if |hs| >= 8 { TakeSlice(r, |hs|, 4, 8); }
    assert r[..4] == r[0..4] && hs[..4] == hs[0..4];
  }

  lemma InterpretV1(h: nat, x: nat, box: Bytes, cmd: nat, len: nat, seqNo: nat, notEpoch: bool)
    requires |box| == MAILBOX_LEN && cmd < V2_EXTN && HEADER_LEN + len <= MAILBOX_LEN && seqNo < 0x10 && len < 0x100
    requires h == V1Header(cmd, len, seqNo, notEpoch)
    ensures Interpret(h, x, box) == Some(Request(cmd, seqNo, notEpoch, box[HEADER_LEN..HEADER_LEN + len]))
  {
  }

  lemma InterpretV2(h: nat, x: nat, box: Bytes, cmd: nat, len: nat, seqNo: nat, notEpoch: bool)
    requires |box| == MAILBOX_LEN && seqNo < 0x10 && len < 0x400
    requires h == V1Header(V2_EXTN, 0, seqNo, notEpoch) && x == V2Header(cmd, len)
    ensures Interpret(h, x, box)
            == if V2_HEADER_LEN + len > MAILBOX_LEN then None
               else Some(Request(cmd % 0x8000, seqNo, notEpoch, box[V2_HEADER_LEN..V2_HEADER_LEN + len]))
  {
  }

  /** What the MC decodes, framing by framing. */
  lemma DecodesTo(m: Bytes, cmd: nat, input: Bytes, seqNo: nat, notEpoch: bool)
    requires |input| <= PAYLOAD_MAX && seqNo < 0x10 && |m| >= MAILBOX_LEN + 4
    ensures RequestEnd(cmd, |input|) <= |m|
    ensures DecodeRequest(Framed(m, cmd, input, seqNo, notEpoch)[..MAILBOX_LEN])
            == if PayloadOff(cmd) + |input| > MAILBOX_LEN then None
               else Some(Request(if IsV2(cmd) then cmd % 0x8000 else cmd, seqNo, notEpoch, input))
  {
    RequestFitsIff(cmd, |input|);
    FramedParts(m, cmd, input, seqNo, notEpoch);
    HeadersDecode(cmd, |input|, seqNo, notEpoch);
    var r := Framed(m, cmd, input, seqNo, notEpoch);
    var box := r[..MAILBOX_LEN];
    var off := PayloadOff(cmd);
    TakeSlice(r, MAILBOX_LEN, 0, 4);
    TakeSlice(r, MAILBOX_LEN, 4, 8);
    assert box[..4] == box[0..4] && r[..4] == r[0..4];
    if off + |input| <= MAILBOX_LEN {
      TakeSlice(r, MAILBOX_LEN, off, off + |input|);
    }
    if IsV2(cmd) {
      InterpretV2(Dword(box[..4]), Dword(box[4..8]), box, cmd, |input|, seqNo, notEpoch);
    } else {
      InterpretV1(Dword(box[..4]), Dword(box[4..8]), box, cmd, |input|, seqNo, notEpoch);
    }
  }

  /** Framing round trip: what the MC decodes is what was sent, for every command,
      sequence number, epoch flag and payload of any length, exactly when the command fits
      15 bits and the payload fits the mailbox. */
  lemma FramingRoundTripIff(m: Bytes, cmd: nat, input: Bytes, seqNo: nat, notEpoch: bool)
    requires |input| <= PAYLOAD_MAX && seqNo < 0x10 && |m| >= MAILBOX_LEN + 4
    ensures RequestEnd(cmd, |input|) <= |m|
    ensures DecodeRequest(Framed(m, cmd, input, seqNo, notEpoch)[..MAILBOX_LEN])
              == Some(Request(cmd, seqNo, notEpoch, input))
            <==> cmd < 0x8000 && RequestEnd(cmd, |input|) <= MAILBOX_LEN
  {
    DecodesTo(m, cmd, input, seqNo, notEpoch);
    SameRequestIff(DecodeRequest(Framed(m, cmd, input, seqNo, notEpoch)[..MAILBOX_LEN]), cmd, input, seqNo, notEpoch);
  }

  lemma SameRequestIff(got: Option<Request>, cmd: nat, input: Bytes, seqNo: nat, notEpoch: bool)
    requires |input| <= PAYLOAD_MAX
    requires got == if PayloadOff(cmd) + |input| > MAILBOX_LEN then None
                    else Some(Request(if IsV2(cmd) then cmd % 0x8000 else cmd, seqNo, notEpoch, input))
    ensures got == Some(Request(cmd, seqNo, notEpoch, input))
            <==> cmd < 0x8000 && RequestEnd(cmd, |input|) <= MAILBOX_LEN
  {
    RequestFitsIff(cmd, |input|);
  }

  // ------------------------------------------------------------------ byte by byte

  /** The fields of a reply, by the bytes they lie in. */
  lemma ReplyBytes(m: Bytes)
    requires |m| >= 8
    ensures var h, code: nat, len: nat, flags: nat := Dword(m[..4]), m[0], m[1], m[2];
            && Code(h) == code % 0x80 && DataLen(h) == len && SeqNo(h) == flags % 0x10
            && (NotEpoch(h) <==> flags / 0x20 % 2 == 1) && (Error(h) <==> flags / 0x40 % 2 == 1)
            && (Response(h) <==> flags >= 0x80)
    ensures var x, c0: nat, c1: nat, l0: nat, l1: nat := Dword(m[4..8]), m[4], m[5], m[6], m[7];
            && ExtCmd(x) == c0 + 0x100 * (c1 % 0x80)
            && ExtLen(x) == l0 + 0x100 * (l1 % 4)
  {
    FirstDword(m[0], m[1], m[2], m[3]);
    SecondDword(m[4], m[5], m[6], m[7]);
  }

  /** A dword, by its halves. */
  lemma Halves(b0: nat, b1: nat, upper: nat)
    requires b0 < 0x100 && b1 < 0x100
    ensures var h := b0 + 0x100 * (b1 + 0x100 * upper);
            h % 0x100 == b0 && h / 0x100 % 0x100 == b1 && h / 0x1_0000 == upper
  {
    Peel(b0, b1 + 0x100 * upper);
    Peel(b1, upper);
  }

  /** The bits of the upper half that lie in its first byte. */
  lemma FlagBits(h: nat, flags: nat, top: nat)
    requires flags < 0x100 && h / 0x1_0000 == flags + 0x100 * top
    ensures h / 0x1_0000 % 0x10 == flags % 0x10 && h / 0x20_0000 % 2 == flags / 0x20 % 2
    ensures h / 0x40_0000 % 2 == flags / 0x40 % 2 && h / 0x80_0000 % 2 == flags / 0x80
  {
    Bit4(flags, top);
    Bit21(h, flags, top);
    Bit22(h, flags, top);
    Bit23(h, flags, top);
  }

  lemma Bit4(flags: nat, top: nat)
    requires flags < 0x100
    ensures (flags + 0x100 * top) % 0x10 == flags % 0x10
  {
    Low4(flags % 0x10, flags / 0x10 + 0x10 * top);
  }

  lemma Low4(low: nat, n: nat)
    requires low < 0x10
    ensures (low + 0x10 * n) % 0x10 == low
  {
  }

  lemma Parity(q: nat, t: nat)
    ensures (q + 2 * t) % 2 == q % 2
  {
  }

  lemma Bit21(h: nat, flags: nat, top: nat)
    requires flags < 0x100 && h / 0x1_0000 == flags + 0x100 * top
    ensures h / 0x20_0000 % 2 == flags / 0x20 % 2
  {
    var q, r := flags / 0x20, flags % 0x20;
    var rest := h % 0x1_0000 + 0x1_0000 * r;
    assert flags == 0x20 * q + r;
    assert h == h % 0x1_0000 + 0x1_0000 * (0x20 * q + r + 0x100 * top);
    Above21(rest, q + 8 * top);
    Parity(q, 4 * top);
  }

  lemma Above21(rest: nat, n: nat)
    requires rest < 0x20_0000
    ensures (rest + 0x20_0000 * n) / 0x20_0000 == n
  {
  }

  lemma Bit22(h: nat, flags: nat, top: nat)
    requires flags < 0x100 && h / 0x1_0000 == flags + 0x100 * top
    ensures h / 0x40_0000 % 2 == flags / 0x40 % 2
  {
    var q, r := flags / 0x40, flags % 0x40;
    var rest := h % 0x1_0000 + 0x1_0000 * r;
    assert flags == 0x40 * q + r;
    assert h == h % 0x1_0000 + 0x1_0000 * (0x40 * q + r + 0x100 * top);
    Above22(rest, q + 4 * top);
    Parity(q, 2 * top);
  }

  lemma Above22(rest: nat, n: nat)
    requires rest < 0x40_0000
    ensures (rest + 0x40_0000 * n) / 0x40_0000 == n
  {
  }

  lemma Bit23(h: nat, flags: nat, top: nat)
    requires flags < 0x100 && h / 0x1_0000 == flags + 0x100 * top
    ensures h / 0x80_0000 % 2 == flags / 0x80
  {
    var rest := h % 0x1_0000 + 0x1_0000 * (flags % 0x80);
    assert h == rest + 0x80_0000 * (flags / 0x80 + 0x2 * top) && rest < 0x80_0000;
    assert h / 0x80_0000 == flags / 0x80 + 0x2 * top;
  }

  lemma Cut15(x: nat, b0: nat, b1: nat, upper: nat)
    requires b0 < 0x100 && b1 < 0x100 && x == b0 + 0x100 * (b1 + 0x100 * upper)
    ensures x % 0x8000 == b0 + 0x100 * (b1 % 0x80)
  {
    var low := b0 + 0x100 * (b1 % 0x80);
    assert x == low + 0x8000 * (b1 / 0x80 + 2 * upper) && low < 0x8000;
  }

  lemma Cut10(b2: nat, b3: nat)
    requires b2 < 0x100
    ensures (b2 + 0x100 * b3) % 0x400 == b2 + 0x100 * (b3 % 4)
  {
    var low := b2 + 0x100 * (b3 % 4);
    assert b2 + 0x100 * b3 == low + 0x400 * (b3 / 4) && low < 0x400;
  }

  lemma FirstDword(b0: nat, b1: nat, b2: nat, b3: nat)
    requires b0 < 0x100 && b1 < 0x100 && b2 < 0x100 && b3 < 0x100
    ensures var h := Dword([b0, b1, b2, b3]);
            && Code(h) == b0 % 0x80 && DataLen(h) == b1 && SeqNo(h) == b2 % 0x10
            && (NotEpoch(h) <==> b2 / 0x20 % 2 == 1) && (Error(h) <==> b2 / 0x40 % 2 == 1)
            && (Response(h) <==> b2 >= 0x80)
  {
    Halves(b0, b1, b2 + 0x100 * b3);
    FlagBits(Dword([b0, b1, b2, b3]), b2, b3);
  }

  lemma SecondDword(b0: nat, b1: nat, b2: nat, b3: nat)
    requires b0 < 0x100 && b1 < 0x100 && b2 < 0x100 && b3 < 0x100
    ensures var x := Dword([b0, b1, b2, b3]);
            ExtCmd(x) == b0 + 0x100 * (b1 % 0x80) && ExtLen(x) == b2 + 0x100 * (b3 % 4)
  {
    Halves(b0, b1, b2 + 0x100 * b3);
    Cut15(Dword([b0, b1, b2, b3]), b0, b1, b2 + 0x100 * b3);
    Cut10(b2, b3);
  }

  /** The bytes a request consists of: command, length, sequence number with the epoch bit,
      zero; from command 0x7f on that command itself, no length, and after it the real
      command and length. */
  ghost predicate Spells(m: Bytes, cmd: nat, input: Bytes, seqNo: nat, notEpoch: bool)
    requires |input| <= PAYLOAD_MAX && |m| >= 8 + |input|
  {
    && m[2] as nat == seqNo + (if notEpoch then 0x20 else 0) && m[3] == 0
    && if cmd < 0x7f then
         m[0] as nat == cmd && m[1] as nat == |input| && m[4..4 + |input|] == input
       else
         && m[0] == 0x7f && m[1] == 0
         && m[4] as nat == cmd % 0x100 && m[5] as nat == cmd / 0x100 % 0x80
         && m[6] as nat == |input| && m[7] == 0 && m[8..8 + |input|] == input
  }

  lemma V1Lanes(code: nat, len: nat, seqNo: nat, notEpoch: bool)
    requires code < 0x80 && len < 0x100 && seqNo < 0x10
    ensures Lanes(V1Header(code, len, seqNo, notEpoch)) == [code, len, seqNo + (if notEpoch then 0x20 else 0), 0]
  {
    var flags := seqNo + (if notEpoch then 0x20 else 0);
    Peel(code, len + 0x100 * flags);
    Peel(len, flags);
  }

  lemma V2Lanes(cmd: nat, len: nat)
    requires len < 0x100
    ensures Lanes(V2Header(cmd, len)) == [cmd % 0x100, cmd / 0x100 % 0x80, len, 0]
  {
    V2Split(cmd);
    Peel(cmd % 0x100, cmd / 0x100 % 0x80 + 0x100 * len);
    Peel(cmd / 0x100 % 0x80, len);
  }

  lemma V2Split(cmd: nat)
    ensures cmd % 0x8000 == cmd % 0x100 + 0x100 * (cmd / 0x100 % 0x80)
  {
  }

  /** What lies in the mailbox when the doorbell rings. */
  lemma RequestBytes(m: Bytes, cmd: nat, input: Bytes, seqNo: nat, notEpoch: bool)
    requires |input| <= PAYLOAD_MAX && seqNo < 0x10 && |m| >= MAILBOX_LEN + 4
    ensures RequestEnd(cmd, |input|) <= |m|
    ensures Spells(Framed(m, cmd, input, seqNo, notEpoch), cmd, input, seqNo, notEpoch)
  {
    RequestFitsIff(cmd, |input|);
    FramedParts(m, cmd, input, seqNo, notEpoch);
    var r := Framed(m, cmd, input, seqNo, notEpoch);
    var hs := Headers(cmd, |input|, seqNo, notEpoch);
    assert r[0] == hs[..4][0] && r[1] == hs[..4][1] && r[2] == hs[..4][2] && r[3] == hs[..4][3];
    if IsV2(cmd) {
      V1Lanes(V2_EXTN, 0, seqNo, notEpoch);
      V2Lanes(cmd, |input|);
      assert r[4] == hs[4..8][0] && r[5] == hs[4..8][1] && r[6] == hs[4..8][2] && r[7] == hs[4..8][3];
    } else {
      V1Lanes(cmd, |input|, seqNo, notEpoch);
    }
  }
}
