/** Geometry shared by the three rings of a port (sfc7120_uapi.h), and the index
    arithmetic that turns an unbounded position into a slot and back.

    Words are naturals below 2^64. A mask `x & (2^k - 1)` is `x % 2^k`, a right shift
    is `/`, and an OR of disjoint bit fields is `+`. */
module Rings {
  const RING: nat := 512
  const BUFFER_SIZE: nat := 2048

  type Byte = b: nat | b < 0x100
  type Word = w: nat | w < 0x1_0000_0000_0000_0000

  const ALL_ONES: Word := 0xffff_ffff_ffff_ffff

  /** The slot an unbounded position occupies. */
  function Slot(i: nat): nat {
    i % RING
  }

  /** What the other side of a ring makes of an index register: the first position at
      or after `from` that occupies slot `index`. */
  function Recover(from: nat, index: nat): (p: nat)
    requires index < RING
    ensures from <= p < from + RING && Slot(p) == index
  {
    from + (index + RING - from % RING) % RING
  }

  /** Positions less than one ring apart never share a slot. */
  lemma SlotsDistinct(i: nat, j: nat)
    requires i < j < i + RING
    ensures Slot(i) != Slot(j)
  {
  }

  /** The driver's `(p + 1) & (RING - 1)` follows the position. */
  lemma SlotSucc(i: nat)
    ensures Slot(i + 1) == (Slot(i) + 1) % RING
  {
  }

  /** One lap on is the same slot. */
  lemma SlotLap(i: nat)
    ensures Slot(i + RING) == Slot(i)
  {
  }

  /** Seen from beyond it, a position's index names the position one lap on. */
  lemma RecoverLap(from: nat, p: nat)
    requires p < from <= p + RING
    ensures Recover(from, Slot(p)) == p + RING
  {
    SlotLap(p);
    RecoverExact(from, p + RING);
  }

  /** An index register names exactly one position inside a window of one ring. */
  lemma RecoverExact(from: nat, p: nat)
    requires from <= p < from + RING
    ensures Recover(from, Slot(p)) == p
  {
  }

  /** Beyond that window the register is ambiguous: a full lap reads as no progress. */
  lemma RecoverExactIff(from: nat, p: nat)
    requires from <= p
    ensures Recover(from, Slot(p)) == p <==> p - from < RING
  {
    if p - from < RING {
      RecoverExact(from, p);
    }
  }
}
