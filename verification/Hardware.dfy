/** The port as an object: real DMA arrays and a device that works on them on its own. What
    it will do is an arbitrary agenda of bursts; the driver's loops let one burst happen
    before every slot they read, so a contract that holds for every agenda holds for every
    interleaving. */
module Hardware {
  import opened Rings
  import opened Port

  /** What is left of an agenda after `n` bursts. */
  function Rest(agenda: seq<seq<Action>>, n: nat): seq<seq<Action>> {
    if n <= |agenda| then agenda[n..] else []
  }

  class Nic {
    const evRing: array<Word>
    const rxRing: array<Word>
    const rxBuffer: array<Bytes>
    const txRing: array<Word>
    const txBuffer: array<Bytes>
    var d: Device
    var agenda: seq<seq<Action>>

    ghost predicate Shaped() {
      && evRing.Length == rxRing.Length == rxBuffer.Length == txRing.Length == txBuffer.Length == RING
      && evRing != rxRing && evRing != txRing && rxRing != txRing && rxBuffer != txBuffer
    }

    ghost function Mem(): (m: Memory)
      requires Shaped()
      reads evRing, rxRing, rxBuffer, txRing, txBuffer
      ensures Sized(m)
    {
      Memory(evRing[..], rxRing[..], rxBuffer[..], txRing[..], txBuffer[..])
    }

    ghost predicate Sound()
      reads this, evRing, rxRing, rxBuffer, txRing, txBuffer
    {
      Shaped() && Inv(Mem(), d)
    }

    /** Enough for the device to go on, even with its TX ring overrun. */
    ghost predicate Running()
      reads this, evRing, rxRing, rxBuffer, txRing, txBuffer
    {
      Shaped() && Weak(Mem(), d)
    }

    constructor (ev: array<Word>, rx: array<Word>, rxb: array<Bytes>, tx: array<Word>, txb: array<Bytes>,
                 d: Device, agenda: seq<seq<Action>>)
      ensures evRing == ev && rxRing == rx && rxBuffer == rxb && txRing == tx && txBuffer == txb
      ensures this.d == d && this.agenda == agenda
    {
      evRing, rxRing, rxBuffer, txRing, txBuffer := ev, rx, rxb, tx, txb;
      this.d, this.agenda := d, agenda;
    }

    /** One device action, carried out on the arrays. */
    method Perform(a: Action)
      requires Shaped()
      modifies this`d, evRing, rxBuffer
      ensures (Mem(), d) == Act(old(Mem()), old(d), a)
    {
      if Enabled(d, a) {
        match a
        case Receive(p, raw) =>
          var w := rxRing[Slot(|d.rx.arrivals|)];
          var k := SlotNamed(d.rx.base, w);
          if Whole(w) && 0 <= k < RING {
            rxBuffer[k] := Overlay(p.prefix + p.frame, rxBuffer[k]);
            evRing[Slot(|d.ev.log|)] := raw;
            d := d.(rx := d.rx.(arrivals := d.rx.arrivals + [p]),
                    ev := d.ev.(log := d.ev.log + [Event(raw, RxEvent, |d.rx.arrivals|)]));
          }
        case Send =>
          var w := txRing[Slot(|d.tx.wire|)];
          var k := SlotNamed(d.tx.base, w);
          if Whole(w) && 0 <= k < RING && DescCount(w) <= |txBuffer[k]| {
            d := d.(tx := d.tx.(wire := d.tx.wire + [txBuffer[k][..DescCount(w)]]));
          }
        case Report(raw) =>
          evRing[Slot(|d.ev.log|)] := raw;
          d := d.(tx := d.tx.(reported := |d.tx.wire|),
                  ev := d.ev.(log := d.ev.log + [Event(raw, TxEvent, |d.tx.wire| - 1)]));
        case Notify(raw) =>
          evRing[Slot(|d.ev.log|)] := raw;
          d := d.(ev := d.ev.(log := d.ev.log + [Event(raw, OtherEvent, 0)]));
      }
    }

    /** The next burst of the agenda. */
    method Runs()
      requires Running()
      modifies this`d, this`agenda, evRing, rxBuffer
      ensures Running() && Later(old(d), d) && Debt(d) == old(Debt(d))
      ensures agenda == Rest(old(agenda), 1)
      ensures old(Sound()) ==> Sound() && (old(Fresh(d)) ==> Fresh(d))
    {
      if agenda != [] {
        var burst := agenda[0];
        agenda := agenda[1..];
        for i := 0 to |burst|
          invariant Running() && Later(old(d), d) && agenda == Rest(old(agenda), 1)
          invariant old(Sound()) ==> Sound() && (old(Fresh(d)) ==> Fresh(d))
        {
          ghost var m0, d0 := Mem(), d;
          Perform(burst[i]);
          ActInv(m0, d0, burst[i]);
          if Inv(m0, d0) { ActFresh(m0, d0, burst[i]); }
        }
      }
      LaterKeepsDebt(old(d), d);
    }
  }
}
