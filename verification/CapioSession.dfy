/** A whole CAPIO session as the user library runs it: `sfc7120_init`, which may fail at any
    step and then cleans up through `sfc7120_destroy`, and `sfc7120_destroy` itself. The
    driver's ring indices pass through it: read at init, written back at destroy. */
module CapioSession {
  import opened Options
  import opened Capio
  import Driver
  import KernelPath
  import DirectPath
  import Sessions

  /** A deletion inside a revoke can only fail where something is still mapped: a missing
      range counts as deleted. */
  function Possible(fails: set<nat>, live: multiset<int>): set<nat> {
    set i | i in fails && live[i] > 0
  }

  // ------------------------------------------------------------------ the device node

  /** The device node and the two halves of the softc behind it: what CAPIO keeps there, and
      the driver's own ring indices. */
  class Node {
    const sc: Softc
    const drv: KernelPath.Softc
    var live: multiset<int>
    var opens: nat

    constructor (sc: Softc, drv: KernelPath.Softc)
      ensures this.sc == sc && this.drv == drv && Sys() == System(sc.View(), multiset{}) && opens == 0
    {
      this.sc, this.drv := sc, drv;
      live, opens := multiset{}, 0;
    }

    ghost function Sys(): System
      reads this, sc, sc.regs
    {
      System(sc.View(), live)
    }

    method Open()
      modifies this`opens
      ensures opens == old(opens) + 1 && Sys() == old(Sys())
    {
      opens := opens + 1;
    }

    /** The driver's close routine runs when the last descriptor goes away. */
    method Close(fails: set<nat>)
      requires opens > 0
      modifies this`opens, sc, sc.regs
      ensures opens == old(opens) - 1
      ensures Sys() == if opens > 0 then old(Sys())
                       else Step(old(Sys()), sc.key, sc.bar, LastClose(Possible(fails, live))).0
      ensures live == old(live)
    {
      opens := opens - 1;
      if opens == 0 {
        var _ := sc.RevokeCapToken(Possible(fails, live));
      }
    }

    method Attach(user: Cap, sealed: Cap) returns (rc: Rc, out: Cap)
      modifies sc, sc.regs
      ensures (Sys(), rc) == Step(old(Sys()), sc.key, sc.bar, Op.Attach(user))
      ensures out == if rc == Ok then sc.sealed else sealed
    {
      var dispatched;
      rc, out, dispatched := sc.IoctlHandler(AttachCommand, user, sealed, {});
    }

    method Goodbye(token: Cap, fails: set<nat>) returns (rc: Rc)
      modifies sc, sc.regs
      ensures (Sys(), rc) == Step(old(Sys()), sc.key, sc.bar, Op.Goodbye(token, Possible(fails, live)))
    {
      var out, dispatched;
      rc, out, dispatched := sc.IoctlHandler(GoodbyeCommand, Null, token, Possible(fails, live));
    }

    method Driver(token: Cap) returns (rc: Rc)
      modifies sc, sc.regs
      ensures (Sys(), rc) == Step(old(Sys()), sc.key, sc.bar, Op.Driver(token))
      ensures Sys() == old(Sys())
    {
      var out, dispatched;
      rc, out, dispatched := sc.IoctlHandler(DriverCommand, Null, token, {});
    }

    method Map(q: MapReq, vaddr: nat) returns (rc: Rc)
      modifies this`live, sc, sc.regs
      ensures (Sys(), rc) == Step(old(Sys()), sc.key, sc.bar, Op.Map(q, vaddr))
    {
      var created;
      rc, created := sc.MmapSingleExtra(q);
      if created { live := live + multiset{q.kind}; }
      if rc == Ok { rc := sc.VaddrCallback(q.kind, vaddr, q.size); }
    }

    /** Any call but the last close, in terms of the step it is. */
    method Perform(op: Op)
      requires !op.LastClose?
      modifies this`live, sc, sc.regs
      ensures Sys() == Step(old(Sys()), sc.key, sc.bar, op).0
    {
      var rc, out, dispatched;
      match op
      case Attach(user) => rc, out := Attach(user, Null);
      case Goodbye(token, fails) => rc, out, dispatched := sc.IoctlHandler(GoodbyeCommand, Null, token, fails);
      case Map(q, vaddr) => rc := Map(q, vaddr);
      case Unmap(kind) => Munmap(kind);
      case Driver(token) => rc := Driver(token);
    }

    method Munmap(kind: int)
      modifies this`live, sc, sc.regs
      ensures Sys() == Dropped(old(Sys()), kind)
    {
      if live[kind] > 0 {
        sc.PagerDtor(kind);
        live := live - multiset{kind};
      }
    }
  }

  // ------------------------------------------------------------------ destroy, as a value

  ghost function Munmapped(s: System, bases: seq<nat>): System {
    if |bases| == 0 then s
    else
      var i := |bases| - 1;
      var s' := Munmapped(s, bases[..i]);
      if bases[i] != 0 then Dropped(s', i) else s'
  }

  lemma MunmappedSnoc(s: System, bases: seq<nat>, i: nat)
    requires i < |bases|
    ensures var t := Munmapped(s, bases[..i]);
            Munmapped(s, bases[..i + 1]) == if bases[i] != 0 then Dropped(t, i) else t
  {
    assert bases[..i + 1][..i] == bases[..i];
  }

  /** What `sfc7120_destroy` leaves: the regions in `bases` unmapped, then a goodbye with
      `token`, then the close, which is the last one when `last`. */
  ghost function Destroyed(s: System, key: nat, bar: nat, bases: seq<nat>, token: Cap, last: bool, fails: set<nat>)
    : System
  {
    var s1 := Munmapped(s, bases);
    var s2 := Step(s1, key, bar, Op.Goodbye(token, Possible(fails, s1.live))).0;
    if last then Step(s2, key, bar, LastClose(Possible(fails, s2.live))).0 else s2
  }

  /** Nobody attached, nothing mapped, no address remembered, every length still right. */
  ghost predicate Quiet(s: System, key: nat, bar: nat) {
    && Inv(s, key, bar)
    && s.k.token == Token(Null, Null) && !s.k.mapped && s.live == multiset{}
    && AllUnset(s.k.regs)
  }

  ghost predicate NoOthers(regs: seq<Region>, bases: seq<nat>) {
    |bases| == REGIONS && forall i: nat :: i < |regs| && i < REGIONS && regs[i].mapped ==> bases[i] != 0
  }

  ghost predicate NoBases(bases: seq<nat>) {
    |bases| == REGIONS && forall i: nat :: i < REGIONS ==> bases[i] == 0
  }

  ghost predicate StillMapped(before: Region, after: Region, mine: bool) {
    after == before.(mapped := before.mapped && !mine)
  }

  /** The two tables agree but for the flags of the regions in `bases`. */
  ghost predicate Released(before: seq<Region>, after: seq<Region>, bases: seq<nat>) {
    && |before| == |after|
    && forall i: nat :: i < |after| ==> StillMapped(before[i], after[i], i < |bases| && bases[i] != 0)
  }

  /** Unmapping leaves the token alone, whatever state the tables are in. */
  lemma {:induction false} MunmappedToken(s: System, bases: seq<nat>)
    ensures Munmapped(s, bases).k.token == s.k.token
  {
    if |bases| > 0 { MunmappedToken(s, bases[..|bases| - 1]); }
  }

  lemma UnmapExact(s: System, key: nat, bar: nat, i: nat)
    requires Inv(s, key, bar) && i < REGIONS
    ensures var t := Dropped(s, i);
      && Inv(t, key, bar) && t.k.token == s.k.token
      && t.k.regs == s.k.regs[i := s.k.regs[i].(mapped := false)]
  {
    assert Pinned(s.k.regs, s.live, i);
    if s.k.regs[i].mapped {
      DestroyedInv(s, key, bar, i);
      MarkedTable(s.k.regs, bar, i, false);
    }
  }

  lemma {:induction false} MunmappedExact(s: System, key: nat, bar: nat, bases: seq<nat>)
    requires Inv(s, key, bar) && |bases| <= REGIONS
    ensures var t := Munmapped(s, bases);
      Inv(t, key, bar) && t.k.token == s.k.token && Released(s.k.regs, t.k.regs, bases)
  {
    if |bases| > 0 {
      var i: nat := |bases| - 1;
      var less := bases[..i];
      MunmappedExact(s, key, bar, less);
      var t := Munmapped(s, less);
      assert StillMapped(s.k.regs[i], t.k.regs[i], false);
      if bases[i] != 0 { UnmapExact(t, key, bar, i); }
      var u := Munmapped(s, bases);
      forall j: nat | j < REGIONS ensures StillMapped(s.k.regs[j], u.k.regs[j], j < |bases| && bases[j] != 0) {
        assert StillMapped(s.k.regs[j], t.k.regs[j], j < i && less[j] != 0);
      }
    }
  }

  lemma NoneLive(s: System, key: nat, bar: nat)
    requires Inv(s, key, bar) && forall i: nat :: i < REGIONS ==> !s.k.regs[i].mapped
    ensures s.live == multiset{} && !s.k.mapped
  {
    forall kind: int ensures s.live[kind] == 0 { assert Pinned(s.k.regs, s.live, kind); }
    assert forall kind: int :: kind !in s.live;
  }

  ghost function Revoked(s: System, fails: set<nat>): System {
    s.(k := Revoke(s.k, Possible(fails, s.live)))
  }

  lemma RevokedInv(s: System, key: nat, bar: nat, fails: set<nat>)
    requires Inv(s, key, bar)
    ensures Inv(Revoked(s, fails), key, bar)
  {
    StepInv(s, key, bar, LastClose(Possible(fails, s.live)));
  }

  lemma RevokedQuiet(s: System, key: nat, bar: nat, fails: set<nat>)
    requires Inv(s, key, bar) && forall i: nat :: i < REGIONS ==> !s.k.regs[i].mapped
    ensures Quiet(Revoked(s, fails), key, bar)
  {
    NoneLive(s, key, bar);
    RevokedInv(s, key, bar, fails);
  }

  lemma GoodbyeIsRevoke(s: System, key: nat, bar: nat, fails: set<nat>)
    requires Inv(s, key, bar) && s.k.token.original != Null
    ensures Step(s, key, bar, Op.Goodbye(s.k.token.sealed, Possible(fails, s.live))).0 == Revoked(s, fails)
  {
    CheckIff(s.k.token, key, s.k.token.sealed);
  }

  lemma DestroyedIsRevoked(s: System, key: nat, bar: nat, bases: seq<nat>, last: bool, fails: set<nat>)
    requires Inv(Munmapped(s, bases), key, bar)
    requires s.k.token.original != Null && Munmapped(s, bases).k.token == s.k.token
    ensures var once := Revoked(Munmapped(s, bases), fails);
      Destroyed(s, key, bar, bases, s.k.token.sealed, last, fails) == if last then Revoked(once, fails) else once
  {
    GoodbyeIsRevoke(Munmapped(s, bases), key, bar, fails);
  }

  /** The holder's destroy gives the token up and unmaps exactly its own regions. */
  lemma HolderLeaves(s: System, key: nat, bar: nat, bases: seq<nat>, last: bool, fails: set<nat>)
    requires Inv(s, key, bar) && |bases| == REGIONS && s.k.token.original != Null
    ensures var t := Destroyed(s, key, bar, bases, s.k.token.sealed, last, fails);
      && Inv(t, key, bar) && t.k.token == Token(Null, Null)
      && forall i: nat :: i < REGIONS ==> t.k.regs[i].mapped == (s.k.regs[i].mapped && bases[i] == 0)
  {
    MunmappedExact(s, key, bar, bases);
    DestroyedIsRevoked(s, key, bar, bases, last, fails);
    var s1 := Munmapped(s, bases);
    var s2 := Revoked(s1, fails);
    RevokedInv(s1, key, bar, fails);
    RevokedInv(s2, key, bar, fails);
    var t := if last then Revoked(s2, fails) else s2;
    forall i: nat | i < REGIONS ensures t.k.regs[i].mapped == (s.k.regs[i].mapped && bases[i] == 0) {
      assert StillMapped(s.k.regs[i], s1.k.regs[i], bases[i] != 0);
    }
  }

  /** If nobody else had anything mapped the device is quiet again, whatever deletions go
      wrong on the way. */
  lemma HolderDestroys(s: System, key: nat, bar: nat, bases: seq<nat>, last: bool, fails: set<nat>)
    requires Inv(s, key, bar) && s.k.token.original != Null && NoOthers(s.k.regs, bases)
    ensures Quiet(Destroyed(s, key, bar, bases, s.k.token.sealed, last, fails), key, bar)
  {
    MunmappedExact(s, key, bar, bases);
    DestroyedIsRevoked(s, key, bar, bases, last, fails);
    var s1 := Munmapped(s, bases);
    forall i: nat | i < REGIONS ensures !s1.k.regs[i].mapped {
      assert StillMapped(s.k.regs[i], s1.k.regs[i], bases[i] != 0);
    }
    RevokedQuiet(s1, key, bar, fails);
    RevokedQuiet(Revoked(s1, fails), key, bar, fails);
  }

  /** The destroy of a client that never got the token. It spares the holder exactly when
      the token it presents is not the holder's, and another descriptor is still open. */
  lemma OutsiderDestroys(s: System, key: nat, bar: nat, bases: seq<nat>, token: Cap, last: bool, fails: set<nat>)
    requires Inv(s, key, bar) && NoBases(bases)
    ensures Destroyed(s, key, bar, bases, token, last, fails).k.token == s.k.token
       <==> s.k.token == Token(Null, Null) || (token != s.k.token.sealed && !last)
    ensures token != s.k.token.sealed && !last ==> Destroyed(s, key, bar, bases, token, last, fails) == s
    ensures Quiet(s, key, bar) ==> Destroyed(s, key, bar, bases, token, last, fails) == s
  {
    NothingMunmapped(s, bases);
    CheckIff(s.k.token, key, token);
    if AllUnset(s.k.regs) {
      assert Cleared(s.k.regs, Possible(fails, s.live)) == s.k.regs;
    }
  }

  lemma {:induction false} NothingMunmapped(s: System, bases: seq<nat>)
    requires forall i :: 0 <= i < |bases| ==> bases[i] == 0
    ensures Munmapped(s, bases) == s
  {
    if |bases| > 0 { NothingMunmapped(s, bases[..|bases| - 1]); }
  }

  // ------------------------------------------------------------------ the library

  /** What can go wrong outside CAPIO during an init, and the values it is handed. */
  datatype Faults = Faults(open: bool, modmap: bool, malloc: bool, noSlices: set<int>, noObject: set<int>,
                           dying: bool, viInfo: bool, mac: bool, deletes: set<nat>)

  predicate Faultless(f: Faults) {
    !f.open && !f.modmap && !f.malloc && f.noSlices == {} && f.noObject == {} && !f.dying && !f.viInfo && !f.mac
  }

  /** `sfc7120_if_t`; `io` is the part of it that the mapped data path works on. */
  class Client {
    const node: Node
    const io: DirectPath.UserIf
    const bases: array<nat>
    var fd: bool
    var user: Cap
    var sealed: Cap
    var viInfoValid: bool

    constructor (node: Node, io: DirectPath.UserIf)
      ensures this.node == node && this.io == io && fresh(bases) && bases.Length == REGIONS
      ensures sealed == Null && !fd
    {
      this.node, this.io := node, io;
      bases := new nat[REGIONS](_ => 0);
      fd, user, sealed, viInfoValid := false, Null, Null, false;
    }

    /** The kernel's ring indices, and the user's. */
    ghost function Kernel(): Driver.Pointers
      reads node.drv
    {
      Driver.Pointers(node.drv.dataEvqReadPtr, node.drv.txHead, node.drv.rxHead)
    }

    ghost function User(): Driver.Pointers
      reads io
    {
      Driver.Pointers(io.evqReadPtr, io.txHead, io.rxHead)
    }

    /** Whether a destroy has indices to write back. */
    ghost predicate Owes()
      reads this, io
    {
      fd && viInfoValid && io.usedPoll
    }

    /** An open client of a sound device. */
    ghost predicate Valid()
      reads this, bases, node, node.sc, node.sc.regs
    {
      && bases.Length == REGIONS && fd && node.opens > 0
      && node.sc.bar > 0
      && Inv(node.Sys(), node.sc.key, node.sc.bar)
    }

    /** It holds the token. */
    ghost predicate Holding()
      reads this, bases, node, node.sc, node.sc.regs
    {
      && Valid()
      && node.sc.original == user != Null && Tagged(user) && node.sc.sealed == sealed
    }

    method UnmapOne(i: nat)
      requires bases.Length == REGIONS && i < REGIONS
      modifies bases, node`live, node.sc, node.sc.regs
      ensures node.Sys() == if old(bases[i]) != 0 then Dropped(old(node.Sys()), i) else old(node.Sys())
      ensures bases[i] == 0 && forall j :: 0 <= j < REGIONS && j != i ==> bases[j] == old(bases[j])
    {
      if bases[i] != 0 {
        node.Munmap(i);
        bases[i] := 0;
      }
    }

    method UnmapAll()
      requires bases.Length == REGIONS
      modifies bases, node`live, node.sc, node.sc.regs
      ensures node.Sys() == Munmapped(old(node.Sys()), old(bases[..]))
      ensures NoBases(bases[..])
    {
      ghost var was, s := bases[..], node.Sys();
      for i := 0 to REGIONS
        invariant forall j :: 0 <= j < i ==> bases[j] == 0
        invariant forall j :: i <= j < REGIONS ==> bases[j] == was[j]
        invariant node.Sys() == Munmapped(s, was[..i])
      {
        MunmappedSnoc(s, was, i);
        UnmapOne(i);
      }
      assert was[..REGIONS] == was;
    }

    /** `SFC7120_SET_EVQ_RPTR` with what `sealed` holds: the token check, then the driver. */
    method SyncBack() returns (rc: Rc)
      modifies node.drv, node.sc, node.sc.regs
      ensures node.Sys() == old(node.Sys())
      ensures io.usedPoll ==>
                (rc == Ok <==> CheckToken(node.Sys().k.token, node.sc.key, sealed) == Ok && Driver.InRange(User()))
      ensures Kernel() == if io.usedPoll && rc == Ok then User() else old(Kernel())
    {
      rc := node.Driver(sealed);
      if rc == Ok {
        var answer := Sessions.Sync(io, node.drv);
        if answer != 0 { rc := EINVAL; }
      }
    }

    /** `sfc7120_destroy`. A session that polled writes its indices back while it still holds
        the token: the kernel has exactly them afterwards, unless one is out of range or the
        token in `sealed` was never good. */
    method Destroy(fails: set<nat>) returns (sync: Option<Rc>)
      requires bases.Length == REGIONS && fd && node.opens > 0
      modifies this, io`mapped, bases, node, node.drv, node.sc, node.sc.regs
      ensures node.opens == old(node.opens) - 1
      ensures node.Sys() == Destroyed(old(node.Sys()), node.sc.key, node.sc.bar, old(bases[..]), old(sealed),
                                      node.opens == 0, fails)
      ensures NoBases(bases[..]) && !io.mapped
      ensures sync.Some? <==> old(Owes())
      ensures sync.Some? ==>
                (sync.value == Ok <==> old(CheckToken(node.Sys().k.token, node.sc.key, sealed) == Ok
                                           && Driver.InRange(User())))
      ensures Kernel() == if sync == Some(Ok) then old(User()) else old(Kernel())
      ensures old(Holding() && Owes() && Driver.InRange(User())) ==> sync == Some(Ok)
    {
      ghost var s := node.Sys();
      MunmappedToken(s, bases[..]);
      if Holding() { CheckIff(s.k.token, node.sc.key, sealed); }
      UnmapAll();
      io.mapped := false;
      sync := None;
      if fd && viInfoValid && io.usedPoll {
        var rc := SyncBack();
        sync := Some(rc);
      }
      if fd {
        var _ := node.Goodbye(sealed, fails);
      }
      if fd {
        node.Close(fails);
      }
    }

    /** `map_region`: ask for the region's length and slice count, then map it. */
    method MapRegion(kind: nat, wantSlices: bool, f: Faults, addr: nat) returns (ok: bool)
      requires Holding() && kind < REGIONS && addr > 0
      requires wantSlices <==> kind == MMIO
      modifies bases, node`live, node.sc, node.sc.regs
      ensures Holding() && node.opens == old(node.opens)
      ensures old(NoOthers(node.Sys().k.regs, bases[..])) ==> NoOthers(node.Sys().k.regs, bases[..])
      ensures bases[..] == if ok then old(bases[..])[kind := addr] else old(bases[..])
      ensures Faultless(f) && !old(node.sc.regs[kind].mapped) ==> ok
      ensures forall i: nat :: i < REGIONS && i != kind ==> node.sc.regs[i].mapped == old(node.sc.regs[i].mapped)
    {
      FindIsKind(node.sc.regs[..], node.sc.bar, kind);
      assert Entry(node.sc.regs[..][kind], node.sc.bar, kind);
      if kind in f.noSlices { return false; }
      var len, slices := node.sc.SliceLengthCallback(kind);
      if len == 0 { return false; }
      if !wantSlices && slices != 0 { return false; }
      var q := MapReq(true, user, sealed, kind, false, 0, len, f.dying, f.dying, kind !in f.noObject);
      ghost var s := node.Sys();
      MapInv(s, node.sc.key, node.sc.bar, q, addr);
      MapExact(s, node.sc.key, node.sc.bar, q, addr);
      CheckIff(s.k.token, node.sc.key, sealed);
      ghost var was := bases[..];
      var rc := node.Map(q, addr);
      ghost var regs := node.sc.regs[..];
      forall i: nat | i < REGIONS && i != kind ensures regs[i].mapped == s.k.regs[i].mapped { }
      if rc != Ok { return false; }
      bases[kind] := addr;
      return true;
    }

    method MapBuffers(f: Faults, addrs: seq<nat>) returns (ok: bool)
      requires Holding() && |addrs| == REGIONS && forall i :: 0 <= i < REGIONS ==> addrs[i] > 0
      modifies bases, node`live, node.sc, node.sc.regs
      ensures Holding() && node.opens == old(node.opens)
      ensures old(NoOthers(node.Sys().k.regs, bases[..])) ==> NoOthers(node.Sys().k.regs, bases[..])
      ensures ok ==> bases[..] == old(bases[..])[0 := addrs[0]][1 := addrs[1]]
      ensures Faultless(f) && !old(node.sc.regs[0].mapped) && !old(node.sc.regs[1].mapped) ==> ok
      ensures forall i: nat :: 2 <= i < REGIONS ==> node.sc.regs[i].mapped == old(node.sc.regs[i].mapped)
    {
      ok := MapRegion(0, false, f, addrs[0]);
      if !ok { return; }
      ok := MapRegion(1, false, f, addrs[1]);
    }

    method MapRings(f: Faults, addrs: seq<nat>) returns (ok: bool)
      requires Holding() && |addrs| == REGIONS && forall i :: 0 <= i < REGIONS ==> addrs[i] > 0
      modifies bases, node`live, node.sc, node.sc.regs
      ensures Holding() && node.opens == old(node.opens)
      ensures old(NoOthers(node.Sys().k.regs, bases[..])) ==> NoOthers(node.Sys().k.regs, bases[..])
      ensures ok ==> bases[..] == old(bases[..])[3 := addrs[3]][4 := addrs[4]][5 := addrs[5]]
      ensures Faultless(f) && (forall i: nat :: 3 <= i < REGIONS ==> !old(node.sc.regs[i].mapped)) ==> ok
      ensures forall i: nat :: i < 3 ==> node.sc.regs[i].mapped == old(node.sc.regs[i].mapped)
    {
      ok := MapRegion(3, false, f, addrs[3]);
      if !ok { return; }
      ok := MapRegion(4, false, f, addrs[4]);
      if !ok { return; }
      ok := MapRegion(5, false, f, addrs[5]);
    }

    /** The six mappings of `sfc7120_init`, in its order. */
    method MapAll(f: Faults, addrs: seq<nat>) returns (ok: bool)
      requires Holding() && |addrs| == REGIONS && forall i :: 0 <= i < REGIONS ==> addrs[i] > 0
      modifies bases, node`live, node.sc, node.sc.regs
      ensures Holding() && node.opens == old(node.opens)
      ensures old(NoOthers(node.Sys().k.regs, bases[..])) ==> NoOthers(node.Sys().k.regs, bases[..])
      ensures ok ==> bases[..] == addrs
      ensures Faultless(f) && (forall i: nat :: i < REGIONS ==> !old(node.sc.regs[i].mapped)) ==> ok
    {
      ok := MapBuffers(f, addrs);
      if !ok { return; }
      ok := MapRings(f, addrs);
      if !ok { return; }
      ok := MapRegion(MMIO, true, f, addrs[MMIO]);
    }

    /** The ring indices and the MAC address, asked of the driver. */
    method Learn(f: Faults) returns (ok: bool)
      requires Holding()
      modifies this`viInfoValid, io`evqReadPtr, io`txHead, io`rxHead, node.sc, node.sc.regs
      ensures Holding() && node.Sys() == old(node.Sys())
      ensures ok <==> !f.viInfo && !f.mac
      ensures ok ==> viInfoValid && User() == Kernel()
    {
      CheckIff(node.Sys().k.token, node.sc.key, sealed);
      var rc := node.Driver(sealed);
      if rc != Ok || f.viInfo { return false; }
      viInfoValid := true;
      Sessions.Seed(io, node.drv);
      rc := node.Driver(sealed);
      if rc != Ok || f.mac { return false; }
      return true;
    }

    /** `sfc7120_init` from the open of the mapping module up to its failure label. `page` is
        the freshly allocated memory whose capability serves as the identity. */
    method BringUp(f: Faults, page: Cap, addrs: seq<nat>) returns (ok: bool)
      requires Valid() && NoBases(bases[..]) && page.Plain? && page.tagged
      requires |addrs| == REGIONS && forall i :: 0 <= i < REGIONS ==> addrs[i] > 0
      modifies this`user, this`sealed, this`viInfoValid, io, bases, node`live, node.sc, node.sc.regs
      ensures node.opens == old(node.opens) && Valid() && io.usedPoll == old(io.usedPoll)
      ensures ok ==> Holding() && user == page && bases[..] == addrs && viInfoValid && io.mapped && User() == Kernel()
      ensures !ok ==>
                Holding() || (node.Sys() == old(node.Sys()) && bases[..] == old(bases[..]) && sealed == old(sealed))
      ensures Holding() && old(Quiet(node.Sys(), node.sc.key, node.sc.bar)) ==> NoOthers(node.Sys().k.regs, bases[..])
      ensures old(node.sc.sealed) != Null ==>
                !ok && node.Sys() == old(node.Sys()) && bases[..] == old(bases[..]) && sealed == old(sealed)
      ensures old(Quiet(node.Sys(), node.sc.key, node.sc.bar)) && Faultless(f) ==> ok
    {
      if f.modmap || f.malloc { return false; }
      user := page;
      var rc, out := node.Attach(user, sealed);
      sealed := out;
      if rc != Ok { return false; }
      ok := MapAll(f, addrs);
      if !ok { return; }
      io.mapped := true;
      ok := Learn(f);
    }

    /** The first lines of `sfc7120_init`; `sealed` keeps what it held. */
    method Clear()
      requires bases.Length == REGIONS
      modifies this`fd, this`viInfoValid, io, bases
      ensures !fd && !viInfoValid && !io.usedPoll && !io.mapped && NoBases(bases[..])
      ensures User() == Driver.Pointers(0, 0, 0)
    {
      fd, viInfoValid, io.usedPoll, io.mapped := false, false, false, false;
      io.evqReadPtr, io.rxHead, io.txHead := 0, 0, 0;
      for i := 0 to REGIONS
        invariant forall j :: 0 <= j < i ==> bases[j] == 0
        invariant !fd && !viInfoValid && !io.usedPoll && !io.mapped && User() == Driver.Pointers(0, 0, 0)
      {
        bases[i] := 0;
      }
    }

    /** `sfc7120_init`. From a quiet device it either succeeds, and must when nothing outside
        fails, or leaves the device quiet; on a held device it fails and leaves the holder
        alone, provided what it has in `sealed` is not the holder's token. */
    method Init(f: Faults, page: Cap, addrs: seq<nat>) returns (ok: bool)
      requires bases.Length == REGIONS && node.sc.bar > 0 && page.Plain? && page.tagged
      requires Inv(node.Sys(), node.sc.key, node.sc.bar)
      requires |addrs| == REGIONS && forall i :: 0 <= i < REGIONS ==> addrs[i] > 0
      modifies this, io, bases, node, node.drv, node.sc, node.sc.regs
      ensures node.opens == old(node.opens) + if ok then 1 else 0
      ensures ok ==> Holding() && user == page && bases[..] == addrs && viInfoValid && io.mapped && User() == Kernel()
      ensures !io.usedPoll && Kernel() == old(Kernel())
      ensures ok && old(Quiet(node.Sys(), node.sc.key, node.sc.bar)) ==> NoOthers(node.Sys().k.regs, bases[..])
      ensures !ok && old(Quiet(node.Sys(), node.sc.key, node.sc.bar)) ==> Quiet(node.Sys(), node.sc.key, node.sc.bar)
      ensures old(node.sc.sealed) != Null ==> !ok
      ensures old(node.sc.sealed) != Null && old(sealed) != old(node.sc.sealed) && old(node.opens) > 0 ==>
                node.Sys() == old(node.Sys())
      ensures old(Quiet(node.Sys(), node.sc.key, node.sc.bar)) && Faultless(f) ==> ok
    {
      Clear();
      if f.open { return false; }
      node.Open();
      fd := true;
      ok := BringUp(f, page, addrs);
      if !ok {
        ghost var s := node.Sys();
        ghost var key, bar, last := node.sc.key, node.sc.bar, node.opens == 1;
        if Holding() && NoOthers(s.k.regs, bases[..]) {
          HolderDestroys(s, key, bar, bases[..], last, f.deletes);
        }
        if NoBases(bases[..]) {
          OutsiderDestroys(s, key, bar, bases[..], sealed, last, f.deletes);
        }
        var _ := Destroy(f.deletes);
      }
    }
  }

  /** What may happen between a holder's init and its destroy: any call by anybody, the
      holder's own unmapping and mapping again included, except the last close, since the
      holder has the device open, and a goodbye with the holder's token. */
  predicate Meantime(op: Op, token: Cap) {
    && (op.Map? ==> op.q.size > 0)
    && !op.LastClose?
    && (op.Goodbye? ==> op.token != token)
  }

  lemma MeantimeKeepsHold(s: System, key: nat, bar: nat, op: Op)
    requires Inv(s, key, bar) && s.k.token.original != Null && Meantime(op, s.k.token.sealed)
    ensures var t := Step(s, key, bar, op).0; Inv(t, key, bar) && t.k.token == s.k.token
  {
    StepInv(s, key, bar, op);
    if op.Goodbye? { CheckIff(s.k.token, key, op.token); }
  }

  /** What a session does with the rings, and where that leaves the indices of its path. */
  datatype Work = Ioctls(left: Driver.Pointers) | Mapped(left: Driver.Pointers)

  method Worked(c: Client, work: Work)
    modifies c.io, c.node.drv
    ensures c.io.usedPoll == if work.Mapped? then true else old(c.io.usedPoll)
    ensures c.User() == if work.Mapped? then work.left else old(c.User())
    ensures c.Kernel() == if work.Mapped? then old(c.Kernel()) else work.left
  {
    match work
    case Ioctls(p) => c.node.drv.dataEvqReadPtr, c.node.drv.txHead, c.node.drv.rxHead := p.ev, p.tx, p.rx;
    case Mapped(p) => c.io.usedPoll, c.io.evqReadPtr, c.io.txHead, c.io.rxHead := true, p.ev, p.tx, p.rx;
  }

  /** A whole session: init, then anything that may happen meanwhile, then destroy. Wherever
      init fails and whatever happens, the device is quiet afterwards, so that the next init
      finds what this one found. The kernel ends up with the indices of the path the session
      took, and the next one is seeded with them; a failed init leaves them alone. */
  method Session(c: Client, f: Faults, page: Cap, addrs: seq<nat>, ops: seq<Op>, work: Work) returns (ok: bool)
    requires c.bases.Length == REGIONS && c.node.sc.bar > 0 && page.Plain? && page.tagged
    requires Quiet(c.node.Sys(), c.node.sc.key, c.node.sc.bar)
    requires |addrs| == REGIONS && forall i :: 0 <= i < REGIONS ==> addrs[i] > 0
    requires forall i :: 0 <= i < |ops| ==> Meantime(ops[i], Seal(page, c.node.sc.key))
    requires Driver.InRange(work.left)
    modifies c, c.io, c.bases, c.node, c.node.drv, c.node.sc, c.node.sc.regs
    ensures Quiet(c.node.Sys(), c.node.sc.key, c.node.sc.bar)
    ensures c.node.opens == old(c.node.opens)
    ensures Faultless(f) ==> ok
    ensures c.Kernel() == if ok then work.left else old(c.Kernel())
  {
    ok := c.Init(f, page, addrs);
    if ok {
      Worked(c, work);
      ghost var kern := c.Kernel();
      for i := 0 to |ops|
        invariant c.Holding() && c.user == page && c.bases[..] == addrs && c.node.opens == old(c.node.opens) + 1
        invariant c.viInfoValid && c.Kernel() == kern
        invariant c.io.usedPoll == work.Mapped? && (work.Mapped? ==> c.User() == work.left)
      {
        MeantimeKeepsHold(c.node.Sys(), c.node.sc.key, c.node.sc.bar, ops[i]);
        c.node.Perform(ops[i]);
      }
      HolderDestroys(c.node.Sys(), c.node.sc.key, c.node.sc.bar, c.bases[..], c.node.opens == 1, f.deletes);
      var _ := c.Destroy(f.deletes);
    }
  }

  /** A successful mapping sets one region's flag and address; a refused one, with no unload
      starting half way, changes nothing. */
  lemma MapExact(s: System, key: nat, bar: nat, q: MapReq, vaddr: nat)
    requires Inv(s, key, bar) && q.size > 0 && q.dyingBefore == q.dyingAfter
    ensures var (t, rc) := Step(s, key, bar, Op.Map(q, vaddr));
      && (rc != Ok ==> t == s)
      && (rc == Ok ==>
        && 0 <= q.kind < REGIONS && t.k.token == s.k.token
        && t.k.regs == s.k.regs[q.kind := s.k.regs[q.kind].(offset := vaddr, mapped := true)])
  {
    var (k, rc, created) := Mmap(s.k, key, bar, q);
    if created {
      MmapNeeds(s, key, bar, q);
      MarkedTable(s.k.regs, bar, q.kind, true);
      FindIsKind(k.regs, bar, q.kind);
      assert Entry(s.k.regs[q.kind], bar, q.kind);
    }
  }
}
