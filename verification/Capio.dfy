/** CAPIO ownership (`capio.c`). A process attaches by handing the kernel a capability; the
    kernel seals it and the sealed form is the token every later call must carry. Regions are
    mapped through device pager objects whose constructor and destructor keep a `mapped` flag
    per region and one for the whole device.

    Sealing is abstract and injective: unsealing gives the inner capability back under the
    right key and nothing comparable otherwise. */
module Capio {
  import opened Rings
  import opened Options

  const REGIONS: nat := 6
  const MMIO: nat := 2
  const MMIO_SLICES: nat := 5

  datatype Cap = Null | Plain(id: nat, tagged: bool) | Sealed(inner: Cap, key: nat)

  datatype Rc = Ok | EINVAL | EPERM | ENXIO | EIO

  datatype Token = Token(original: Cap, sealed: Cap)

  datatype Region = Region(kind: int, offset: nat, len: nat, mapped: bool, slices: nat)

  datatype Kernel = Kernel(token: Token, mapped: bool, regs: seq<Region>)

  /** `map_req_t` and the arguments of the mmap call. The last three fields are what the rest
      of the kernel answers: both readings of `is_dying`, and whether the pager allocates. */
  datatype MapReq = MapReq(present: bool, user: Cap, token: Cap, kind: int, capPerms: bool, pos: nat,
                           size: nat, dyingBefore: bool, dyingAfter: bool, allocates: bool)

  function Seal(c: Cap, key: nat): Cap { Sealed(c, key) }

  function Unseal(c: Cap, key: nat): Option<Cap> {
    if c.Sealed? && c.key == key then Some(c.inner) else None
  }

  function Tagged(c: Cap): bool { c.Sealed? || (c.Plain? && c.tagged) }

  /** `sfc7120_get_buffer_size`; `bar` is the size of BAR 2. */
  function BufferSize(bar: nat, kind: int): nat {
    if kind == 0 || kind == 1 then RING * BUFFER_SIZE
    else if kind == MMIO then bar
    else if 3 <= kind < REGIONS then RING * 8
    else 0
  }

  // ------------------------------------------------------------------ tokens

  function CheckToken(t: Token, key: nat, cap: Cap): Rc {
    if t.sealed == Null then EINVAL
    else if cap == Null then EINVAL
    else if Unseal(cap, key) != Some(t.original) then EPERM
    else Ok
  }

  function SetToken(k: Kernel, key: nat, cap: Cap): (Kernel, Rc) {
    if cap == Null || k.token.sealed != Null then (k, EINVAL)
    else (k.(token := Token(cap, Seal(cap, key))), Ok)
  }

  ghost predicate TokenInv(t: Token, key: nat) {
    if t.sealed == Null then t.original == Null else t.original != Null && t.sealed == Seal(t.original, key)
  }

  /** The check compares the unsealed forms, yet it accepts exactly one value: the token the
      current holder was given. */
  lemma CheckIff(t: Token, key: nat, cap: Cap)
    requires TokenInv(t, key)
    ensures CheckToken(t, key, cap) == Ok <==> t.original != Null && cap == Seal(t.original, key)
    ensures CheckToken(t, key, cap) == Ok <==> t.sealed != Null && cap == t.sealed
  {
  }

  /** Tokens are not tied to a session: one handed out earlier is good again exactly when the
      present holder attached with the same capability. */
  lemma StaleTokenIff(k: Kernel, key: nat, earlier: Cap, now: Cap)
    requires k.token == Token(Null, Null) && now != Null
    ensures CheckToken(SetToken(k, key, now).0.token, key, Seal(earlier, key)) == Ok <==> earlier == now
  {
  }

  // ------------------------------------------------------------------ the region table

  /** The first entry of a kind at or after `from`, or the length of the table. */
  function Find(regs: seq<Region>, kind: int, from: nat): (i: nat)
    requires from <= |regs|
    ensures from <= i <= |regs|
    ensures i < |regs| ==> regs[i].kind == kind
    ensures forall j :: from <= j < i ==> regs[j].kind != kind
    decreases |regs| - from
  {
    if from == |regs| || regs[from].kind == kind then from else Find(regs, kind, from + 1)
  }

  ghost predicate AnyMapped(regs: seq<Region>) {
    exists i :: 0 <= i < |regs| && regs[i].mapped
  }

  function Marked(regs: seq<Region>, kind: int, mapped: bool): (r: seq<Region>)
    ensures |r| == |regs|
    ensures forall i :: 0 <= i < |r| ==> r[i] == if regs[i].kind == kind then regs[i].(mapped := mapped) else regs[i]
  {
    seq(|regs|, i requires 0 <= i < |regs| => if regs[i].kind == kind then regs[i].(mapped := mapped) else regs[i])
  }

  function Unset(r: Region, failed: bool): Region {
    if failed then r else r.(offset := 0)
  }

  function Cleared(regs: seq<Region>, fails: set<nat>): (r: seq<Region>)
    ensures |r| == |regs|
    ensures forall i :: 0 <= i < |r| ==> r[i] == Unset(regs[i], i in fails)
  {
    seq(|regs|, i requires 0 <= i < |regs| => Unset(regs[i], i in fails))
  }

  /** The one error variable of the revoke loop: each deletion overwrites the verdict of the
      one before. */
  function Verdict(regs: seq<Region>, fails: set<nat>): Rc {
    if |regs| == 0 then Ok
    else
      var last := |regs| - 1;
      if regs[last].offset == 0 then Verdict(regs[..last], fails)
      else if last in fails then EIO
      else Ok
  }

  /** Whether entry `i` is the last one with an address to delete. */
  ghost predicate LastSet(regs: seq<Region>, i: nat) {
    i < |regs| && regs[i].offset != 0 && forall j :: i < j < |regs| ==> regs[j].offset == 0
  }

  /** The revoke reports an error exactly when the last region with an address failed. */
  lemma {:induction false} VerdictIff(regs: seq<Region>, fails: set<nat>)
    ensures Verdict(regs, fails) == EIO <==> exists i: nat :: LastSet(regs, i) && i in fails
    ensures Verdict(regs, fails) in {Ok, EIO}
  {
    if |regs| > 0 {
      var last := |regs| - 1;
      if regs[last].offset == 0 {
        VerdictIff(regs[..last], fails);
        forall i: nat ensures LastSet(regs, i) <==> LastSet(regs[..last], i) {
          if LastSet(regs, i) {
            assert i != last;
          }
          if LastSet(regs[..last], i) {
            forall j | i < j < |regs| ensures regs[j].offset == 0 {
              if j < last { assert regs[..last][j].offset == 0; }
            }
          }
        }
      } else {
        assert LastSet(regs, last);
        forall i: nat | LastSet(regs, i) ensures i == last {
        }
      }
    }
  }

  ghost predicate AllUnset(regs: seq<Region>) {
    forall i :: 0 <= i < |regs| ==> regs[i].offset == 0
  }

  ghost predicate Stuck(regs: seq<Region>, fails: set<nat>, i: nat) {
    i < |regs| && regs[i].offset != 0 && i in fails
  }

  /** A zero return therefore means that every address was cleared, and a nonzero one that
      some was not, exactly when the failures, if any, include the last region that had one. */
  lemma VerdictTruthfulIff(regs: seq<Region>, fails: set<nat>)
    ensures (Verdict(regs, fails) == Ok <==> AllUnset(Cleared(regs, fails)))
       <==> ((exists i: nat :: Stuck(regs, fails, i)) ==> exists i: nat :: LastSet(regs, i) && i in fails)
  {
    VerdictIff(regs, fails);
    var after := Cleared(regs, fails);
    if i: nat :| Stuck(regs, fails, i) {
      assert after[i].offset != 0;
    }
    if !AllUnset(after) {
      var i :| 0 <= i < |after| && after[i].offset != 0;
      assert Stuck(regs, fails, i);
    }
  }

  // ------------------------------------------------------------------ kernel entry points as values

  function Revoke(k: Kernel, fails: set<nat>): Kernel {
    Kernel(Token(Null, Null), k.mapped, Cleared(k.regs, fails))
  }

  function Ctor(k: Kernel, kind: int): Kernel {
    k.(mapped := true, regs := Marked(k.regs, kind, true))
  }

  ghost function Dtor(k: Kernel, kind: int): Kernel {
    var regs := Marked(k.regs, kind, false);
    k.(mapped := k.mapped && AnyMapped(regs), regs := regs)
  }

  function Vaddr(k: Kernel, kind: int, vaddr: nat, size: nat): (Kernel, Rc) {
    var i := Find(k.regs, kind, 0);
    if i == |k.regs| then (k, EINVAL)
    else (k.(regs := k.regs[i := k.regs[i].(offset := vaddr, len := size)]), Ok)
  }

  /** Why an mmap is refused before any object is made, in the order of the checks. */
  function Refusal(k: Kernel, key: nat, bar: nat, q: MapReq): Rc {
    if !q.present then EINVAL
    else if CheckToken(k.token, key, q.token) != Ok then CheckToken(k.token, key, q.token)
    else if q.capPerms then EINVAL
    else if q.pos != 0 then EINVAL
    else if q.dyingBefore then ENXIO
    else if !Tagged(q.user) then EINVAL
    else if q.size != BufferSize(bar, q.kind) then EINVAL
    else
      var i := Find(k.regs, q.kind, 0);
      if i < |k.regs| && k.regs[i].mapped then EINVAL
      else if !q.allocates then ENXIO
      else Ok
  }

  /** The new state, the return code, and whether a pager object came to life. */
  function Mmap(k: Kernel, key: nat, bar: nat, q: MapReq): (Kernel, Rc, bool) {
    var why := Refusal(k, key, bar, q);
    if why != Ok then (k, why, false)
    else (Ctor(k, q.kind), if q.dyingAfter then ENXIO else Ok, true)
  }

  /** A refused mmap leaves nothing behind, except when an unload starts while the object is
      being allocated: the object is not released, and its region stays mapped. */
  lemma RefusedMmapCleanIff(k: Kernel, key: nat, bar: nat, q: MapReq)
    requires Mmap(k, key, bar, q).1 != Ok
    requires TableInv(k.regs, bar) && q.size > 0
    ensures Mmap(k, key, bar, q).0 == k <==> !(Refusal(k, key, bar, q) == Ok && q.dyingAfter)
  {
    if Refusal(k, key, bar, q) == Ok {
      var i := Find(k.regs, q.kind, 0);
      assert k.regs[q.kind].kind == q.kind;
      assert !k.regs[i].mapped && Ctor(k, q.kind).regs[i].mapped;
    }
  }

  // ------------------------------------------------------------------ the code itself

  class Softc {
    const key: nat
    const bar: nat
    const regs: array<Region>
    var original: Cap
    var sealed: Cap
    var mapped: bool

    constructor (key: nat, bar: nat, regs: array<Region>)
      ensures this.key == key && this.bar == bar && this.regs == regs
      ensures View() == Kernel(Token(Null, Null), false, regs[..])
    {
      this.key, this.bar, this.regs := key, bar, regs;
      original, sealed, mapped := Null, Null, false;
    }

    function View(): Kernel
      reads this, regs
    {
      Kernel(Token(original, sealed), mapped, regs[..])
    }

    method CheckCapToken(cap: Cap) returns (rc: Rc)
      ensures rc == CheckToken(View().token, key, cap)
    {
      if sealed == Null { return EINVAL; }
      if cap == Null { return EINVAL; }
      var unsealed := Unseal(cap, key);
      if unsealed != Some(original) { return EPERM; }
      return Ok;
    }

    method SetCapToken(user: Cap) returns (rc: Rc, out: Cap)
      modifies this`original, this`sealed
      ensures (View(), rc) == SetToken(old(View()), key, user)
      ensures out == if rc == Ok then sealed else Null
    {
      if user == Null || sealed != Null { return EINVAL, Null; }
      original := user;
      sealed := Seal(user, key);
      return Ok, sealed;
    }

    /** `fails` holds the regions whose `vm_map_remove` returned an error. */
    method RevokeCapToken(fails: set<nat>) returns (rc: Rc)
      modifies this`original, this`sealed, regs
      ensures View() == Revoke(old(View()), fails)
      ensures rc == Verdict(old(View()).regs, fails)
    {
      ghost var was := regs[..];
      rc := Ok;
      original, sealed := Null, Null;
      var i := 0;
      while i < regs.Length
        invariant i <= regs.Length
        invariant original == sealed == Null && mapped == old(mapped)
        invariant forall j :: 0 <= j < i ==> regs[j] == Unset(was[j], j in fails)
        invariant forall j :: i <= j < regs.Length ==> regs[j] == was[j]
        invariant rc == Verdict(was[..i], fails)
      {
        var smem := regs[i];
        if smem.offset != 0 {
          rc := if i in fails then EIO else Ok;
          if rc == Ok {
            regs[i] := regs[i].(offset := 0);
          }
        }
        assert was[..i + 1][..i] == was[..i];
        i := i + 1;
      }
      assert was[..i] == was;
    }

    method VaddrCallback(kind: int, vaddr: nat, size: nat) returns (rc: Rc)
      modifies regs
      ensures (View(), rc) == Vaddr(old(View()), kind, vaddr, size)
    {
      var i := 0;
      while i < regs.Length
        invariant i <= regs.Length && regs[..] == old(regs[..])
        invariant Find(regs[..], kind, 0) == Find(regs[..], kind, i)
      {
        if regs[i].kind == kind {
          regs[i] := regs[i].(offset := vaddr, len := size);
          return Ok;
        }
        i := i + 1;
      }
      return EINVAL;
    }

    /** The region's length and slice count, both zero for an unknown kind. */
    method SliceLengthCallback(kind: int) returns (len: nat, slices: nat)
      ensures var i := Find(regs[..], kind, 0);
        (len, slices) == if i == |regs[..]| then (0, 0) else (regs[i].len, regs[i].slices)
    {
      var i := 0;
      while i < regs.Length
        invariant i <= regs.Length
        invariant Find(regs[..], kind, 0) == Find(regs[..], kind, i)
      {
        if regs[i].kind == kind { return regs[i].len, regs[i].slices; }
        i := i + 1;
      }
      return 0, 0;
    }

    method PagerCtor(kind: int)
      modifies this`mapped, regs
      ensures View() == Ctor(old(View()), kind)
    {
      ghost var was := regs[..];
      mapped := true;
      for i := 0 to regs.Length
        invariant mapped && original == old(original) && sealed == old(sealed)
        invariant forall j :: 0 <= j < i ==> regs[j] == Marked(was, kind, true)[j]
        invariant forall j :: i <= j < regs.Length ==> regs[j] == was[j]
      {
        if regs[i].kind == kind { regs[i] := regs[i].(mapped := true); }
      }
      assert regs[..] == Marked(was, kind, true);
    }

    method PagerDtor(kind: int)
      modifies this`mapped, regs
      ensures View() == Dtor(old(View()), kind)
    {
      ghost var was := regs[..];
      ghost var after := Marked(was, kind, false);
      var noneMapped := true;
      for i := 0 to regs.Length
        invariant mapped == old(mapped) && original == old(original) && sealed == old(sealed)
        invariant forall j :: 0 <= j < i ==> regs[j] == after[j]
        invariant forall j :: i <= j < regs.Length ==> regs[j] == was[j]
        invariant noneMapped <==> !AnyMapped(after[..i])
      {
        if regs[i].kind == kind { regs[i] := regs[i].(mapped := false); }
        if regs[i].mapped { noneMapped := false; }
        AnyMappedSnoc(after, i);
      }
      assert after[..regs.Length] == after;
      assert regs[..] == after;
      if noneMapped { mapped := false; }
    }

    method MmapSingleExtra(q: MapReq) returns (rc: Rc, created: bool)
      modifies this`mapped, regs
      ensures (View(), rc, created) == Mmap(old(View()), key, bar, q)
    {
      created := false;
      if !q.present { return EINVAL, false; }
      rc := CheckCapToken(q.token);
      if rc != Ok { return; }
      if q.capPerms { return EINVAL, false; }
      if q.pos != 0 { return EINVAL, false; }
      if q.dyingBefore { return ENXIO, false; }
      if !Tagged(q.user) { return EINVAL, false; }
      var bufferSize := BufferSize(bar, q.kind);
      if q.size != bufferSize { return EINVAL, false; }
      var i := 0;
      while i < regs.Length && regs[i].kind != q.kind
        invariant i <= regs.Length
        invariant Find(regs[..], q.kind, 0) == Find(regs[..], q.kind, i)
      {
        i := i + 1;
      }
      if i < regs.Length && regs[i].mapped { return EINVAL, false; }
      if !q.allocates { return ENXIO, false; }
      PagerCtor(q.kind);
      created := true;
      rc := if q.dyingAfter then ENXIO else Ok;
    }

    /** `capio_ioctl_handler` for the two commands it serves itself and for every other one,
        which goes to the driver only when `dispatched`. */
    method IoctlHandler(cmd: Command, user: Cap, token: Cap, fails: set<nat>)
      returns (rc: Rc, out: Cap, dispatched: bool)
      modifies this`original, this`sealed, regs
      ensures (View(), rc) == Ioctl(old(View()), key, cmd, user, token, fails)
      ensures dispatched <==>
                cmd == DriverCommand && old(sealed) != Null && CheckToken(old(View()).token, key, token) == Ok
      ensures out == if cmd == AttachCommand && rc == Ok then sealed else token
    {
      out, dispatched := token, false;
      if cmd != AttachCommand {
        rc := CheckCapToken(token);
        if rc != Ok { return EPERM, token, false; }
      }
      match cmd
      case AttachCommand =>
        var sealedOut;
        rc, sealedOut := SetCapToken(user);
        if rc == Ok { out := sealedOut; }
      case GoodbyeCommand => rc := RevokeCapToken(fails);
      case DriverCommand => dispatched := true;
    }
  }

  datatype Command = AttachCommand | GoodbyeCommand | DriverCommand

  function Ioctl(k: Kernel, key: nat, cmd: Command, user: Cap, token: Cap, fails: set<nat>): (Kernel, Rc) {
    if cmd != AttachCommand && CheckToken(k.token, key, token) != Ok then (k, EPERM)
    else match cmd
      case AttachCommand => SetToken(k, key, user)
      case GoodbyeCommand => (Revoke(k, fails), Verdict(k.regs, fails))
      case DriverCommand => (k, Ok)
  }

  lemma AnyMappedSnoc(regs: seq<Region>, i: nat)
    requires i < |regs|
    ensures AnyMapped(regs[..i + 1]) <==> AnyMapped(regs[..i]) || regs[i].mapped
  {
    var more, less := regs[..i + 1], regs[..i];
    if AnyMapped(less) {
      var j :| 0 <= j < |less| && less[j].mapped;
      assert more[j].mapped;
    }
    if regs[i].mapped { assert more[i].mapped; }
    if AnyMapped(more) && !regs[i].mapped {
      var j :| 0 <= j < |more| && more[j].mapped;
      assert less[j].mapped;
    }
  }

  // ------------------------------------------------------------------ runs

  /** The kernel state together with the pager objects that are alive, by kind. */
  datatype System = System(k: Kernel, live: multiset<int>)

  /** Calls, taken one at a time. A `Map` that succeeds is followed by the mapping module's
      address callback; `Unmap` is the last reference to an object going away, whoever drops
      it: a munmap, a process exit, or the removal inside a revoke. */
  datatype Op =
    | Attach(user: Cap)
    | Goodbye(token: Cap, fails: set<nat>)
    | LastClose(fails: set<nat>)
    | Map(q: MapReq, vaddr: nat)
    | Unmap(kind: int)
    | Driver(token: Cap)

  ghost function Dropped(s: System, kind: int): System {
    if s.live[kind] == 0 then s else System(Dtor(s.k, kind), s.live - multiset{kind})
  }

  ghost function Step(s: System, key: nat, bar: nat, op: Op): (System, Rc) {
    match op
    case Attach(user) =>
      var (k, rc) := Ioctl(s.k, key, AttachCommand, user, Null, {});
      (s.(k := k), rc)
    case Goodbye(token, fails) =>
      var (k, rc) := Ioctl(s.k, key, GoodbyeCommand, Null, token, fails);
      (s.(k := k), rc)
    case LastClose(fails) => (s.(k := Revoke(s.k, fails)), Ok)
    case Map(q, vaddr) =>
      var (k, rc, created) := Mmap(s.k, key, bar, q);
      var live := if created then s.live + multiset{q.kind} else s.live;
      if rc != Ok then (System(k, live), rc)
      else
        var (k', rc') := Vaddr(k, q.kind, vaddr, q.size);
        (System(k', live), rc')
    case Unmap(kind) => (Dropped(s, kind), if s.live[kind] == 0 then EINVAL else Ok)
    case Driver(token) =>
      var (k, rc) := Ioctl(s.k, key, DriverCommand, Null, token, {});
      (s.(k := k), rc)
  }

  ghost predicate Entry(r: Region, bar: nat, i: nat) {
    r.kind == i && r.len == BufferSize(bar, i) && r.slices == if i == MMIO then MMIO_SLICES else 0
  }

  ghost predicate TableInv(regs: seq<Region>, bar: nat) {
    |regs| == REGIONS && forall i: nat :: i < REGIONS ==> Entry(regs[i], bar, i)
  }

  ghost predicate Pinned(regs: seq<Region>, live: multiset<int>, kind: int) {
    live[kind] == if 0 <= kind < |regs| && regs[kind].mapped then 1 else 0
  }

  /** At most one live object per region, and exactly where the flag is set. */
  ghost predicate LiveInv(regs: seq<Region>, live: multiset<int>) {
    forall kind: int :: Pinned(regs, live, kind)
  }

  ghost predicate Inv(s: System, key: nat, bar: nat) {
    && TokenInv(s.k.token, key)
    && TableInv(s.k.regs, bar)
    && LiveInv(s.k.regs, s.live)
    && (s.k.mapped <==> AnyMapped(s.k.regs))
  }

  lemma FindIsKind(regs: seq<Region>, bar: nat, kind: int)
    requires TableInv(regs, bar)
    ensures Find(regs, kind, 0) == if 0 <= kind < REGIONS then kind else REGIONS
  {
    var i := Find(regs, kind, 0);
    if 0 <= kind < REGIONS { assert Entry(regs[kind], bar, kind); }
    if i < REGIONS { assert Entry(regs[i], bar, i); }
  }

  lemma MarkedTable(regs: seq<Region>, bar: nat, kind: int, b: bool)
    requires TableInv(regs, bar)
    ensures TableInv(Marked(regs, kind, b), bar)
    ensures Marked(regs, kind, b) == if 0 <= kind < REGIONS then regs[kind := regs[kind].(mapped := b)] else regs
  {
    forall i: nat | i < REGIONS ensures Entry(Marked(regs, kind, b)[i], bar, i) {
      assert Entry(regs[i], bar, i);
    }
    if 0 <= kind < REGIONS { assert Entry(regs[kind], bar, kind); }
    forall i: nat | i < REGIONS ensures regs[i].kind == i { assert Entry(regs[i], bar, i); }
  }

  /** Only offsets differ between two tables. */
  ghost predicate SameButOffsets(a: seq<Region>, b: seq<Region>) {
    |a| == |b| && forall i: nat :: i < |a| ==> a[i] == b[i].(offset := a[i].offset)
  }

  lemma OffsetsDoNotMatter(s: System, k: Kernel, key: nat, bar: nat)
    requires Inv(s, key, bar) && TokenInv(k.token, key)
    requires SameButOffsets(k.regs, s.k.regs) && k.mapped == s.k.mapped
    ensures Inv(s.(k := k), key, bar)
  {
    forall i: nat | i < REGIONS ensures Entry(k.regs[i], bar, i) { assert Entry(s.k.regs[i], bar, i); }
    forall kind: int ensures Pinned(k.regs, s.live, kind) { assert Pinned(s.k.regs, s.live, kind); }
    if AnyMapped(k.regs) {
      var i: nat :| i < |k.regs| && k.regs[i].mapped;
      assert s.k.regs[i].mapped;
    }
    if AnyMapped(s.k.regs) {
      var i: nat :| i < |k.regs| && s.k.regs[i].mapped;
      assert k.regs[i].mapped;
    }
  }

  lemma CreatedInv(s: System, key: nat, bar: nat, kind: int)
    requires Inv(s, key, bar) && 0 <= kind < REGIONS && !s.k.regs[kind].mapped
    ensures Inv(System(Ctor(s.k, kind), s.live + multiset{kind}), key, bar)
  {
    MarkedTable(s.k.regs, bar, kind, true);
    var regs := Marked(s.k.regs, kind, true);
    forall j: int ensures Pinned(regs, s.live + multiset{kind}, j) { assert Pinned(s.k.regs, s.live, j); }
    assert regs[kind].mapped;
  }

  lemma DestroyedInv(s: System, key: nat, bar: nat, kind: int)
    requires Inv(s, key, bar) && s.live[kind] > 0
    ensures Inv(System(Dtor(s.k, kind), s.live - multiset{kind}), key, bar)
    ensures 0 <= kind < REGIONS && s.k.regs[kind].mapped
  {
    assert Pinned(s.k.regs, s.live, kind);
    MarkedTable(s.k.regs, bar, kind, false);
    var regs := Marked(s.k.regs, kind, false);
    forall j: int ensures Pinned(regs, s.live - multiset{kind}, j) { assert Pinned(s.k.regs, s.live, j); }
    assert AnyMapped(s.k.regs);
  }

  /** What an mmap needs in order to make an object. */
  lemma MmapNeeds(s: System, key: nat, bar: nat, q: MapReq)
    requires Inv(s, key, bar) && q.size > 0 && Mmap(s.k, key, bar, q).2
    ensures 0 <= q.kind < REGIONS && !s.k.regs[q.kind].mapped && q.size == BufferSize(bar, q.kind)
    ensures s.k.token.original != Null && q.token == Seal(s.k.token.original, key)
  {
    FindIsKind(s.k.regs, bar, q.kind);
    CheckIff(s.k.token, key, q.token);
  }

  /** The size an mmap must ask for: 1 MiB of packet buffers, a page for a ring, all of BAR 2,
      and nothing of a region there is none of. */
  predicate WholeRegion(kind: int, size: nat, bar: nat) {
    if kind == 2 then size == bar
    else if kind in {0, 1} then size == 0x10_0000
    else if kind in {3, 4, 5} then size == 0x1000
    else size == 0
  }

  /** When an mmap makes an object: exactly if it comes with a request, shows the holder's
      token, asks for no capability permissions, for the start of the region and for all of
      it, with a capability that is tagged, while the region is not mapped and no unload has
      begun. It succeeds if besides no unload begins meanwhile. */
  lemma MmapCreatesIff(s: System, key: nat, bar: nat, q: MapReq)
    requires Inv(s, key, bar)
    ensures var (k, rc, created) := Mmap(s.k, key, bar, q);
      && (rc == Ok <==> created && !q.dyingAfter)
      && (created <==>
            && q.present && !q.capPerms && q.pos == 0 && !q.dyingBefore && q.allocates
            && s.k.token.original != Null && q.token == Sealed(s.k.token.original, key)
            && q.user != Null && (q.user.Plain? ==> q.user.tagged)
            && WholeRegion(q.kind, q.size, bar)
            && (0 <= q.kind < REGIONS ==> !s.k.regs[q.kind].mapped))
  {
    CheckIff(s.k.token, key, q.token);
    FindIsKind(s.k.regs, bar, q.kind);
  }

  lemma MapInv(s: System, key: nat, bar: nat, q: MapReq, vaddr: nat)
    requires Inv(s, key, bar) && q.size > 0
    ensures Inv(Step(s, key, bar, Map(q, vaddr)).0, key, bar)
    ensures Step(s, key, bar, Map(q, vaddr)).1 == Mmap(s.k, key, bar, q).1
  {
    var (k, rc, created) := Mmap(s.k, key, bar, q);
    if created {
      MmapNeeds(s, key, bar, q);
      CreatedInv(s, key, bar, q.kind);
      var mid := System(k, s.live + multiset{q.kind});
      FindIsKind(k.regs, bar, q.kind);
      assert Entry(k.regs[q.kind], bar, q.kind);
      if rc == Ok {
        OffsetsDoNotMatter(mid, Vaddr(k, q.kind, vaddr, q.size).0, key, bar);
      }
    }
  }

  ghost predicate Proper(op: Op) {
    op.Map? ==> op.q.size > 0
  }

  /** Every call keeps the invariant, with an unload starting at any moment. */
  lemma StepInv(s: System, key: nat, bar: nat, op: Op)
    requires Inv(s, key, bar) && Proper(op)
    ensures Inv(Step(s, key, bar, op).0, key, bar)
  {
    match op
    case Attach(user) =>
    case Goodbye(token, fails) => OffsetsDoNotMatter(s, Revoke(s.k, fails), key, bar);
    case LastClose(fails) => OffsetsDoNotMatter(s, Revoke(s.k, fails), key, bar);
    case Map(q, vaddr) => MapInv(s, key, bar, q, vaddr);
    case Unmap(kind) => if s.live[kind] > 0 { DestroyedInv(s, key, bar, kind); }
    case Driver(token) =>
  }

  /** A zero-length mmap of an unknown kind is the one call that would break it: the device
      flag goes up with no region behind it. */
  lemma MmapInvIff(s: System, key: nat, bar: nat, q: MapReq)
    requires Inv(s, key, bar) && bar > 0 && Mmap(s.k, key, bar, q).2
    ensures Inv(System(Ctor(s.k, q.kind), s.live + multiset{q.kind}), key, bar) <==> q.size > 0
  {
    FindIsKind(s.k.regs, bar, q.kind);
    if q.size > 0 {
      MmapNeeds(s, key, bar, q);
      CreatedInv(s, key, bar, q.kind);
    } else {
      assert !(0 <= q.kind < REGIONS);
      var live := s.live + multiset{q.kind};
      assert live[q.kind] > 0;
      assert !Pinned(Ctor(s.k, q.kind).regs, live, q.kind);
    }
  }

  // ------------------------------------------------------------------ the holder, from the replies alone

  datatype Reply = Reply(op: Op, rc: Rc)

  function HolderAfter(before: Cap, r: Reply): Cap {
    match r.op
    case Attach(user) => if r.rc == Ok then user else before
    case Goodbye(_, _) => if r.rc != EPERM then Null else before
    case LastClose(_) => Null
    case _ => before
  }

  /** Who holds the device, as an outside observer of the calls and their return codes would
      say: the last successful attach, until a goodbye got through or the device was closed. */
  function Holder(seen: seq<Reply>): Cap {
    if |seen| == 0 then Null else HolderAfter(Holder(seen[..|seen| - 1]), seen[|seen| - 1])
  }

  ghost predicate Moves(a: System, b: System, key: nat, bar: nat, r: Reply) {
    Proper(r.op) && Step(a, key, bar, r.op) == (b, r.rc)
  }

  ghost predicate Run(key: nat, bar: nat, ss: seq<System>, seen: seq<Reply>) {
    && |ss| == |seen| + 1
    && Inv(ss[0], key, bar) && ss[0].k.token == Token(Null, Null)
    && forall i: nat :: i < |seen| ==> Moves(ss[i], ss[i + 1], key, bar, seen[i])
  }

  lemma {:induction false} RunInv(key: nat, bar: nat, ss: seq<System>, seen: seq<Reply>, n: nat)
    requires Run(key, bar, ss, seen) && n < |ss|
    ensures Inv(ss[n], key, bar)
    ensures ss[n].k.token.original == Holder(seen[..n])
  {
    if n > 0 {
      RunInv(key, bar, ss, seen, n - 1);
      assert Moves(ss[n - 1], ss[n], key, bar, seen[n - 1]);
      StepInv(ss[n - 1], key, bar, seen[n - 1].op);
      assert seen[..n][..n - 1] == seen[..n - 1];
      TokenFollows(ss[n - 1], key, bar, seen[n - 1].op);
    }
  }

  /** How one call moves the token. */
  lemma TokenFollows(s: System, key: nat, bar: nat, op: Op)
    requires Inv(s, key, bar) && Proper(op)
    ensures var (s', rc) := Step(s, key, bar, op);
      s'.k.token.original == HolderAfter(s.k.token.original, Reply(op, rc))
  {
    if op.Goodbye? { VerdictIff(s.k.regs, op.fails); }
  }

  /** Over every run: an attach succeeds exactly when nobody holds the device; a driver ioctl
      is dispatched, and a goodbye obeyed, exactly when it carries the holder's token; a
      successful mmap carries it too, and finds its region without a live object. */
  lemma RunExclusive(key: nat, bar: nat, ss: seq<System>, seen: seq<Reply>, n: nat)
    requires Run(key, bar, ss, seen) && n < |seen|
    ensures var holder, r := Holder(seen[..n]), seen[n];
      && (r.op.Attach? ==> (r.rc == Ok <==> holder == Null && r.op.user != Null))
      && (r.op.Driver? ==> (r.rc == Ok <==> holder != Null && r.op.token == Seal(holder, key)))
      && (r.op.Goodbye? ==> (r.rc != EPERM <==> holder != Null && r.op.token == Seal(holder, key)))
      && (r.op.Map? && r.rc == Ok ==>
            holder != Null && r.op.q.token == Seal(holder, key) && ss[n].live[r.op.q.kind] == 0)
  {
    RunInv(key, bar, ss, seen, n);
    var s, r := ss[n], seen[n];
    assert Moves(s, ss[n + 1], key, bar, r);
    match r.op
    case Attach(user) =>
    case Goodbye(token, fails) =>
      CheckIff(s.k.token, key, token);
      VerdictIff(s.k.regs, fails);
    case Driver(token) => CheckIff(s.k.token, key, token);
    case Map(q, vaddr) =>
      MapInv(s, key, bar, q, vaddr);
      if r.rc == Ok {
        MmapNeeds(s, key, bar, q);
        assert Pinned(s.k.regs, s.live, q.kind);
      }
    case _ =>
  }
}
