/** VMs with both halves of what they hold: page tables in physical memory, and the
    address-space slot whose translation base register points at the root. */
module VmLeases {
  import opened Wrappers
  import opened Lpae
  import opened PageTables
  import opened AsSlots
  import W = VmWorld
  import L = AsLeases

  datatype State = State(world: W.World, leases: L.State)

  /** Each carries the kernel's and the hardware's answers. */
  datatype Op =
    | BindContext(h: nat, rootPa: nat, enabled: bool)
    | UnbindContext(h: nat)
    | CreateVm(id: nat, root: Option<Frame>, enabled: bool)
    | DestroyVm(id: nat)
    | MapVm(id: nat, va: U64, pfns: seq<U64>, attrs: Attrs, ss: seq<Supply>)
    | UnmapVm(id: nat, va: U64, us: seq<Supply>)

  /** WinMaliMmuVmInit: the root page first, then the slot; the page goes back when there
      is no slot or the hardware refuses it. */
  ghost function Create(s: State, mapped: bool, id: nat, root: Option<Frame>, enabled: bool): State
    requires Sized(s.leases.pool)
  {
    if id in s.leases.vms || !mapped || root.None? || root.value in s.world.phys then s
    else
      var leases := L.Next(s.leases, mapped, L.CreateVm(id, 4096 * root.value, enabled));
      State(if id in leases.vms then W.Step(s.world, W.Create(id, root)) else s.world, leases)
  }

  ghost function Next(s: State, mapped: bool, op: Op): State
    requires Sized(s.leases.pool)
  {
    match op
    case BindContext(h, rootPa, enabled) => s.(leases := L.Next(s.leases, mapped, L.BindContext(h, rootPa, enabled)))
    case UnbindContext(h) => s.(leases := L.Next(s.leases, mapped, L.UnbindContext(h)))
    case CreateVm(id, root, enabled) => Create(s, mapped, id, root, enabled)
    case DestroyVm(id) => State(W.Step(s.world, W.Destroy(id)), L.Next(s.leases, mapped, L.DestroyVm(id)))
    case MapVm(id, va, pfns, a, ss) => s.(world := W.Step(s.world, W.Map(id, va, pfns, a, ss)))
    case UnmapVm(id, va, us) => s.(world := W.Step(s.world, W.Unmap(id, va, us)))
  }

  ghost function Run(phys: map<Frame, seq<Word>>, asPresent: set<nat>, mapped: bool, ops: seq<Op>): (s: State)
    ensures Sized(s.leases.pool)
    decreases |ops|
  {
    if ops == [] then State(W.World(phys, map[]), L.State(InitialSlots(asPresent), map[]))
    else NextSized(Run(phys, asPresent, mapped, ops[..|ops| - 1]), mapped, ops[|ops| - 1])
  }

  ghost function NextSized(s: State, mapped: bool, op: Op): (r: State)
    requires Sized(s.leases.pool)
    ensures r == Next(s, mapped, op) && Sized(r.leases.pool)
  {
    Next(s, mapped, op)
  }

  predicate HandleGiven(op: Op) {
    match op
    case BindContext(h, _, _) => h != 0
    case UnbindContext(h) => h != 0
    case _ => true
  }

  /** What the MMU answers for an address in slot i: a walk over all of memory from the
      root the slot was bound with. */
  function SlotWalk(s: State, i: nat, p: VPage): Outcome
    requires i < |s.leases.pool.bindings|
  {
    HwWalk(Tables(s.leases.pool.bindings[i].rootPa / 4096 % 0x10_0000_0000, [], s.world.phys), p)
  }

  /** The VMs with page tables are the VMs with slots, and each slot is bound to its VM's root. */
  ghost predicate Joined(s: State) {
    && s.world.vms.Keys == s.leases.vms.Keys
    && (forall id | id in s.leases.vms :: BoundToRoot(s, id))
  }

  ghost predicate BoundToRoot(s: State, id: nat)
    requires id in s.leases.vms && id in s.world.vms
  {
    && s.leases.vms[id] < |s.leases.pool.bindings|
    && s.leases.pool.bindings[s.leases.vms[id]] == Binding(true, 0, 4096 * s.world.vms[id].root)
  }

  ghost predicate Sound(s: State, shs: map<nat, Shape>) {
    W.WorldOk(s.world, shs) && L.LeasesOk(s.leases) && Joined(s)
  }

  // ------------------------------------------------------------- one step

  /** Nobody but its own destruction touches the binding of a VM's slot. */
  lemma {:induction false} LeaseStays(s: L.State, mapped: bool, op: L.Op, id: nat)
    requires L.LeasesOk(s) && L.HandleGiven(op) && id in s.vms && op != L.DestroyVm(id)
    ensures Sized(s.pool)
    ensures var u := L.Next(s, mapped, op);
            && id in u.vms && u.vms[id] == s.vms[id] < |s.pool.bindings| == |u.pool.bindings|
            && u.pool.bindings[s.vms[id]] == s.pool.bindings[s.vms[id]]
  {
    var i := s.vms[id];
    match op {
      case BindContext(h, rootPa, enabled) =>
      case UnbindContext(h) =>
      case CreateVm(v, rootPa, enabled) =>
      case DestroyVm(v) =>
    }
  }

  /** A new VM's slot is bound to the root it was given. */
  lemma {:induction false} NewLease(s: L.State, mapped: bool, id: nat, rootPa: nat, enabled: bool)
    requires L.LeasesOk(s) && id !in s.vms
    ensures Sized(s.pool)
    ensures var u := L.Next(s, mapped, L.CreateVm(id, rootPa, enabled));
            && u.vms.Keys == (if id in u.vms then s.vms.Keys + {id} else s.vms.Keys)
            && (id in u.vms ==> u.vms[id] < |u.pool.bindings| && u.pool.bindings[u.vms[id]] == Binding(true, 0, rootPa))
  {
  }

  lemma {:induction false} RootsStay(w: W.World, op: W.Op, id: nat)
    requires id in w.vms && op != W.Destroy(id)
    ensures id in W.Step(w, op).vms && W.Step(w, op).vms[id].root == w.vms[id].root
  {
    hide MapPages, UnmapPages, Owned;
  }

  lemma {:induction false} WorldKeys(w: W.World, op: W.Op)
    ensures op.Map? || op.Unmap? ==> W.Step(w, op).vms.Keys == w.vms.Keys
    ensures op.Destroy? ==> W.Step(w, op).vms.Keys == w.vms.Keys - {op.id}
    ensures op.Create? && op.id !in w.vms && op.root.Some? && op.root.value !in w.phys ==>
              W.Step(w, op).vms.Keys == w.vms.Keys + {op.id} && W.Step(w, op).vms[op.id].root == op.root.value
  {
    hide MapPages, UnmapPages, Owned;
  }

  lemma {:induction false} LeaseKeys(s: L.State, mapped: bool, op: L.Op)
    requires Sized(s.pool)
    ensures op.BindContext? || op.UnbindContext? ==> L.Next(s, mapped, op).vms == s.vms
    ensures op.DestroyVm? ==> L.Next(s, mapped, op).vms.Keys == s.vms.Keys - {op.id}
  {
  }

  /** What an operation does to the slots, when it does anything to them. */
  function LeaseOp(op: Op): Option<L.Op> {
    match op
    case BindContext(h, rootPa, enabled) => Some(L.BindContext(h, rootPa, enabled))
    case UnbindContext(h) => Some(L.UnbindContext(h))
    case CreateVm(id, root, enabled) => if root.Some? then Some(L.CreateVm(id, 4096 * root.value, enabled)) else None
    case DestroyVm(id) => Some(L.DestroyVm(id))
    case _ => None
  }

  /** What an operation does to memory, when it does anything to it. */
  function WorldOp(op: Op): Option<W.Op> {
    match op
    case CreateVm(id, root, _) => Some(W.Create(id, root))
    case DestroyVm(id) => Some(W.Destroy(id))
    case MapVm(id, va, pfns, a, ss) => Some(W.Map(id, va, pfns, a, ss))
    case UnmapVm(id, va, us) => Some(W.Unmap(id, va, us))
    case _ => None
  }

  lemma {:induction false} NextOnBoth(s: State, mapped: bool, op: Op)
    requires Sized(s.leases.pool)
    ensures var u := Next(s, mapped, op);
            && (u.leases == s.leases || (LeaseOp(op).Some? && u.leases == L.Next(s.leases, mapped, LeaseOp(op).value)))
            && (u.world == s.world || (WorldOp(op).Some? && u.world == W.Step(s.world, WorldOp(op).value)))
            && (!op.CreateVm? && LeaseOp(op).Some? ==> u.leases == L.Next(s.leases, mapped, LeaseOp(op).value))
            && (!op.CreateVm? && WorldOp(op).Some? ==> u.world == W.Step(s.world, WorldOp(op).value))
  {
    hide L.Next, W.Step;
  }

  /** A VM that an operation does not destroy keeps its slot, and the slot its root. */
  lemma {:induction false} BindingStays(s: State, shs: map<nat, Shape>, mapped: bool, op: Op, id: nat)
    requires Sound(s, shs) && HandleGiven(op) && id in s.leases.vms && op != DestroyVm(id)
    ensures Sized(s.leases.pool) && id in s.world.vms
    ensures var u := Next(s, mapped, op);
            && id in u.leases.vms && id in u.world.vms && u.leases.vms[id] == s.leases.vms[id]
            && u.world.vms[id].root == s.world.vms[id].root && BoundToRoot(u, id)
  {
    hide L.LeasesOk, W.WorldOk, L.Next, W.Step, Next;
    L.SlotsFacts(s.leases);
    assert id in s.world.vms && BoundToRoot(s, id);
    NextOnBoth(s, mapped, op);
    if LeaseOp(op).Some? { LeaseStays(s.leases, mapped, LeaseOp(op).value, id); }
    if WorldOp(op).Some? { RootsStay(s.world, WorldOp(op).value, id); }
  }

  /** The VMs an operation leaves live are those with both halves. */
  lemma {:induction false} SameVms(s: State, shs: map<nat, Shape>, mapped: bool, op: Op)
    requires Sound(s, shs)
    ensures Sized(s.leases.pool)
    ensures var u := Next(s, mapped, op);
            && u.world.vms.Keys == u.leases.vms.Keys
            && (forall id | id in u.leases.vms && id !in s.leases.vms :: id in u.world.vms && BoundToRoot(u, id))
            && (op.DestroyVm? ==> op.id !in u.leases.vms)
  {
    hide L.LeasesOk, W.WorldOk, L.Next, W.Step, BoundToRoot;
    L.SlotsFacts(s.leases);
    match op {
      case BindContext(_, _, _) => LeaseKeys(s.leases, mapped, LeaseOp(op).value);
      case UnbindContext(_) => LeaseKeys(s.leases, mapped, LeaseOp(op).value);
      case CreateVm(id, root, enabled) =>
        if root.Some? && id !in s.leases.vms { CreateJoins(s, shs, mapped, id, root.value, enabled); }
      case DestroyVm(id) =>
        LeaseKeys(s.leases, mapped, LeaseOp(op).value);
        WorldKeys(s.world, WorldOp(op).value);
      case MapVm(_, _, _, _, _) => WorldKeys(s.world, WorldOp(op).value);
      case UnmapVm(_, _, _) => WorldKeys(s.world, WorldOp(op).value);
    }
  }

  lemma {:induction false} CreateJoins(s: State, shs: map<nat, Shape>, mapped: bool, id: nat, root: Frame, enabled: bool)
    requires Sound(s, shs) && id !in s.leases.vms
    ensures Sized(s.leases.pool)
    ensures var u := Create(s, mapped, id, Some(root), enabled);
            && u.world.vms.Keys == u.leases.vms.Keys
            && u.leases.vms.Keys <= s.leases.vms.Keys + {id}
            && (id in u.leases.vms ==> BoundToRoot(u, id))
  {
    hide L.LeasesOk, W.WorldOk, L.Next, W.Step;
    L.SlotsFacts(s.leases);
    NewLease(s.leases, mapped, id, 4096 * root, enabled);
    WorldKeys(s.world, W.Create(id, Some(root)));
  }

  lemma {:induction false} NextKeepsJoined(s: State, shs: map<nat, Shape>, mapped: bool, op: Op)
    returns (shsu: map<nat, Shape>)
    requires Sound(s, shs) && HandleGiven(op)
    ensures Sized(s.leases.pool) && Sound(Next(s, mapped, op), shsu)
    ensures forall j | j in s.world.vms && (WorldOp(op).None? || j != WorldOp(op).value.id) ::
              j in Next(s, mapped, op).world.vms && W.View(Next(s, mapped, op).world, j) == W.View(s.world, j)
  {
    hide L.LeasesOk, W.WorldOk, L.Next, W.Step, W.View, Next, BoundToRoot;
    L.SlotsFacts(s.leases);
    NextOnBoth(s, mapped, op);
    SameVms(s, shs, mapped, op);
    shsu := shs;
    if WorldOp(op).Some? && Next(s, mapped, op).world != s.world {
      shsu := W.StepKeepsWorld(s.world, shs, WorldOp(op).value);
    }
    if LeaseOp(op).Some? { L.NextKeepsLeases(s.leases, mapped, LeaseOp(op).value); }
    forall id | id in Next(s, mapped, op).leases.vms
      ensures id in Next(s, mapped, op).world.vms && BoundToRoot(Next(s, mapped, op), id)
    {
      if id in s.leases.vms { BindingStays(s, shs, mapped, op, id); }
    }
  }

  // ------------------------------------------------------------- every run

  lemma {:induction false} RunKeepsJoined(phys: map<Frame, seq<Word>>, asPresent: set<nat>, mapped: bool, ops: seq<Op>)
    returns (shs: map<nat, Shape>)
    requires forall op | op in ops :: HandleGiven(op)
    ensures Sound(Run(phys, asPresent, mapped, ops), shs)
    decreases |ops|
  {
    hide L.LeasesOk, Next;
    if ops == [] {
      L.InitialLeases(asPresent);
      shs := map[];
    } else {
      var n := |ops| - 1;
      shs := RunKeepsJoined(phys, asPresent, mapped, ops[..n]);
      assert ops[n] in ops;
      hide Sound;
      shs := NextKeepsJoined(Run(phys, asPresent, mapped, ops[..n]), shs, mapped, ops[n]);
    }
  }

  /** Walking from the base of a VM's slot is walking that VM's tree. */
  lemma {:induction false} SlotWalkIsVmWalk(s: State, shs: map<nat, Shape>, id: nat, p: VPage)
    requires Sound(s, shs) && id in s.world.vms
    ensures id in s.leases.vms && s.leases.vms[id] < |s.leases.pool.bindings|
    ensures SlotWalk(s, s.leases.vms[id], p) == HwWalk(W.View(s.world, id), p)
    ensures !SlotWalk(s, s.leases.vms[id], p).Stray? && !SlotWalk(s, s.leases.vms[id], p).Block?
  {
    hide L.LeasesOk, HwWalk, W.View, Tree;
    assert BoundToRoot(s, id);
    assert SlotWalk(s, s.leases.vms[id], p) == W.PhysWalk(s.world, id, p);
    W.PhysWalkIsOwnWalk(s.world, shs[id], id, p);
    WalkStaysInside(W.View(s.world, id), shs[id], p);
  }

  /** In every run: the VMs with page tables are the VMs with slots, each slot is bound to
      its VM's own root, and what the MMU answers in that slot is what the VM's own list of
      pages says. */
  lemma {:induction false} SlotShowsItsVm(phys: map<Frame, seq<Word>>, asPresent: set<nat>, mapped: bool, ops: seq<Op>,
      id: nat, p: VPage)
    requires forall op | op in ops :: HandleGiven(op)
    ensures var s := Run(phys, asPresent, mapped, ops);
            && Joined(s)
            && (id in s.world.vms ==>
                  && id in s.leases.vms && s.leases.vms[id] < |s.leases.pool.bindings|
                  && SlotWalk(s, s.leases.vms[id], p) == HwWalk(W.View(s.world, id), p)
                  && !SlotWalk(s, s.leases.vms[id], p).Stray? && !SlotWalk(s, s.leases.vms[id], p).Block?)
  {
    hide Run, SlotWalk, Joined, HwWalk, W.View;
    var s := Run(phys, asPresent, mapped, ops);
    var shs := RunKeepsJoined(phys, asPresent, mapped, ops);
    if id in s.world.vms { SlotWalkIsVmWalk(s, shs, id, p); }
  }

  /** In every run, whatever is done to contexts and to other VMs: a VM keeps its slot, and
      the MMU's answers in that slot do not change. */
  lemma {:induction false} SlotsAreIsolated(phys: map<Frame, seq<Word>>, asPresent: set<nat>, mapped: bool, ops: seq<Op>,
      op: Op, id: nat, p: VPage)
    requires (forall o | o in ops :: HandleGiven(o)) && HandleGiven(op)
    requires id in Run(phys, asPresent, mapped, ops).world.vms
    requires WorldOp(op).None? || WorldOp(op).value.id != id
    ensures var s := Run(phys, asPresent, mapped, ops);
            var u := Next(s, mapped, op);
            && id in s.leases.vms && id in u.leases.vms && u.leases.vms[id] == s.leases.vms[id]
            && s.leases.vms[id] < |s.leases.pool.bindings| && s.leases.vms[id] < |u.leases.pool.bindings|
            && SlotWalk(u, s.leases.vms[id], p) == SlotWalk(s, s.leases.vms[id], p)
  {
    hide Run, SlotWalk, HwWalk, W.View, Next, Sound;
    var s := Run(phys, asPresent, mapped, ops);
    var shs := RunKeepsJoined(phys, asPresent, mapped, ops);
    var shsu := NextKeepsJoined(s, shs, mapped, op);
    SlotWalkIsVmWalk(s, shs, id, p);
    BindingStays(s, shs, mapped, op, id);
    SlotWalkIsVmWalk(Next(s, mapped, op), shsu, id, p);
  }

  /** A VM's slot sees what a walk over memory from its root sees. */
  lemma {:induction false} SlotIsRoot(s: State, shs: map<nat, Shape>, id: nat, p: VPage)
    requires Sound(s, shs) && id in s.world.vms
    ensures id in s.leases.vms && s.leases.vms[id] < |s.leases.pool.bindings|
    ensures SlotWalk(s, s.leases.vms[id], p) == W.PhysWalk(s.world, id, p)
  {
    hide L.LeasesOk, W.WorldOk, HwWalk;
    assert BoundToRoot(s, id);
  }

  /** In every run, as the MMU answers in the VM's slot: a map shows the pages of its
      request up to the one at which memory ran out, an unmap leaves its range untranslated,
      and no other address of the VM changes. */
  lemma {:induction false} SlotShowsRequests(phys: map<Frame, seq<Word>>, asPresent: set<nat>, mapped: bool, ops: seq<Op>,
      id: nat, va: U64, pfns: seq<U64>, a: Attrs, ss: seq<Supply>) returns (done: nat)
    requires forall o | o in ops :: HandleGiven(o)
    requires id in Run(phys, asPresent, mapped, ops).world.vms
    requires |ss| == |pfns| && va % 4096 == 0 && va + |pfns| * 4096 <= TWO_48
    ensures done <= |pfns|
    ensures var s := Run(phys, asPresent, mapped, ops);
            var u, v := Next(s, mapped, MapVm(id, va, pfns, a, ss)), Next(s, mapped, UnmapVm(id, va, ss));
            && id in s.leases.vms && u.leases == s.leases == v.leases && s.leases.vms[id] < |s.leases.pool.bindings|
            && (forall x: U64 | x < TWO_48 ::
                  if va <= x < va + done * 4096
                  then W.ShowsPage(SlotWalk(u, s.leases.vms[id], PageOf(x)), pfns, a, (x - va) / 4096)
                  else SlotWalk(u, s.leases.vms[id], PageOf(x)) == SlotWalk(s, s.leases.vms[id], PageOf(x)))
            && (forall x: U64 | x < TWO_48 ::
                  SlotWalk(v, s.leases.vms[id], PageOf(x)) ==
                  if va <= x < va + |ss| * 4096 then Fault else SlotWalk(s, s.leases.vms[id], PageOf(x)))
  {
    hide Run, SlotWalk, PageOf, W.WorldOk, W.Step, W.PhysWalk, W.ShowsPage, L.LeasesOk;
    var s := Run(phys, asPresent, mapped, ops);
    var shs := RunKeepsJoined(phys, asPresent, mapped, ops);
    var u, v := Next(s, mapped, MapVm(id, va, pfns, a, ss)), Next(s, mapped, UnmapVm(id, va, ss));
    done := W.MapShows(s.world, shs, id, va, pfns, a, ss);
    W.UnmapShows(s.world, shs, id, va, ss);
    var shu := NextKeepsJoined(s, shs, mapped, MapVm(id, va, pfns, a, ss));
    var shv := NextKeepsJoined(s, shs, mapped, UnmapVm(id, va, ss));
    SlotIsRoot(s, shs, id, PageOf(0));
    forall x: U64 | x < TWO_48
      ensures SlotWalk(s, s.leases.vms[id], PageOf(x)) == W.PhysWalk(s.world, id, PageOf(x))
      ensures SlotWalk(u, s.leases.vms[id], PageOf(x)) == W.PhysWalk(u.world, id, PageOf(x))
      ensures SlotWalk(v, s.leases.vms[id], PageOf(x)) == W.PhysWalk(v.world, id, PageOf(x))
    {
      SlotIsRoot(s, shs, id, PageOf(x));
      SlotIsRoot(u, shu, id, PageOf(x));
      SlotIsRoot(v, shv, id, PageOf(x));
    }
  }

  /** In every run, destroying a VM unbinds and frees its slot and gives back exactly its
      page frames; no other VM's slot is bound to one of them. */
  lemma {:induction false} DestroyReleasesBoth(phys: map<Frame, seq<Word>>, asPresent: set<nat>, mapped: bool,
      ops: seq<Op>, id: nat, f: Frame)
    requires forall o | o in ops :: HandleGiven(o)
    requires id in Run(phys, asPresent, mapped, ops).world.vms
    ensures var s := Run(phys, asPresent, mapped, ops);
            var u := Next(s, mapped, DestroyVm(id));
            && id in s.leases.vms && s.leases.vms[id] < |u.leases.pool.bindings|
            && u.leases.pool.bindings[s.leases.vms[id]] == UNBOUND && s.leases.vms[id] !in u.leases.pool.inUse
            && (f in s.world.vms[id].pages ==> f in s.world.phys && f !in u.world.phys)
            && (f !in s.world.vms[id].pages ==> (f in s.world.phys <==> f in u.world.phys))
            && (f in s.world.vms[id].pages ==>
                  forall j | j in u.leases.vms :: j in u.world.vms && BoundToRoot(u, j) && u.world.vms[j].root != f)
  {
    hide Run;
    var s := Run(phys, asPresent, mapped, ops);
    var shs := RunKeepsJoined(phys, asPresent, mapped, ops);
    DestroyBoth(s, shs, mapped, id, f);
  }

  lemma {:induction false} DestroyBoth(s: State, shs: map<nat, Shape>, mapped: bool, id: nat, f: Frame)
    requires Sound(s, shs) && id in s.world.vms
    ensures Sized(s.leases.pool)
    ensures var u := Next(s, mapped, DestroyVm(id));
            && id in s.leases.vms && s.leases.vms[id] < |u.leases.pool.bindings|
            && u.leases.pool.bindings[s.leases.vms[id]] == UNBOUND && s.leases.vms[id] !in u.leases.pool.inUse
            && (f in s.world.vms[id].pages ==> f in s.world.phys && f !in u.world.phys)
            && (f !in s.world.vms[id].pages ==> (f in s.world.phys <==> f in u.world.phys))
            && (f in s.world.vms[id].pages ==>
                  forall j | j in u.leases.vms :: j in u.world.vms && BoundToRoot(u, j) && u.world.vms[j].root != f)
  {
    hide Tree, Sound;
    SoundParts(s, shs, id);
    var u := Next(s, mapped, DestroyVm(id));
    var shsu := NextKeepsJoined(s, shs, mapped, DestroyVm(id));
    hide BoundToRoot;
    SoundParts(u, shsu, id);
    forall j | j in u.leases.vms && f in s.world.vms[id].pages
      ensures j in u.world.vms && BoundToRoot(u, j) && u.world.vms[j].root != f
    {
      SoundParts(u, shsu, j);
    }
  }

  lemma {:induction false} SoundParts(s: State, shs: map<nat, Shape>, id: nat)
    requires Sound(s, shs)
    ensures Sized(s.leases.pool)
    ensures id in s.leases.vms <==> id in s.world.vms
    ensures id in s.leases.vms ==>
              && BoundToRoot(s, id) && s.world.vms[id].root in s.world.vms[id].pages
              && forall f | f in s.world.vms[id].pages :: f in s.world.phys
  {
    hide Tree;
    L.SlotsFacts(s.leases);
    if id in s.world.vms {
      assert id in s.leases.vms && BoundToRoot(s, id);
      W.PagesAreOwned(W.View(s.world, id), shs[id]);
      RootListed(W.View(s.world, id), shs[id]);
    }
  }

  lemma {:induction false} RootListed(t: Tables, sh: Shape)
    requires Tree(t, sh)
    ensures t.root in t.pages
  {
  }
}
