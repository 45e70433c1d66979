/** Leases over whole runs: any sequence of context binds and unbinds and VM creations
    and teardowns, with the hardware refusing any of them. */
module AsLeases {
  import opened AsSlots

  /** vms maps each live VM to the slot number it keeps (VmPt->AsSlot). */
  datatype State = State(pool: SlotPool, vms: map<nat, nat>)

  datatype Op =
    | BindContext(h: nat, rootPa: nat, enabled: bool)
    | UnbindContext(h: nat)
    | CreateVm(id: nat, rootPa: nat, enabled: bool)
    | DestroyVm(id: nat)

  /** Ids of live VMs are not given out again. */
  function Next(s: State, mapped: bool, op: Op): State
    requires Sized(s.pool)
  {
    match op
    case BindContext(h, rootPa, enabled) => s.(pool := Bind(s.pool, mapped, h, rootPa, enabled).pool)
    case UnbindContext(h) => s.(pool := Unbind(s.pool, h))
    case CreateVm(id, rootPa, enabled) =>
      if id in s.vms then s
      else
        var b := VmInit(s.pool, mapped, rootPa, enabled);
        State(b.pool, if b.status.Success? then s.vms[id := b.slot] else s.vms)
    case DestroyVm(id) =>
      if id in s.vms then State(Release(s.pool, s.vms[id]), s.vms - {id}) else s
  }

  ghost function Run(asPresent: set<nat>, mapped: bool, ops: seq<Op>): (s: State)
    ensures Sized(s.pool)
    decreases |ops|
  {
    if ops == [] then State(InitialSlots(asPresent), map[])
    else Next(Run(asPresent, mapped, ops[..|ops| - 1]), mapped, ops[|ops| - 1])
  }

  /** dxgk never passes a NULL context handle. */
  predicate HandleGiven(op: Op) {
    match op
    case BindContext(h, _, _) => h != 0
    case UnbindContext(h) => h != 0
    case _ => true
  }

  // ------------------------------------------------------------- who holds what

  datatype Holder = Context(h: nat) | Vm(id: nat)

  predicate Holds(s: State, who: Holder, i: nat) {
    match who
    case Context(h) => h != 0 && i < |s.pool.bindings| && s.pool.bindings[i].bound && s.pool.bindings[i].hContext == h
    case Vm(id) => id in s.vms && s.vms[id] == i
  }

  /** A slot marked in use that nobody holds. */
  predicate Leaked(p: SlotPool, i: nat) {
    i in p.inUse && i != MCU_AS && i != BRINGUP_AS && i < |p.bindings| && !p.bindings[i].bound
  }

  ghost predicate SlotsOk(p: SlotPool) {
    && Sized(p)
    && MCU_AS in p.inUse && BRINGUP_AS in p.inUse
    && p.inUse <= p.present
    && (forall i | 0 <= i < AS_SLOT_MAX :: p.bindings[i].bound ==> i in p.inUse && i != MCU_AS && i != BRINGUP_AS)
  }

  ghost predicate ContextsOk(p: SlotPool) {
    && Sized(p)
    && forall i, j | 0 <= i < j < AS_SLOT_MAX ::
         p.bindings[i].bound && p.bindings[j].bound && p.bindings[i].hContext == p.bindings[j].hContext ==>
           p.bindings[i].hContext == 0
  }

  ghost predicate VmsOk(s: State) {
    && Sized(s.pool)
    && (forall v | v in s.vms ::
          s.vms[v] < AS_SLOT_MAX && s.pool.bindings[s.vms[v]].bound && s.pool.bindings[s.vms[v]].hContext == 0)
    && (forall v, w | v in s.vms && w in s.vms && v != w :: s.vms[v] != s.vms[w])
    && (forall i | 0 <= i < AS_SLOT_MAX && s.pool.bindings[i].bound && s.pool.bindings[i].hContext == 0 ::
          exists v :: v in s.vms && s.vms[v] == i)
  }

  ghost predicate LeasesOk(s: State) {
    SlotsOk(s.pool) && ContextsOk(s.pool) && VmsOk(s)
  }

  lemma {:induction false} InitialLeases(asPresent: set<nat>)
    ensures LeasesOk(State(InitialSlots(asPresent), map[]))
  {
  }

  /** Clearing a slot that is bound to a context. */
  lemma {:induction false} ReleaseContextKeeps(s: State, i: nat)
    requires LeasesOk(s) && i < AS_SLOT_MAX
    requires s.pool.bindings[i].bound && s.pool.bindings[i].hContext != 0
    ensures LeasesOk(s.(pool := Release(s.pool, i)))
    ensures LeasesOk(s.(pool := s.pool.(bindings := s.pool.bindings[i := UNBOUND])))
  {
    var q := Release(s.pool, i);
    forall k | 0 <= k < AS_SLOT_MAX && q.bindings[k].bound && q.bindings[k].hContext == 0
      ensures exists v :: v in s.vms && s.vms[v] == k
    {
      assert s.pool.bindings[k] == q.bindings[k];
    }
  }

  /** Giving a context a slot it holds already, or a free one. */
  lemma {:induction false} GiveContextKeeps(s: State, i: nat, h: nat, rootPa: nat)
    requires LeasesOk(s) && h != 0 && i < AS_SLOT_MAX
    requires s.pool.bindings[i].bound ==> s.pool.bindings[i].hContext == h
    requires i in s.pool.present && i != MCU_AS && i != BRINGUP_AS
    requires forall k | 0 <= k < AS_SLOT_MAX && k != i :: !(s.pool.bindings[k].bound && s.pool.bindings[k].hContext == h)
    ensures LeasesOk(s.(pool := s.pool.(inUse := s.pool.inUse + {i},
                                        bindings := s.pool.bindings[i := Binding(true, h, rootPa)])))
  {
    var q := s.pool.bindings[i := Binding(true, h, rootPa)];
    forall k | 0 <= k < AS_SLOT_MAX && q[k].bound && q[k].hContext == 0
      ensures exists v :: v in s.vms && s.vms[v] == k
    {
      assert s.pool.bindings[k] == q[k];
    }
  }

  lemma {:induction false} BindKeepsLeases(s: State, mapped: bool, h: nat, rootPa: nat, enabled: bool)
    requires LeasesOk(s) && h != 0
    ensures LeasesOk(s.(pool := Bind(s.pool, mapped, h, rootPa, enabled).pool))
  {
    hide LeasesOk;
    var p := s.pool;
    SlotsFacts(s);
    var found := FindFrom(p.bindings, h, 0);
    var free := FreeFrom(p.present, p.inUse, 0);
    if found < AS_SLOT_MAX {
      SlotsAt(s, found);
      OnlyOne(s, h, found);
      ReleaseContextKeeps(s, found);
      GiveContextKeeps(s, found, h, rootPa);
      assert p.inUse + {found} == p.inUse;
    } else {
      if free < AS_SLOT_MAX {
        SlotsAt(s, free);
        GiveContextKeeps(s, free, h, rootPa);
        assert p.bindings[free := UNBOUND] == p.bindings || p.bindings[free] != UNBOUND;
        ClearUnboundKeeps(s, free);
      }
    }
    assert s.(pool := p) == s;
  }

  lemma {:induction false} SlotsFacts(s: State)
    requires LeasesOk(s)
    ensures Sized(s.pool)
  {
  }

  lemma {:induction false} SlotsAt(s: State, i: nat)
    requires LeasesOk(s) && i < AS_SLOT_MAX
    ensures s.pool.bindings[i].bound ==> i in s.pool.inUse && i in s.pool.present && i != MCU_AS && i != BRINGUP_AS
    ensures i !in s.pool.inUse ==> !s.pool.bindings[i].bound && i != MCU_AS && i != BRINGUP_AS
  {
  }

  lemma {:induction false} OnlyOne(s: State, h: nat, i: nat)
    requires LeasesOk(s) && h != 0 && i < AS_SLOT_MAX && s.pool.bindings[i].bound && s.pool.bindings[i].hContext == h
    ensures forall k | 0 <= k < AS_SLOT_MAX && k != i :: !(s.pool.bindings[k].bound && s.pool.bindings[k].hContext == h)
  {
  }

  lemma {:induction false} ClearUnboundKeeps(s: State, i: nat)
    requires LeasesOk(s) && i < AS_SLOT_MAX && !s.pool.bindings[i].bound
    ensures LeasesOk(s.(pool := s.pool.(bindings := s.pool.bindings[i := UNBOUND])))
  {
    var q := s.pool.bindings[i := UNBOUND];
    forall k | 0 <= k < AS_SLOT_MAX && q[k].bound && q[k].hContext == 0
      ensures exists v :: v in s.vms && s.vms[v] == k
    {
      assert s.pool.bindings[k] == q[k];
    }
  }

  lemma {:induction false} GiveVmKeeps(s: State, i: nat, id: nat, rootPa: nat)
    requires LeasesOk(s) && i < AS_SLOT_MAX && id !in s.vms
    requires i in s.pool.present && i !in s.pool.inUse
    ensures LeasesOk(State(s.pool.(inUse := s.pool.inUse + {i},
                                   bindings := s.pool.bindings[i := Binding(true, 0, rootPa)]),
                           s.vms[id := i]))
  {
    var q, vms := s.pool.bindings[i := Binding(true, 0, rootPa)], s.vms[id := i];
    SlotsAt(s, i);
    forall k | 0 <= k < AS_SLOT_MAX && q[k].bound && q[k].hContext == 0
      ensures exists v :: v in vms && vms[v] == k
    {
      if k == i {
        assert vms[id] == k;
      } else {
        var v :| v in s.vms && s.vms[v] == k;
        assert vms[v] == k;
      }
    }
    assert forall v | v in s.vms :: s.vms[v] != i;
  }

  lemma {:induction false} DestroyVmKeeps(s: State, id: nat)
    requires LeasesOk(s) && id in s.vms
    ensures LeasesOk(State(Release(s.pool, s.vms[id]), s.vms - {id}))
  {
    var q, vms := Release(s.pool, s.vms[id]).bindings, s.vms - {id};
    forall k | 0 <= k < AS_SLOT_MAX && q[k].bound && q[k].hContext == 0
      ensures exists v :: v in vms && vms[v] == k
    {
      var v :| v in s.vms && s.vms[v] == k;
      assert v in vms && vms[v] == k;
    }
  }

  lemma {:induction false} NextKeepsLeases(s: State, mapped: bool, op: Op)
    requires LeasesOk(s) && HandleGiven(op)
    ensures Sized(s.pool) && LeasesOk(Next(s, mapped, op))
  {
    hide LeasesOk;
    hide Bind;
    SlotsFacts(s);
    match op {
      case BindContext(h, rootPa, enabled) => BindKeepsLeases(s, mapped, h, rootPa, enabled);
      case UnbindContext(h) => BindKeepsLeases(s, true, h, 0, true); UnbindIsBindZero(s.pool, h);
      case CreateVm(id, rootPa, enabled) =>
        var i := FreeFrom(s.pool.present, s.pool.inUse, 0);
        if i < AS_SLOT_MAX && id !in s.vms {
          SlotsAt(s, i);
          GiveVmKeeps(s, i, id, rootPa);
          ClearUnboundKeeps(s, i);
        }
        assert State(s.pool, s.vms) == s;
      case DestroyVm(id) => if id in s.vms { DestroyVmKeeps(s, id); }
    }
  }

  lemma {:induction false} UnbindIsBindZero(p: SlotPool, h: nat)
    requires Sized(p)
    ensures Bind(p, true, h, 0, true).pool == Unbind(p, h)
  {
  }

  lemma {:induction false} RunKeepsLeases(asPresent: set<nat>, mapped: bool, ops: seq<Op>)
    requires forall op | op in ops :: HandleGiven(op)
    ensures LeasesOk(Run(asPresent, mapped, ops))
    decreases |ops|
  {
    hide LeasesOk;
    hide Next;
    if ops == [] {
      InitialLeases(asPresent);
    } else {
      var n := |ops| - 1;
      RunKeepsLeases(asPresent, mapped, ops[..n]);
      assert ops[n] in ops;
      NextKeepsLeases(Run(asPresent, mapped, ops[..n]), mapped, ops[n]);
    }
  }

  lemma {:induction false} PresentKept(s: State, mapped: bool, op: Op)
    requires Sized(s.pool)
    ensures Next(s, mapped, op).pool.present == s.pool.present
  {
  }

  /** In every run the slots that can be given out are those the hardware reports, or the
      first eight when it reports none, the firmware's and the bring-up slot among them. */
  lemma {:induction false} PresentIsReported(asPresent: set<nat>, mapped: bool, ops: seq<Op>)
    ensures Run(asPresent, mapped, ops).pool.present ==
            (if asPresent == {} then {0, 1, 2, 3, 4, 5, 6, 7} else asPresent) + {0, 1}
    decreases |ops|
  {
    hide Next;
    if ops != [] {
      PresentIsReported(asPresent, mapped, ops[..|ops| - 1]);
      PresentKept(Run(asPresent, mapped, ops[..|ops| - 1]), mapped, ops[|ops| - 1]);
    }
  }

  /** After a successful bind the context holds one slot, it shows exactly the root asked
      for, and no other slot has changed; asked for no root, it holds none. */
  lemma {:induction false} BindShowsRoot(s: State, mapped: bool, h: nat, rootPa: nat, enabled: bool)
    requires LeasesOk(s) && h != 0
    ensures Sized(s.pool)
    ensures var b := Bind(s.pool, mapped, h, rootPa, enabled);
            b.status == Success ==>
              && Sized(b.pool)
              && (rootPa != 0 ==>
                    && b.slot < AS_SLOT_MAX && b.pool.bindings[b.slot] == Binding(true, h, rootPa) && b.slot in b.pool.inUse
                    && (forall i | 0 <= i < AS_SLOT_MAX && i != b.slot :: b.pool.bindings[i] == s.pool.bindings[i])
                    && (forall i | 0 <= i < AS_SLOT_MAX :: Holds(s.(pool := b.pool), Context(h), i) <==> i == b.slot))
              && (rootPa == 0 ==> forall i | 0 <= i < AS_SLOT_MAX :: !Holds(s.(pool := b.pool), Context(h), i))
  {
    hide LeasesOk;
    SlotsFacts(s);
    var found := FindFrom(s.pool.bindings, h, 0);
    if found < AS_SLOT_MAX {
      OnlyOne(s, h, found);
      SlotsAt(s, found);
    }
  }

  /** In every run: a held slot exists, is marked in use and is neither the firmware's
      nor the bring-up one; no two holders share a slot; no holder has two. */
  lemma {:induction false} SlotsAreExclusive(asPresent: set<nat>, mapped: bool, ops: seq<Op>, a: Holder, b: Holder,
      i: nat, j: nat)
    requires forall op | op in ops :: HandleGiven(op)
    requires var s := Run(asPresent, mapped, ops); Holds(s, a, i) && Holds(s, b, j)
    ensures var s := Run(asPresent, mapped, ops);
            && i in s.pool.present && i in s.pool.inUse && i != MCU_AS && i != BRINGUP_AS
            && (i == j <==> a == b)
  {
    RunKeepsLeases(asPresent, mapped, ops);
    var s := Run(asPresent, mapped, ops);
    hide Run;
    HoldersAreExclusive(s, a, b, i, j);
  }

  lemma {:induction false} HoldersAreExclusive(s: State, a: Holder, b: Holder, i: nat, j: nat)
    requires LeasesOk(s) && Holds(s, a, i) && Holds(s, b, j)
    ensures i in s.pool.present && i in s.pool.inUse && i != MCU_AS && i != BRINGUP_AS
    ensures i == j <==> a == b
  {
  }

  /** The condition on handles is needed: a NULL handle finds the first VM's slot, so
      binding with it takes that slot over, and unbinding frees it under the VM. */
  lemma {:induction false} NullHandleHitsAVm(s: State, rootPa: nat)
    requires LeasesOk(s) && s.vms != map[]
    requires rootPa != 0 && rootPa % 4096 == 0
    ensures Sized(s.pool)
    ensures exists v :: v in s.vms && Bind(s.pool, true, 0, rootPa, true).slot == s.vms[v]
    ensures exists v :: v in s.vms && s.vms[v] !in Unbind(s.pool, 0).inUse
  {
  }

  // ------------------------------------------------------------- leaked slots

  predicate Rebinds(p: SlotPool, h: nat)
    requires Sized(p)
  {
    FindFrom(p.bindings, h, 0) < AS_SLOT_MAX
  }

  predicate FailsOnRebind(s: State, mapped: bool, op: Op)
    requires Sized(s.pool)
  {
    && mapped && op.BindContext? && !op.enabled && op.rootPa != 0 && op.rootPa % 4096 == 0
    && Rebinds(s.pool, op.h)
  }

  lemma {:induction false} BindLeaks(s: State, mapped: bool, h: nat, rootPa: nat, enabled: bool, i: nat)
    requires LeasesOk(s) && h != 0
    ensures Sized(s.pool)
    ensures Leaked(Bind(s.pool, mapped, h, rootPa, enabled).pool, i) <==>
              Leaked(s.pool, i) ||
              (FailsOnRebind(s, mapped, BindContext(h, rootPa, enabled)) && i == FindFrom(s.pool.bindings, h, 0))
  {
    hide LeasesOk;
    SlotsFacts(s);
    var found := FindFrom(s.pool.bindings, h, 0);
    var free := FreeFrom(s.pool.present, s.pool.inUse, 0);
    if found < AS_SLOT_MAX { SlotsAt(s, found); } else if free < AS_SLOT_MAX { SlotsAt(s, free); }
  }

  lemma {:induction false} VmOpsLeakNothing(s: State, mapped: bool, op: Op, i: nat)
    requires LeasesOk(s) && (op.CreateVm? || op.DestroyVm?)
    ensures Sized(s.pool)
    ensures Leaked(Next(s, mapped, op).pool, i) <==> Leaked(s.pool, i)
  {
  }

  /** A slot becomes leaked exactly by a bind the hardware refuses for a context that
      had a slot; a leaked slot stays so. */
  lemma {:induction false} LeaksExactlyOnFailedRebind(s: State, mapped: bool, op: Op, i: nat)
    requires LeasesOk(s) && HandleGiven(op)
    ensures Sized(s.pool)
    ensures Leaked(Next(s, mapped, op).pool, i) <==>
              Leaked(s.pool, i) || (FailsOnRebind(s, mapped, op) && i == FindFrom(s.pool.bindings, op.h, 0))
  {
    hide LeasesOk;
    hide Bind;
    hide Unbind;
    hide Leaked;
    match op {
      case BindContext(h, rootPa, enabled) => BindLeaks(s, mapped, h, rootPa, enabled, i);
      case UnbindContext(h) => BindLeaks(s, true, h, 0, true, i); UnbindIsBindZero(s.pool, h);
      case CreateVm(_, _, _) => VmOpsLeakNothing(s, mapped, op, i);
      case DestroyVm(_) => VmOpsLeakNothing(s, mapped, op, i);
    }
  }

  lemma {:induction false} RunSnoc(asPresent: set<nat>, mapped: bool, ops: seq<Op>, op: Op)
    ensures Run(asPresent, mapped, ops + [op]) == Next(Run(asPresent, mapped, ops), mapped, op)
  {
    hide Next;
    assert (ops + [op])[..|ops|] == ops;
  }

  /** A slot does leak: with the default mask a context is bound to the first free slot,
      and a second bind of it is refused by the hardware. */
  lemma {:induction false} LeakIsReached(h: nat, rootPa: nat) returns (ops: seq<Op>)
    requires h != 0 && rootPa != 0 && rootPa % 4096 == 0
    ensures (forall op | op in ops :: HandleGiven(op)) && Leaked(Run({}, true, ops).pool, 2)
  {
    var s0, one, two := Run({}, true, []), BindContext(h, rootPa, true), BindContext(h, rootPa, false);
    FirstBind(s0, h, rootPa);
    hide Run;
    RunSnoc({}, true, [], one);
    assert [] + [one] == [one];
    SecondBind(Run({}, true, [one]), h, rootPa);
    RunSnoc({}, true, [one], two);
    ops := [one] + [two];
  }

  lemma {:induction false} FirstBind(s: State, h: nat, rootPa: nat)
    requires s == State(InitialSlots({}), map[]) && rootPa != 0 && rootPa % 4096 == 0
    ensures var t := Next(s, true, BindContext(h, rootPa, true));
            && Sized(t.pool) && 2 in t.pool.inUse && t.pool.bindings[2] == Binding(true, h, rootPa)
            && FindFrom(t.pool.bindings, h, 0) == 2
  {
    var p := s.pool;
    assert FreeFrom(p.present, p.inUse, 0) == 2 by {
      assert 0 in p.inUse && 1 in p.inUse && 2 in p.present && 2 !in p.inUse;
    }
    var found := FindFrom(p.bindings, h, 0);
    assert found == AS_SLOT_MAX;
    var q := p.bindings[2 := Binding(true, h, rootPa)];
    var again := FindFrom(q, h, 0);
    assert again == 2 by { assert !q[0].bound && !q[1].bound && q[2].bound; }
  }

  lemma {:induction false} SecondBind(s: State, h: nat, rootPa: nat)
    requires Sized(s.pool) && 2 in s.pool.inUse && FindFrom(s.pool.bindings, h, 0) == 2
    requires rootPa != 0 && rootPa % 4096 == 0
    ensures Leaked(Next(s, true, BindContext(h, rootPa, false)).pool, 2)
  {
  }
}
