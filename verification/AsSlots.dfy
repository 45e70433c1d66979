/** MMU address-space slots and who leases them: dxgk contexts by handle, VMs by the
    slot number they keep. Handle 0 is NULL. A mask is the set of its bit positions. */
module AsSlots {
  import opened Wrappers

  const AS_SLOT_MAX: nat := 16
  const MCU_AS: nat := 0
  const BRINGUP_AS: nat := 1

  datatype Binding = Binding(bound: bool, hContext: nat, rootPa: nat)

  const UNBOUND: Binding := Binding(false, 0, 0)

  datatype SlotPool = SlotPool(present: set<nat>, inUse: set<nat>, bindings: seq<Binding>)

  datatype Status = Success | NotReady | InvalidParameter | InsufficientResources | HwError

  ghost predicate Sized(p: SlotPool) {
    |p.bindings| == AS_SLOT_MAX
  }

  // ------------------------------------------------------------- the two searches

  /** The first slot from i on bound to this handle, or AS_SLOT_MAX. */
  function FindFrom(bindings: seq<Binding>, h: nat, i: nat): (r: nat)
    requires i <= |bindings| == AS_SLOT_MAX
    ensures i <= r <= AS_SLOT_MAX
    ensures r < AS_SLOT_MAX ==> bindings[r].bound && bindings[r].hContext == h
    ensures forall k | i <= k < r :: !(bindings[k].bound && bindings[k].hContext == h)
    decreases AS_SLOT_MAX - i
  {
    if i == AS_SLOT_MAX || (bindings[i].bound && bindings[i].hContext == h) then i else FindFrom(bindings, h, i + 1)
  }

  /** The first slot from i on that is present and not in use, or AS_SLOT_MAX. */
  function FreeFrom(present: set<nat>, inUse: set<nat>, i: nat): (r: nat)
    requires i <= AS_SLOT_MAX
    ensures i <= r <= AS_SLOT_MAX
    ensures r < AS_SLOT_MAX ==> r in present && r !in inUse
    ensures forall k | i <= k < r :: k !in present || k in inUse
    decreases AS_SLOT_MAX - i
  {
    if i == AS_SLOT_MAX || (i in present && i !in inUse) then i else FreeFrom(present, inUse, i + 1)
  }

  // ------------------------------------------------------------- the operations

  /** WinMaliMmuInitAsAllocator */
  function InitialSlots(asPresent: set<nat>): SlotPool {
    SlotPool((if asPresent == {} then {0, 1, 2, 3, 4, 5, 6, 7} else asPresent) + {MCU_AS, BRINGUP_AS},
         {MCU_AS, BRINGUP_AS}, seq(AS_SLOT_MAX, _ => UNBOUND))
  }

  function Release(p: SlotPool, i: nat): (r: SlotPool)
    requires Sized(p)
    ensures Sized(r)
  {
    if i < AS_SLOT_MAX then p.(inUse := p.inUse - {i}, bindings := p.bindings[i := UNBOUND]) else p
  }

  /** WinMaliMmuUnbindContext */
  function Unbind(p: SlotPool, h: nat): SlotPool
    requires Sized(p)
  {
    Release(p, FindFrom(p.bindings, h, 0))
  }

  datatype Bound = Bound(pool: SlotPool, status: Status, slot: nat)

  /** WinMaliMmuBindContextRootPt once the arguments have been looked at; enabled says
      whether the hardware accepted the address space. */
  function BindSlot(p: SlotPool, h: nat, rootPa: nat, enabled: bool): Bound
    requires Sized(p)
  {
    var found := FindFrom(p.bindings, h, 0);
    var i := if found < AS_SLOT_MAX then found else FreeFrom(p.present, p.inUse, 0);
    if i >= AS_SLOT_MAX then Bound(p, InsufficientResources, AS_SLOT_MAX)
    else if enabled then
      var inUse := if found < AS_SLOT_MAX then p.inUse else p.inUse + {i};
      Bound(p.(inUse := inUse, bindings := p.bindings[i := Binding(true, h, rootPa)]), Success, i)
    else Bound(p.(bindings := p.bindings[i := UNBOUND]), HwError, AS_SLOT_MAX)
  }

  function Bind(p: SlotPool, mapped: bool, h: nat, rootPa: nat, enabled: bool): Bound
    requires Sized(p)
  {
    if !mapped then Bound(p, NotReady, AS_SLOT_MAX)
    else if rootPa == 0 then Bound(Unbind(p, h), Success, AS_SLOT_MAX)
    else if rootPa % 4096 != 0 then Bound(p, InvalidParameter, AS_SLOT_MAX)
    else BindSlot(p, h, rootPa, enabled)
  }

  /** WinMaliMmuVmInit after its root page was allocated */
  function VmInit(p: SlotPool, mapped: bool, rootPa: nat, enabled: bool): Bound
    requires Sized(p)
  {
    var i := FreeFrom(p.present, p.inUse, 0);
    if !mapped then Bound(p, NotReady, AS_SLOT_MAX)
    else if i >= AS_SLOT_MAX then Bound(p, InsufficientResources, AS_SLOT_MAX)
    else if enabled
    then Bound(p.(inUse := p.inUse + {i}, bindings := p.bindings[i := Binding(true, 0, rootPa)]), Success, i)
    else Bound(p.(bindings := p.bindings[i := UNBOUND]), HwError, AS_SLOT_MAX)
  }

  ghost predicate HasSlot(p: SlotPool, h: nat)
    requires Sized(p)
  {
    exists k :: 0 <= k < 16 && p.bindings[k].bound && p.bindings[k].hContext == h
  }

  ghost predicate SomeFree(p: SlotPool) {
    exists k :: 0 <= k < 16 && k in p.present && k !in p.inUse
  }

  /** Which answer a bind gives, and a VM's request for a slot. */
  lemma {:induction false} Answers(p: SlotPool, mapped: bool, h: nat, rootPa: nat, enabled: bool)
    requires Sized(p)
    ensures Bind(p, mapped, h, rootPa, enabled).status ==
            if !mapped then NotReady
            else if rootPa == 0 then Success
            else if rootPa % 4096 != 0 then InvalidParameter
            else if !HasSlot(p, h) && !SomeFree(p) then InsufficientResources
            else if enabled then Success else HwError
    ensures VmInit(p, mapped, rootPa, enabled).status ==
            if !mapped then NotReady
            else if !SomeFree(p) then InsufficientResources
            else if enabled then Success else HwError
    ensures !VmInit(p, mapped, rootPa, enabled).status.Success? ==> VmInit(p, mapped, rootPa, enabled).pool.inUse == p.inUse
  {
    var found, free := FindFrom(p.bindings, h, 0), FreeFrom(p.present, p.inUse, 0);
    assert found < AS_SLOT_MAX <==> HasSlot(p, h);
    assert free < AS_SLOT_MAX <==> SomeFree(p);
  }

  // ------------------------------------------------------------- in place

  class Allocator {
    var present: set<nat>
    var inUse: set<nat>
    const bindings: array<Binding>
    const regsMapped: bool

    function Abs(): SlotPool
      reads this, bindings
    {
      SlotPool(present, inUse, bindings[..])
    }

    ghost predicate Valid() {
      bindings.Length == AS_SLOT_MAX
    }

    constructor (asPresent: set<nat>, regsMapped: bool)
      ensures Valid() && Abs() == InitialSlots(asPresent) && this.regsMapped == regsMapped
      ensures fresh(bindings)
    {
      var mask: set<nat> := if asPresent == {} then {0, 1, 2, 3, 4, 5, 6, 7} else asPresent;
      present := if MCU_AS in mask && BRINGUP_AS in mask then mask else mask + {MCU_AS, BRINGUP_AS};
      inUse := {MCU_AS, BRINGUP_AS};
      bindings := new Binding[AS_SLOT_MAX](_ => UNBOUND);
      this.regsMapped := regsMapped;
      new;
      assert bindings[..] == seq(AS_SLOT_MAX, _ => UNBOUND);
    }

    method FindAsForContext(h: nat) returns (i: nat)
      requires Valid()
      ensures i == FindFrom(bindings[..], h, 0)
    {
      i := 0;
      while i < AS_SLOT_MAX
        invariant i <= AS_SLOT_MAX
        invariant FindFrom(bindings[..], h, 0) == FindFrom(bindings[..], h, i)
      {
        if bindings[i].bound && bindings[i].hContext == h { return; }
        i := i + 1;
      }
    }

    method PickFreeAs() returns (i: nat)
      ensures i == FreeFrom(present, inUse, 0)
    {
      i := 0;
      while i < AS_SLOT_MAX
        invariant i <= AS_SLOT_MAX
        invariant FreeFrom(present, inUse, 0) == FreeFrom(present, inUse, i)
      {
        if i in present && i !in inUse { return; }
        i := i + 1;
      }
    }

    method VmReleaseAs(i: nat)
      requires Valid()
      modifies this`inUse, bindings
      ensures Abs() == Release(old(Abs()), i)
    {
      if i >= AS_SLOT_MAX { return; }
      bindings[i] := UNBOUND;
      inUse := inUse - {i};
    }

    method UnbindContext(h: nat)
      requires Valid()
      modifies this`inUse, bindings
      ensures Abs() == Unbind(old(Abs()), h)
    {
      var i := FindAsForContext(h);
      if i >= AS_SLOT_MAX { return; }
      bindings[i] := UNBOUND;
      inUse := inUse - {i};
    }

    method BindContextRootPt(h: nat, rootPa: nat, enabled: bool) returns (status: Status, slot: nat)
      requires Valid()
      modifies this`inUse, bindings
      ensures Bound(Abs(), status, slot) == Bind(old(Abs()), regsMapped, h, rootPa, enabled)
    {
      hide FindFrom;
      hide FreeFrom;
      slot := AS_SLOT_MAX;
      if !regsMapped { return NotReady, slot; }
      if rootPa == 0 {
        UnbindContext(h);
        return Success, slot;
      }
      if rootPa % 4096 != 0 { return InvalidParameter, slot; }
      var i := FindAsForContext(h);
      var reused := i < AS_SLOT_MAX;
      if !reused {
        i := PickFreeAs();
        if i >= AS_SLOT_MAX { return InsufficientResources, slot; }
        inUse := inUse + {i};
      }
      bindings[i] := Binding(true, h, rootPa);
      if !enabled {
        bindings[i] := UNBOUND;
        if !reused { inUse := inUse - {i}; }
        assert inUse == old(inUse);
        return HwError, slot;
      }
      return Success, i;
    }

    method VmPickAs() returns (i: nat)
      requires Valid()
      modifies this`inUse, bindings
      ensures i == FreeFrom(present, old(inUse), 0)
      ensures i < AS_SLOT_MAX ==>
                Abs() == old(Abs()).(inUse := old(inUse) + {i}, bindings := old(bindings[..])[i := Binding(true, 0, 0)])
      ensures i >= AS_SLOT_MAX ==> Abs() == old(Abs())
    {
      i := PickFreeAs();
      if i < AS_SLOT_MAX {
        inUse := inUse + {i};
        bindings[i] := Binding(true, 0, 0);
      }
    }

    method VmInitSlot(rootPa: nat, enabled: bool) returns (status: Status, slot: nat)
      requires Valid()
      modifies this`inUse, bindings
      ensures Bound(Abs(), status, slot) == VmInit(old(Abs()), regsMapped, rootPa, enabled)
    {
      hide FreeFrom;
      slot := AS_SLOT_MAX;
      if !regsMapped { return NotReady, slot; }
      var i := VmPickAs();
      if i >= AS_SLOT_MAX { return InsufficientResources, slot; }
      if !enabled {
        VmReleaseAs(i);
        assert inUse == old(inUse);
        return HwError, slot;
      }
      bindings[i] := bindings[i].(rootPa := rootPa);
      return Success, i;
    }
  }
}
