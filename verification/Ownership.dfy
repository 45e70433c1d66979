/** The adapter's four tables together with the address-space slots its VMs lease:
    creating and destroying VMs, and the rundown when a device goes away. */
module Ownership {
  import opened Wrappers
  import opened AsSlots
  import opened AsLeases
  import opened HandleTables

  /** Which slot each listed VM keeps, by creation number. */
  function LeasesOf(vms: seq<Entry>): (m: map<nat, nat>)
    ensures m.Keys == Serials(vms)
  {
    if vms == [] then map[]
    else
      assert vms == vms[..|vms| - 1] + [vms[|vms| - 1]];
      LeasesOf(vms[..|vms| - 1])[vms[|vms| - 1].serial := vms[|vms| - 1].slot]
  }

  function Serials(vms: seq<Entry>): set<nat> {
    set e | e in vms :: e.serial
  }

  /** Frees the slots of a list of VMs, front to back. */
  function ReleaseAll(p: SlotPool, vms: seq<Entry>): (r: SlotPool)
    requires Sized(p)
    ensures Sized(r)
    decreases vms
  {
    if vms == [] then p else ReleaseAll(Release(p, vms[0].slot), vms[1..])
  }

  predicate Uses(vms: seq<Entry>, slot: nat) {
    exists e :: e in vms && e.slot == slot
  }

  /** Freeing a list of VMs clears exactly their slots' bits and bindings. */
  lemma {:induction false} ReleaseAllClears(p: SlotPool, vms: seq<Entry>, i: nat)
    requires Sized(p) && i < AS_SLOT_MAX
    ensures i in ReleaseAll(p, vms).inUse <==> i in p.inUse && !Uses(vms, i)
    ensures ReleaseAll(p, vms).bindings[i] == if Uses(vms, i) then UNBOUND else p.bindings[i]
    ensures ReleaseAll(p, vms).present == p.present
    decreases vms
  {
    if vms != [] {
      ReleaseAllClears(Release(p, vms[0].slot), vms[1..], i);
      assert Uses(vms, i) <==> vms[0].slot == i || Uses(vms[1..], i) by {
        if vms[0].slot == i { assert vms[0] in vms; }
        if Uses(vms[1..], i) { var e :| e in vms[1..] && e.slot == i; assert e in vms; }
      }
    }
  }

  /** Creation numbers tell listed entries apart. */
  lemma {:induction false} SameSerialSameEntry(q: seq<Entry>, created: nat, e: Entry, f: Entry)
    requires InOrder(q, created) && e in q && f in q && e.serial == f.serial
    ensures e == f
  {
  }

  lemma {:induction false} LeaseOfEntry(vms: seq<Entry>, created: nat, e: Entry)
    requires InOrder(vms, created) && e in vms
    ensures e.serial in LeasesOf(vms) && LeasesOf(vms)[e.serial] == e.slot
  {
    hide HandleOf;
    var n := |vms| - 1;
    assert vms == vms[..n] + [vms[n]];
    if e.serial == vms[n].serial {
      SameSerialSameEntry(vms, created, e, vms[n]);
    } else {
      LeaseOfEntry(vms[..n], created, e);
    }
  }

  /** Entries taken out of the list are leases taken out of the map. */
  lemma {:induction false} LeasesWithout(vms: seq<Entry>, kept: seq<Entry>, gone: set<nat>, created: nat)
    requires InOrder(vms, created) && InOrder(kept, created)
    requires forall e :: e in kept <==> e in vms && e.serial !in gone
    ensures LeasesOf(kept) == LeasesOf(vms) - gone
  {
    hide LeasesOf;
    hide InOrder;
    var a, b := LeasesOf(kept), LeasesOf(vms) - gone;
    forall v
      ensures v in a <==> v in b
      ensures v in a ==> a[v] == b[v]
    {
      if v in a {
        var e :| e in kept && e.serial == v;
        LeaseOfEntry(kept, created, e);
        LeaseOfEntry(vms, created, e);
      }
      if v in b {
        var e :| e in vms && e.serial == v;
        LeaseOfEntry(kept, created, e);
      }
    }
    assert a == b;
  }

  lemma {:induction false} RemovalKeepsOrder(q: seq<Entry>, i: nat, created: nat)
    requires InOrder(q, created) && i < |q|
    ensures InOrder(q[..i] + q[i + 1..], created)
  {
  }

  lemma {:induction false} RemovalDropsOne(q: seq<Entry>, i: nat, created: nat, e: Entry)
    requires InOrder(q, created) && i < |q|
    ensures e in q[..i] + q[i + 1..] <==> e in q && e.serial != q[i].serial
  {
  }

  lemma {:induction false} WithoutOne(vms: seq<Entry>, i: nat, created: nat)
    requires InOrder(vms, created) && i < |vms|
    ensures InOrder(vms[..i] + vms[i + 1..], created)
    ensures LeasesOf(vms[..i] + vms[i + 1..]) == LeasesOf(vms) - {vms[i].serial}
  {
    hide LeasesOf;
    hide InOrder;
    RemovalKeepsOrder(vms, i, created);
    forall e { RemovalDropsOne(vms, i, created, e); }
    LeasesWithout(vms, vms[..i] + vms[i + 1..], {vms[i].serial}, created);
  }

  /** Freeing VMs one by one, as the lease model does. */
  function DestroyAll(s: State, vms: seq<Entry>): State
    requires Sized(s.pool)
    decreases vms
  {
    if vms == [] then s else DestroyAll(Next(s, true, DestroyVm(vms[0].serial)), vms[1..])
  }

  ghost predicate Listed(s: State, vms: seq<Entry>) {
    forall e | e in vms :: e.serial in s.vms && s.vms[e.serial] == e.slot
  }

  lemma {:induction false} DestroyAllReleasesAll(s: State, vms: seq<Entry>, created: nat)
    requires Sized(s.pool) && Listed(s, vms) && InOrder(vms, created)
    ensures DestroyAll(s, vms).pool == ReleaseAll(s.pool, vms)
    ensures DestroyAll(s, vms).vms == s.vms - Serials(vms)
    decreases vms
  {
    hide HandleOf;
    hide InOrder;
    hide Release;
    if vms == [] {
      assert s.vms - Serials(vms) == s.vms;
    } else {
      var n := Next(s, true, DestroyVm(vms[0].serial));
      TailInOrder(vms, created);
      DestroyAllReleasesAll(n, vms[1..], created);
      assert vms == [vms[0]] + vms[1..];
      assert Serials(vms) == {vms[0].serial} + Serials(vms[1..]);
      assert s.vms - Serials(vms) == n.vms - Serials(vms[1..]);
    }
  }

  lemma {:induction false} DestroyAllKeepsLeases(s: State, vms: seq<Entry>)
    requires LeasesOk(s)
    ensures Sized(s.pool) && LeasesOk(DestroyAll(s, vms))
    decreases vms
  {
    hide LeasesOk;
    hide Next;
    SlotsFacts(s);
    if vms != [] {
      NextKeepsLeases(s, true, DestroyVm(vms[0].serial));
      SlotsFacts(Next(s, true, DestroyVm(vms[0].serial)));
      DestroyAllKeepsLeases(Next(s, true, DestroyVm(vms[0].serial)), vms[1..]);
    }
  }

  /** Running a device's VMs down leaves the others' leases, and the pool consistent. */
  lemma {:induction false} RundownKeepsLeases(p: SlotPool, vms: seq<Entry>, created: nat, owner: nat)
    requires InOrder(vms, created) && LeasesOk(State(p, LeasesOf(vms)))
    ensures Sized(p)
    ensures LeasesOk(State(ReleaseAll(p, OwnedBy(vms, owner)), LeasesOf(OthersThan(vms, owner))))
  {
    hide LeasesOk;
    hide LeasesOf;
    hide InOrder;
    var s := State(p, LeasesOf(vms));
    SlotsFacts(s);
    var gone, kept := OwnedBy(vms, owner), OthersThan(vms, owner);
    OthersKeepOrder(vms, owner, created);
    OwnedKeepOrder(vms, owner, created);
    forall e | e in gone
      ensures e.serial in s.vms && s.vms[e.serial] == e.slot
    {
      LeaseOfEntry(vms, created, e);
    }
    DestroyAllReleasesAll(s, gone, created);
    DestroyAllKeepsLeases(s, gone);
    forall e
      ensures e in kept <==> e in vms && e.serial !in Serials(gone)
    {
      if e in vms && e.serial in Serials(gone) {
        var f :| f in gone && f.serial == e.serial;
        SameSerialSameEntry(vms, created, e, f);
      }
    }
    LeasesWithout(vms, kept, Serials(gone), created);
  }

  class Adapter {
    const slots: Allocator
    const groups: HandleTable
    const bos: HandleTable
    const syncs: HandleTable
    const vms: HandleTable

    ghost function Leases(): State
      reads slots, slots.bindings, vms
    {
      State(slots.Abs(), LeasesOf(vms.head))
    }

    ghost predicate Distinct() {
      && groups != bos && groups != syncs && groups != vms && bos != syncs && bos != vms && syncs != vms
    }

    ghost predicate Valid()
      reads slots, slots.bindings, groups, bos, syncs, vms
    {
      && Distinct()
      && slots.Valid() && groups.Valid() && bos.Valid() && syncs.Valid() && vms.Valid()
      && LeasesOk(Leases())
    }

    constructor (asPresent: set<nat>, regsMapped: bool)
      ensures Valid() && vms.head == [] && slots.Abs() == InitialSlots(asPresent)
      ensures fresh(slots) && fresh(slots.bindings) && fresh(groups) && fresh(bos) && fresh(syncs) && fresh(vms)
    {
      slots := new Allocator(asPresent, regsMapped);
      groups := new HandleTable();
      bos := new HandleTable();
      syncs := new HandleTable();
      vms := new HandleTable();
      new;
      InitialLeases(asPresent);
    }

    /** WinMaliVmCreate once its memory is allocated; enabled is the hardware's answer. */
    method VmCreate(owner: nat, rootPa: nat, enabled: bool) returns (status: Status, id: nat)
      requires Valid()
      modifies slots, slots.bindings, vms
      ensures Valid()
      ensures Leases() == Next(old(Leases()), slots.regsMapped, CreateVm(old(vms.created), rootPa, enabled))
      ensures status == Success ==>
                exists slot :: vms.head == old(vms.head) + [Entry(id, owner, slot, old(vms.created))]
      ensures status != Success ==> vms.head == old(vms.head) && slots.Abs().inUse == old(slots.Abs().inUse)
    {
      hide LeasesOk;
      hide VmInit;
      ghost var s := Leases();
      NewSerial(vms.head, vms.created);
      NextKeepsLeases(s, slots.regsMapped, CreateVm(vms.created, rootPa, enabled));
      InitOutcome(slots.Abs(), slots.regsMapped, rootPa, enabled);
      var slot;
      status, slot := slots.VmInitSlot(rootPa, enabled);
      id := 0;
      if status == Success {
        ghost var before := vms.head;
        id := vms.Insert(owner, slot);
        assert vms.head[..|before|] == before;
      }
    }

    lemma {:induction false} NewSerial(q: seq<Entry>, created: nat)
      requires InOrder(q, created)
      ensures created !in LeasesOf(q)
    {
    }

    lemma {:induction false} InitOutcome(p: SlotPool, mapped: bool, rootPa: nat, enabled: bool)
      requires Sized(p)
      ensures var b := VmInit(p, mapped, rootPa, enabled);
              !b.status.Success? ==> b.pool.inUse == p.inUse
    {
    }

    lemma {:induction false} DestroyOne(s: State, q: seq<Entry>, i: nat, created: nat)
      requires LeasesOk(s) && s.vms == LeasesOf(q) && InOrder(q, created) && i < |q|
      ensures Sized(s.pool)
      ensures Next(s, true, DestroyVm(q[i].serial)) == State(Release(s.pool, q[i].slot), LeasesOf(q[..i] + q[i + 1..]))
      ensures LeasesOk(Next(s, true, DestroyVm(q[i].serial)))
    {
      hide LeasesOk;
      hide LeasesOf;
      hide InOrder;
      hide Release;
      SlotsFacts(s);
      WithoutOne(q, i, created);
      LeaseOfEntry(q, created, q[i]);
      NextKeepsLeases(s, true, DestroyVm(q[i].serial));
    }

    /** WinMaliVmDestroy */
    method VmDestroy(id: nat) returns (found: bool)
      requires Valid()
      modifies slots, slots.bindings, vms
      ensures Valid()
      ensures var q, i := old(vms.head), IndexOf(old(vms.head), id);
              && (found <==> i < |q|)
              && (found ==> vms.head == q[..i] + q[i + 1..])
              && Leases() == if found then Next(old(Leases()), true, DestroyVm(q[i].serial)) else old(Leases())
    {
      hide LeasesOk;
      hide LeasesOf;
      hide InOrder;
      hide HandleOf;
      hide IndexOf;
      hide Release;
      ghost var s, q := Leases(), vms.head;
      ghost var i := IndexOf(q, id);
      if i < |q| { DestroyOne(s, q, i, vms.created); }
      var taken := vms.TakeByHandle(id);
      if taken.None? { return false; }
      slots.VmReleaseAs(taken.value.slot);
      return true;
    }

    /** WinMaliVmRundownOwner: off the list first, then torn down one by one. */
    method VmRundownOwner(owner: nat) returns (freed: nat)
      requires Valid() && owner != 0
      modifies slots, slots.bindings, vms
      ensures Valid()
      ensures vms.head == OthersThan(old(vms.head), owner) && freed == |OwnedBy(old(vms.head), owner)|
      ensures slots.Abs() == ReleaseAll(old(slots.Abs()), OwnedBy(old(vms.head), owner))
    {
      hide LeasesOk;
      hide Release;
      RundownKeepsLeases(slots.Abs(), vms.head, vms.created, owner);
      ghost var p := slots.Abs();
      var list := vms.RundownOwner(owner);
      ghost var all := list;
      freed := 0;
      while list != []
        invariant slots.Valid() && freed + |list| == |all|
        invariant ReleaseAll(p, all) == ReleaseAll(slots.Abs(), list)
        decreases |list|
        modifies slots, slots.bindings
      {
        slots.VmReleaseAs(list[0].slot);
        list := list[1..];
        freed := freed + 1;
      }
    }

    /** WinMaliKmdDestroyDevice: groups, then buffer objects, sync objects and VMs. Every
        table keeps exactly the other devices' entries in their order, and the slots
        cleared are exactly those of the device's VMs. */
    method DestroyDevice(device: nat)
      requires Valid() && device != 0
      modifies slots, slots.bindings, groups, bos, syncs, vms
      ensures Valid()
      ensures groups.head == OthersThan(old(groups.head), device)
      ensures bos.head == OthersThan(old(bos.head), device)
      ensures syncs.head == OthersThan(old(syncs.head), device)
      ensures vms.head == OthersThan(old(vms.head), device)
      ensures slots.present == old(slots.present)
      ensures forall i | 0 <= i < AS_SLOT_MAX ::
                && (i in slots.inUse <==> i in old(slots.inUse) && !Uses(OwnedBy(old(vms.head), device), i))
                && slots.bindings[i] == (if Uses(OwnedBy(old(vms.head), device), i) then UNBOUND else old(slots.bindings[i]))
    {
      hide LeasesOk;
      hide Uses;
      ghost var p, gone := slots.Abs(), OwnedBy(vms.head, device);
      var g := groups.RundownOwner(device);
      var b := bos.RundownOwner(device);
      var y := syncs.RundownOwner(device);
      var v := VmRundownOwner(device);
      forall i | 0 <= i < AS_SLOT_MAX
        ensures i in slots.Abs().inUse <==> i in p.inUse && !Uses(gone, i)
        ensures slots.Abs().bindings[i] == (if Uses(gone, i) then UNBOUND else p.bindings[i])
      {
        ReleaseAllClears(p, gone, i);
      }
      ReleaseAllClears(p, gone, 0);
    }
  }
}
