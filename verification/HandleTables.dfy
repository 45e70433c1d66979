/** The handle tables behind groups, buffer objects, sync objects and VMs: a linked
    list in creation order, a 32-bit handle counter, and rundown by owner. */
module HandleTables {
  import opened Wrappers

  const TWO_32: nat := 0x1_0000_0000

  /** serial is the number of creations before this one; slot is a VM's address-space
      slot. Owner 0 is NULL. */
  datatype Entry = Entry(handle: nat, owner: nat, slot: nat, serial: nat)

  /** (ULONG) of a LONG counter that starts at 1 */
  function HandleOf(serial: nat): nat {
    (1 + serial) % TWO_32
  }

  function OthersThan(q: seq<Entry>, owner: nat): (r: seq<Entry>)
    ensures forall e :: e in r <==> e in q && e.owner != owner
  {
    if q == [] then []
    else if q[0].owner == owner then OthersThan(q[1..], owner)
    else [q[0]] + OthersThan(q[1..], owner)
  }

  function OwnedBy(q: seq<Entry>, owner: nat): (r: seq<Entry>)
    ensures forall e :: e in r <==> e in q && e.owner == owner
  {
    if q == [] then []
    else if q[0].owner == owner then [q[0]] + OwnedBy(q[1..], owner)
    else OwnedBy(q[1..], owner)
  }

  /** Position of the first entry with this handle, or the length. */
  function IndexOf(q: seq<Entry>, handle: nat): (i: nat)
    ensures i <= |q|
    ensures i < |q| ==> q[i].handle == handle
    ensures forall k | 0 <= k < i :: q[k].handle != handle
  {
    if q == [] || q[0].handle == handle then 0 else 1 + IndexOf(q[1..], handle)
  }

  /** Creation order, each handle the one its creation number gives. */
  ghost predicate InOrder(q: seq<Entry>, created: nat) {
    && (forall i | 0 <= i < |q| :: q[i].serial < created && q[i].handle == HandleOf(q[i].serial))
    && (forall i, j | 0 <= i < j < |q| :: q[i].serial < q[j].serial)
  }

  lemma {:induction false} ConsKeepsOrder(e: Entry, q: seq<Entry>, created: nat)
    requires InOrder(q, created) && e.serial < created && e.handle == HandleOf(e.serial)
    requires forall f | f in q :: e.serial < f.serial
    ensures InOrder([e] + q, created)
  {
  }

  lemma {:induction false} TailInOrder(q: seq<Entry>, created: nat)
    requires InOrder(q, created) && q != []
    ensures InOrder(q[1..], created)
    ensures q[0].serial < created && q[0].handle == HandleOf(q[0].serial)
    ensures forall f | f in q[1..] :: q[0].serial < f.serial
  {
  }

  /** What a rundown keeps and what it takes are both still in creation order. */
  lemma {:induction false} OthersKeepOrder(q: seq<Entry>, owner: nat, created: nat)
    requires InOrder(q, created)
    ensures InOrder(OthersThan(q, owner), created)
  {
    hide InOrder;
    hide HandleOf;
    if q == [] {
    } else {
      TailInOrder(q, created);
      OthersKeepOrder(q[1..], owner, created);
      if q[0].owner != owner { ConsKeepsOrder(q[0], OthersThan(q[1..], owner), created); }
    }
  }

  lemma {:induction false} OwnedKeepOrder(q: seq<Entry>, owner: nat, created: nat)
    requires InOrder(q, created)
    ensures InOrder(OwnedBy(q, owner), created)
  {
    hide InOrder;
    hide HandleOf;
    if q == [] {
    } else {
      TailInOrder(q, created);
      OwnedKeepOrder(q[1..], owner, created);
      if q[0].owner == owner { ConsKeepsOrder(q[0], OwnedBy(q[1..], owner), created); }
    }
  }

  lemma {:induction false} OthersOfSnoc(q: seq<Entry>, e: Entry, owner: nat)
    ensures OthersThan(q + [e], owner) == OthersThan(q, owner) + if e.owner == owner then [] else [e]
  {
    if q == [] {
      assert q + [e] == [e];
    } else {
      assert (q + [e])[1..] == q[1..] + [e];
      OthersOfSnoc(q[1..], e, owner);
    }
  }

  lemma {:induction false} OwnedOfSnoc(q: seq<Entry>, e: Entry, owner: nat)
    ensures OwnedBy(q + [e], owner) == OwnedBy(q, owner) + if e.owner == owner then [e] else []
  {
    if q == [] {
      assert q + [e] == [e];
    } else {
      assert (q + [e])[1..] == q[1..] + [e];
      OwnedOfSnoc(q[1..], e, owner);
    }
  }

  /** Nothing is lost and nothing duplicated by splitting a table by owner. */
  lemma {:induction false} SplitByOwner(q: seq<Entry>, owner: nat)
    ensures multiset(q) == multiset(OthersThan(q, owner)) + multiset(OwnedBy(q, owner))
    ensures |q| == |OthersThan(q, owner)| + |OwnedBy(q, owner)|
  {
    if q != [] {
      assert q == [q[0]] + q[1..];
      SplitByOwner(q[1..], owner);
    }
  }

  /** Rundowns of different devices commute. */
  lemma {:induction false} RundownsCommute(q: seq<Entry>, a: nat, b: nat)
    ensures OthersThan(OthersThan(q, a), b) == OthersThan(OthersThan(q, b), a)
  {
    if q != [] {
      RundownsCommute(q[1..], a, b);
      var x, y := OthersThan(q[1..], a), OthersThan(q[1..], b);
      assert ([q[0]] + x)[1..] == x && ([q[0]] + y)[1..] == y;
    }
  }

  /** Two live entries share a handle exactly when their creations lie a multiple of
      2^32 apart, so handles are unique as long as fewer creations than that separate
      the oldest from the newest entry, and only so long. */
  lemma {:induction false} HandleCollision(q: seq<Entry>, created: nat, i: nat, j: nat)
    requires InOrder(q, created) && i < j < |q|
    ensures q[i].handle == q[j].handle <==> (q[j].serial - q[i].serial) % TWO_32 == 0
    ensures q[j].serial - q[i].serial < TWO_32 ==> q[i].handle != q[j].handle
  {
  }

  class HandleTable {
    var head: seq<Entry>
    var nextHandle: nat
    var count: nat
    /** Creations so far; only the proofs use it. */
    var created: nat

    ghost predicate Valid()
      reads this
    {
      && InOrder(head, created)
      && nextHandle == HandleOf(created)
      && count == |head|
    }

    constructor ()
      ensures Valid() && head == [] && created == 0
    {
      head, nextHandle, count, created := [], 1, 0, 0;
    }

    method Insert(owner: nat, slot: nat) returns (handle: nat)
      requires Valid()
      modifies this
      ensures Valid() && created == old(created) + 1
      ensures head == old(head) + [Entry(handle, owner, slot, old(created))]
      ensures handle == HandleOf(old(created)) == (1 + old(created)) % 0x1_0000_0000
    {
      handle := nextHandle;
      NextHandle(created);
      nextHandle := (nextHandle + 1) % TWO_32;
      head := head + [Entry(handle, owner, slot, created)];
      count := count + 1;
      created := created + 1;
    }

    /** The oldest entry with this handle leaves the list. */
    method TakeByHandle(handle: nat) returns (found: Option<Entry>)
      requires Valid()
      modifies this`head, this`count
      ensures Valid()
      ensures var i := IndexOf(old(head), handle);
              if i < |old(head)| then found == Some(old(head)[i]) && head == old(head)[..i] + old(head)[i + 1..]
              else found == None && head == old(head)
    {
      var i := 0;
      while i < |head|
        invariant 0 <= i <= |head|
        invariant forall k | 0 <= k < i :: head[k].handle != handle
      {
        if head[i].handle == handle {
          found := Some(head[i]);
          IndexIs(head, handle, i);
          head := head[..i] + head[i + 1..];
          count := count - 1;
          return;
        }
        i := i + 1;
      }
      IndexIs(head, handle, i);
      found := None;
    }

    /** Moves every entry of this owner to a private list, keeping both in order. */
    method RundownOwner(owner: nat) returns (freed: seq<Entry>)
      requires Valid()
      modifies this`head, this`count
      ensures Valid()
      ensures head == (if owner == 0 then old(head) else OthersThan(old(head), owner))
      ensures freed == (if owner == 0 then [] else OwnedBy(old(head), owner))
    {
      hide OthersThan;
      hide OwnedBy;
      hide InOrder;
      hide HandleOf;
      freed := [];
      if owner == 0 { return; }
      ghost var all := head;
      ghost var done := 0;
      var kept, i := 0, 0;
      assert all[..0] == [] && OthersThan([], owner) == [] && OwnedBy([], owner) == [] by { SplitNothing(owner); }
      while i < |head|
        invariant 0 <= i <= |head| && done <= |all|
        invariant head[..i] == OthersThan(all[..done], owner) && head[i..] == all[done..]
        invariant freed == OwnedBy(all[..done], owner)
        invariant count == |head|
        decreases |head| - i
      {
        NextOfBoth(head, all, i, done);
        OthersOfSnoc(all[..done], all[done], owner);
        OwnedOfSnoc(all[..done], all[done], owner);
        if head[i].owner == owner {
          freed := freed + [head[i]];
          head := head[..i] + head[i + 1..];
          count := count - 1;
        } else {
          i := i + 1;
        }
        done := done + 1;
      }
      assert all[..done] == all && head[..i] == head;
      OthersKeepOrder(all, owner, created);
    }
  }

  /** Moving one place on in a list and in what is left of it. */
  lemma {:induction false} NextOfBoth(q: seq<Entry>, all: seq<Entry>, i: nat, done: nat)
    requires i < |q| && done <= |all| && q[i..] == all[done..]
    ensures done < |all| && q[i] == all[done]
    ensures all[..done + 1] == all[..done] + [all[done]]
    ensures q[..i + 1] == q[..i] + [q[i]] && q[i + 1..] == all[done + 1..]
    ensures var r := q[..i] + q[i + 1..]; r[..i] == q[..i] && r[i..] == all[done + 1..]
  {
    assert q[i..][0] == all[done..][0] && q[i..][1..] == all[done..][1..];
  }

  lemma {:induction false} SplitNothing(owner: nat)
    ensures OthersThan([], owner) == [] && OwnedBy([], owner) == []
  {
  }

  lemma {:induction false} NextHandle(serial: nat)
    ensures (HandleOf(serial) + 1) % TWO_32 == HandleOf(serial + 1)
  {
  }

  lemma {:induction false} IndexIs(q: seq<Entry>, handle: nat, i: nat)
    requires i <= |q| && (forall k | 0 <= k < i :: q[k].handle != handle)
    requires i < |q| ==> q[i].handle == handle
    ensures IndexOf(q, handle) == i
  {
  }
}
