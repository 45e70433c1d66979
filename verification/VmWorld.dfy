/** Runs over all VMs of the adapter. There is one physical memory; each VM only
    knows its root and its ownership list. Whatever the callers ask for and
    wherever allocation fails, every VM keeps a tree of frames of its own, and
    an operation on one VM never shows in the translations of another. */
module VmWorld {
  import opened Wrappers
  import opened Lpae
  import opened PageTables

  datatype Vm = Vm(root: Frame, pages: seq<Frame>)
  datatype World = World(phys: map<Frame, seq<Word>>, vms: map<nat, Vm>)

  /** Each carries the kernel's answers to the allocations it makes. */
  datatype Op =
    | Create(id: nat, root: Option<Frame>)
    | Map(id: nat, va: U64, pfns: seq<U64>, attrs: Attrs, ss: seq<Supply>)
    | Unmap(id: nat, va: U64, us: seq<Supply>)
    | Destroy(id: nat)

  function View(w: World, id: nat): Tables
    requires id in w.vms
  {
    Tables(w.vms[id].root, w.vms[id].pages, map f | f in w.vms[id].pages && f in w.phys :: w.phys[f])
  }

  /** What the MMU answers when the address space of id is active: a walk over all of memory. */
  function PhysWalk(w: World, id: nat, p: VPage): Outcome
    requires id in w.vms
  {
    HwWalk(Tables(w.vms[id].root, [], w.phys), p)
  }

  function Others(w: World, id: nat): set<Frame>
    requires id in w.vms
  {
    w.phys.Keys - View(w, id).mem.Keys
  }

  function Put(w: World, id: nat, t: Tables): World {
    World(w.phys + t.mem, w.vms[id := Vm(t.root, t.pages)])
  }

  ghost function Step(w: World, op: Op): World {
    match op
    case Create(id, root) =>
      if id !in w.vms && root.Some? && root.value !in w.phys then Put(w, id, NewTables(root.value)) else w
    case Map(id, va, pfns, a, ss) =>
      if id in w.vms && |ss| == |pfns| && va % 4096 == 0 && Owned(View(w, id))
      then Put(w, id, MapPages(View(w, id), Others(w, id), va, pfns, a, ss).t) else w
    case Unmap(id, va, us) =>
      if id in w.vms && va % 4096 == 0 && Owned(View(w, id))
      then Put(w, id, UnmapPages(View(w, id), Others(w, id), va, us)) else w
    case Destroy(id) =>
      if id in w.vms then Without(w, id) else w
  }

  ghost function Run(w: World, ops: seq<Op>): World
    decreases |ops|
  {
    if ops == [] then w else Step(Run(w, ops[..|ops| - 1]), ops[|ops| - 1])
  }

  ghost predicate Apart(v: Vm, u: Vm) {
    forall f | f in v.pages :: f !in u.pages
  }

  ghost predicate WorldOk(w: World, shs: map<nat, Shape>) {
    && shs.Keys == w.vms.Keys
    && (forall id | id in w.vms :: Tree(View(w, id), shs[id]))
    && (forall i, j | i in w.vms && j in w.vms && i != j :: Apart(w.vms[i], w.vms[j]))
  }

  /** A fetch from an owned frame is the same in all of memory. */
  lemma {:induction false} SameFetch(w: World, id: nat, f: Frame, i: Index)
    requires id in w.vms && f in View(w, id).mem
    ensures Fetch(Tables(w.vms[id].root, [], w.phys), f, i) == Fetch(View(w, id), f, i)
    ensures FetchLeaf(Tables(w.vms[id].root, [], w.phys), f, i) == FetchLeaf(View(w, id), f, i)
  {
  }

  /** In a tree a fetch above level 3 leads to the owned frame below, or nowhere. */
  lemma {:induction false} FetchInTree(t: Tables, sh: Shape, n: Node, i: Index)
    requires Tree(t, sh) && n in sh.at && !n.L3?
    ensures sh.at[n] in t.mem
    ensures Fetch(t, sh.at[n], i) == if Child(n, i) in sh.at then Next(sh.at[Child(n, i)]) else Stop(Fault)
    ensures Child(n, i) in sh.at ==> sh.at[Child(n, i)] in t.mem
  {
    assert EntryFits(t, sh, n, i);
  }

  /** A walk over all of memory sees what the VM's own frames say. */
  lemma {:induction false} PhysWalkIsOwnWalk(w: World, sh: Shape, id: nat, p: VPage)
    requires id in w.vms && Tree(View(w, id), sh)
    ensures PhysWalk(w, id, p) == HwWalk(View(w, id), p)
  {
    var t := View(w, id);
    assert L0 in sh.at && sh.at[L0] == t.root;
    hide Tree, Fetch, FetchLeaf;
    FetchInTree(t, sh, L0, p.i0);
    SameFetch(w, id, t.root, p.i0);
    if L1(p.i0) in sh.at {
      FetchInTree(t, sh, L1(p.i0), p.i1);
      SameFetch(w, id, sh.at[L1(p.i0)], p.i1);
      if L2(p.i0, p.i1) in sh.at {
        FetchInTree(t, sh, L2(p.i0, p.i1), p.i2);
        SameFetch(w, id, sh.at[L2(p.i0, p.i1)], p.i2);
        if LeafNode(p) in sh.at {
          SameFetch(w, id, sh.at[LeafNode(p)], p.i3);
        }
      }
    }
  }

  lemma {:induction false} PagesAreOwned(t: Tables, sh: Shape)
    requires Tree(t, sh)
    ensures forall f :: f in t.pages <==> f in t.mem
  {
  }

  lemma {:induction false} PutView(w: World, id: nat, t: Tables)
    requires forall f :: f in t.pages <==> f in t.mem
    ensures View(Put(w, id, t), id) == t
  {
  }

  lemma {:induction false} PutOtherView(w: World, id: nat, t: Tables, j: nat)
    requires j in w.vms && j != id && forall f | f in w.vms[j].pages :: f !in t.mem
    ensures View(Put(w, id, t), j) == View(w, j)
  {
  }

  /** Replacing the table of one VM by a tree grown over free frames. */
  lemma {:induction false} PutKeepsWorld(w: World, shs: map<nat, Shape>, id: nat, t: Tables, sh: Shape)
    requires WorldOk(w, shs) && Tree(t, sh)
    requires forall j, f | j in w.vms && j != id && f in w.vms[j].pages :: f !in t.mem
    ensures WorldOk(Put(w, id, t), shs[id := sh])
    ensures forall j | j in w.vms && j != id :: View(Put(w, id, t), j) == View(w, j)
  {
    hide Tree, View;
    PagesAreOwned(t, sh);
    var u := Put(w, id, t);
    assert u.vms == w.vms[id := Vm(t.root, t.pages)];
    hide Put;
    PutView(w, id, t);
    forall j | j in w.vms && j != id ensures View(u, j) == View(w, j) { PutOtherView(w, id, t, j); }
    forall j | j in w.vms && j != id ensures Apart(w.vms[j], u.vms[id]) && Apart(u.vms[id], w.vms[j]) {
      assert forall f | f in t.pages :: f !in w.vms[j].pages;
    }
    hide Apart;
  }

  function Without(w: World, id: nat): World
    requires id in w.vms
  {
    World(map f | f in w.phys && f !in w.vms[id].pages :: w.phys[f], w.vms - {id})
  }

  lemma {:induction false} WithoutView(w: World, id: nat, j: nat)
    requires id in w.vms && j in w.vms && j != id && Apart(w.vms[j], w.vms[id])
    ensures View(Without(w, id), j) == View(w, j)
  {
  }

  lemma {:induction false} DestroyKeepsWorld(w: World, shs: map<nat, Shape>, id: nat)
    requires WorldOk(w, shs) && id in w.vms
    ensures WorldOk(Without(w, id), shs - {id})
    ensures forall j | j in w.vms && j != id :: View(Without(w, id), j) == View(w, j)
  {
    hide Tree, View, Apart;
    forall j | j in w.vms && j != id ensures View(Without(w, id), j) == View(w, j) { WithoutView(w, id, j); }
  }

  /** The frames of the other VMs count as taken for an allocation made for id. */
  lemma {:induction false} OthersAreTaken(w: World, shs: map<nat, Shape>, id: nat, j: nat, f: Frame)
    requires WorldOk(w, shs) && id in w.vms && j in w.vms && j != id && f in w.vms[j].pages
    ensures f in Others(w, id) && f !in View(w, id).mem
  {
    assert Apart(w.vms[j], w.vms[id]);
    assert f in View(w, j).mem;
  }

  /** One operation keeps every VM a tree of its own frames and leaves the other VMs' tables alone. */
  lemma {:induction false} StepKeepsWorld(w: World, shs: map<nat, Shape>, op: Op) returns (shsu: map<nat, Shape>)
    requires WorldOk(w, shs)
    ensures WorldOk(Step(w, op), shsu)
    ensures forall j | j in w.vms && j != op.id :: j in Step(w, op).vms && View(Step(w, op), j) == View(w, j)
  {
    hide Tree, Owned, MapPages, UnmapPages;
    shsu := shs;
    if Step(w, op) == w {
      return;
    }
    var id := op.id;
    if op.Destroy? {
      DestroyKeepsWorld(w, shs, id);
      shsu := shs - {id};
      return;
    }
    forall j, f | id in w.vms && j in w.vms && j != id && f in w.vms[j].pages
      ensures f in Others(w, id) && f !in View(w, id).mem
    {
      OthersAreTaken(w, shs, id, j, f);
    }
    var t, sh;
    match op {
      case Create(_, root) =>
        NewIsTree(root.value);
        t, sh := NewTables(root.value), NewShape(root.value);
        forall j, f | j in w.vms && f in w.vms[j].pages ensures f in w.phys {
          assert f in View(w, j).mem by { PagesAreOwned(View(w, j), shs[j]); }
        }
      case Map(_, va, pfns, a, ss) =>
        sh := MapRefinesFlat(View(w, id), shs[id], Others(w, id), va, pfns, a, ss);
        t := MapPages(View(w, id), Others(w, id), va, pfns, a, ss).t;
      case Unmap(_, va, us) =>
        sh := UnmapClearsExactlyItsRange(View(w, id), shs[id], Others(w, id), va, us);
        t := UnmapPages(View(w, id), Others(w, id), va, us);
    }
    hide View, Others;
    PutKeepsWorld(w, shs, id, t, sh);
    shsu := shs[id := sh];
  }

  /** Every run from the empty adapter, with allocation failing anywhere. */
  lemma {:induction false} RunKeepsWorld(phys: map<Frame, seq<Word>>, ops: seq<Op>) returns (shs: map<nat, Shape>)
    ensures WorldOk(Run(World(phys, map[]), ops), shs)
    decreases |ops|
  {
    if ops == [] {
      shs := map[];
    } else {
      shs := RunKeepsWorld(phys, ops[..|ops| - 1]);
      hide WorldOk, Step;
      shs := StepKeepsWorld(Run(World(phys, map[]), ops[..|ops| - 1]), shs, ops[|ops| - 1]);
    }
  }

  /** In every reachable state an operation on one VM is invisible to the MMU of another. */
  lemma {:induction false} OperationsAreIsolated(phys: map<Frame, seq<Word>>, ops: seq<Op>, op: Op, j: nat, p: VPage)
    requires j in Run(World(phys, map[]), ops).vms && j != op.id
    ensures var w := Run(World(phys, map[]), ops);
            && j in Step(w, op).vms
            && PhysWalk(Step(w, op), j, p) == PhysWalk(w, j, p)
            && !PhysWalk(w, j, p).Stray? && !PhysWalk(w, j, p).Block?
  {
    var w := Run(World(phys, map[]), ops);
    var shs := RunKeepsWorld(phys, ops);
    var shsu := StepKeepsWorld(w, shs, op);
    hide Step, Tree, HwWalk, PhysWalk, View;
    PhysWalkIsOwnWalk(w, shs[j], j, p);
    PhysWalkIsOwnWalk(Step(w, op), shsu[j], j, p);
    WalkStaysInside(View(w, j), shs[j], p);
  }

  // ------------------------------------------------- what an operation does to its own VM

  /** The leaf of page i of a map request. */
  ghost predicate ShowsPage(o: Outcome, pfns: seq<U64>, a: Attrs, i: nat) {
    && i < |pfns| && o.Leaf? && IsValid(o.desc)
    && o.desc.frame == pfns[i] % 0x10_0000_0000 && AttrsOf(o.desc) == a
  }

  /** Every address below 2^48 of VM id: the first done pages of the range from va on show the
      pages of the request, everything else is as in w. */
  ghost predicate MappedExactly(w: World, u: World, id: nat, va: nat, pfns: seq<U64>, a: Attrs, done: nat) {
    && id in w.vms && id in u.vms && done <= |pfns|
    && forall x: U64 | x < TWO_48 ::
         if va <= x < va + done * 4096 then ShowsPage(PhysWalk(u, id, PageOf(x)), pfns, a, (x - va) / 4096)
         else PhysWalk(u, id, PageOf(x)) == PhysWalk(w, id, PageOf(x))
  }

  /** The first pages from va on translate to nothing, everything else is as in w. */
  ghost predicate UnmappedExactly(w: World, u: World, id: nat, va: nat, pages: nat) {
    && id in w.vms && id in u.vms
    && forall x: U64 | x < TWO_48 ::
         PhysWalk(u, id, PageOf(x)) ==
         if va <= x < va + pages * 4096 then Fault else PhysWalk(w, id, PageOf(x))
  }

  lemma {:induction false} OwnView(w: World, sh: Shape, id: nat)
    requires id in w.vms && Tree(View(w, id), sh)
    ensures Owned(View(w, id))
  {
  }

  lemma {:induction false} MapShows(w: World, shs: map<nat, Shape>, id: nat, va: U64, pfns: seq<U64>, a: Attrs,
      ss: seq<Supply>) returns (done: nat)
    requires WorldOk(w, shs) && id in w.vms && |ss| == |pfns| && va % 4096 == 0 && va + |pfns| * 4096 <= TWO_48
    ensures MappedExactly(w, Step(w, Map(id, va, pfns, a, ss)), id, va, pfns, a, done)
    ensures Owned(View(w, id)) && done == MapPages(View(w, id), Others(w, id), va, pfns, a, ss).done
  {
    hide Tree, HwWalk, View, Others, MapPages, PageOf, Owned, PageDesc, AttrsOf, IsValid;
    var t, sh := View(w, id), shs[id];
    OwnView(w, sh, id);
    var r := MapPages(t, Others(w, id), va, pfns, a, ss);
    var shr := MapRefinesFlat(t, sh, Others(w, id), va, pfns, a, ss);
    var u := Step(w, Map(id, va, pfns, a, ss));
    assert u == Put(w, id, r.t);
    PagesAreOwned(r.t, shr);
    PutView(w, id, r.t);
    assert id in u.vms;
    hide Step, Put;
    done := r.done;
    forall x: U64 | x < TWO_48
      ensures if va <= x < va + done * 4096 then ShowsPage(PhysWalk(u, id, PageOf(x)), pfns, a, (x - va) / 4096)
              else PhysWalk(u, id, PageOf(x)) == PhysWalk(w, id, PageOf(x))
    {
      MapTranslation(t, sh, Others(w, id), va, pfns, a, ss, x);
      PhysWalkIsOwnWalk(w, sh, id, PageOf(x));
      PhysWalkIsOwnWalk(u, shr, id, PageOf(x));
      if va <= x < va + done * 4096 { DescriptorValues(pfns[(x - va) / 4096] % 0x10_0000_0000, a); }
    }
  }

  lemma {:induction false} UnmapShows(w: World, shs: map<nat, Shape>, id: nat, va: U64, us: seq<Supply>)
    requires WorldOk(w, shs) && id in w.vms && va % 4096 == 0 && va + |us| * 4096 <= TWO_48
    ensures UnmappedExactly(w, Step(w, Unmap(id, va, us)), id, va, |us|)
  {
    hide Tree, HwWalk, View, Others, UnmapPages, PageOf, Owned;
    var t, sh := View(w, id), shs[id];
    OwnView(w, sh, id);
    var r := UnmapPages(t, Others(w, id), va, us);
    var shr := UnmapClearsExactlyItsRange(t, sh, Others(w, id), va, us);
    var u := Step(w, Unmap(id, va, us));
    assert u == Put(w, id, r);
    PagesAreOwned(r, shr);
    PutView(w, id, r);
    assert id in u.vms;
    hide Step, Put;
    forall x: U64 | x < TWO_48
      ensures PhysWalk(u, id, PageOf(x)) ==
              if va <= x < va + |us| * 4096 then Fault else PhysWalk(w, id, PageOf(x))
    {
      UnmapTranslation(t, sh, Others(w, id), va, us, x);
      PhysWalkIsOwnWalk(w, sh, id, PageOf(x));
      PhysWalkIsOwnWalk(u, shr, id, PageOf(x));
    }
  }

  /** In every reachable state, as the MMU sees it over all of memory: a map shows the pages
      of its request, up to the one at which memory ran out, an unmap leaves exactly its
      range untranslated, and neither changes any other address. */
  lemma {:induction false} OperationsDoWhatWasAsked(phys: map<Frame, seq<Word>>, ops: seq<Op>, id: nat, va: U64,
      pfns: seq<U64>, a: Attrs, ss: seq<Supply>) returns (done: nat)
    requires id in Run(World(phys, map[]), ops).vms
    requires |ss| == |pfns| && va % 4096 == 0 && va + |pfns| * 4096 <= TWO_48
    ensures var w := Run(World(phys, map[]), ops);
            && MappedExactly(w, Step(w, Map(id, va, pfns, a, ss)), id, va, pfns, a, done)
            && UnmappedExactly(w, Step(w, Unmap(id, va, ss)), id, va, |ss|)
            && Owned(View(w, id)) && done == MapPages(View(w, id), Others(w, id), va, pfns, a, ss).done
  {
    hide WorldOk, Step, MappedExactly, UnmappedExactly, View, Others, MapPages, Owned;
    var shs := RunKeepsWorld(phys, ops);
    done := MapShows(Run(World(phys, map[]), ops), shs, id, va, pfns, a, ss);
    UnmapShows(Run(World(phys, map[]), ops), shs, id, va, ss);
  }

  /** A VM that is created translates nothing; one that is destroyed is gone. */
  lemma {:induction false} CreateAndDestroy(w: World, id: nat, root: Frame, p: VPage)
    ensures id !in w.vms && root !in w.phys ==>
              && id in Step(w, Create(id, Some(root))).vms
              && Step(w, Create(id, Some(root))).vms[id] == Vm(root, [root])
              && PhysWalk(Step(w, Create(id, Some(root))), id, p) == Fault
    ensures id !in Step(w, Destroy(id)).vms
  {
    hide HwWalk;
    if id !in w.vms && root !in w.phys {
      var u := Step(w, Create(id, Some(root)));
      NewIsTree(root);
      PutView(w, id, NewTables(root));
      assert u == Put(w, id, NewTables(root));
      hide Step, Put, View, Tree;
      PhysWalkIsOwnWalk(u, NewShape(root), id, p);
    }
  }

  /** In every reachable state each VM's list is its root plus one frame per
      table descriptor, no frame is listed twice, within one VM or across two. */
  lemma {:induction false} FramesAreNeverShared(phys: map<Frame, seq<Word>>, ops: seq<Op>, i: nat, j: nat)
    requires i in Run(World(phys, map[]), ops).vms && j in Run(World(phys, map[]), ops).vms
    ensures var w := Run(World(phys, map[]), ops);
            && Distinct(w.vms[i].pages)
            && (i != j ==> Apart(w.vms[i], w.vms[j]))
            && exists sh :: Tree(View(w, i), sh) && |w.vms[i].pages| == 1 + |TableSlots(View(w, i), sh)|
  {
    var shs := RunKeepsWorld(phys, ops);
    var w := Run(World(phys, map[]), ops);
    OnePagePerDescriptor(View(w, i), shs[i]);
    assert Tree(View(w, i), shs[i]);
  }

  /** Destroying a VM gives back exactly its frames. */
  lemma {:induction false} DestroyFreesExactlyItsFrames(phys: map<Frame, seq<Word>>, ops: seq<Op>, id: nat, f: Frame)
    requires id in Run(World(phys, map[]), ops).vms
    ensures var w := Run(World(phys, map[]), ops);
            && (f in w.vms[id].pages ==> f in w.phys && f !in Step(w, Destroy(id)).phys)
            && (f !in w.vms[id].pages ==> (f in w.phys <==> f in Step(w, Destroy(id)).phys))
  {
    var w := Run(World(phys, map[]), ops);
    var shs := RunKeepsWorld(phys, ops);
    hide Tree, Run;
    PagesAreOwned(View(w, id), shs[id]);
  }
}
