/** The lazily allocated page table of one VM (WINMALI_VM_PT): table pages are
    arrays written in place through CPU pointers, and child tables are found by
    searching the ownership list for a physical address. */
module VmPageTable {
  import opened Wrappers
  import opened Lpae
  import opened PageTables

  /** The kernel's contiguous-page allocator: which frames are handed out, and how often
      it has refused a request. */
  class Kernel {
    var live: set<Frame>
    ghost var refusals: nat

    constructor ()
      ensures live == {} && refusals == 0
    {
      live, refusals := {}, 0;
    }

    /** A frame nobody holds, or failure; which one is not ours to say. */
    method Alloc() returns (f: Option<Frame>)
      modifies this
      ensures f.Some? ==> f.value !in old(live) && live == old(live) + {f.value}
      ensures f.None? ==> live == old(live)
      ensures refusals == old(refusals) + if f.None? then 1 else 0
    {
      var pick: Frame := *;
      var ok: bool := *;
      if ok && pick !in live {
        live := live + {pick};
        f := Some(pick);
      } else {
        refusals := refusals + 1;
        f := None;
      }
    }

    /** A request for anything else: pool memory, a mapping. */
    method Grants() returns (ok: bool)
      modifies this`refusals
      ensures refusals == old(refusals) + if ok then 0 else 1
    {
      ok := *;
      if !ok { refusals := refusals + 1; }
    }

    /** Only a frame that is handed out may be freed. */
    method Free(f: Frame)
      requires f in live
      modifies this`live
      ensures live == old(live) - {f}
    {
      live := live - {f};
    }
  }

  datatype PtPage = PtPage(va: array<Word>, pa: Frame)

  class VmPt {
    var rootVa: array?<Word>
    var rootPa: Frame
    var allocatedPages: seq<PtPage>
    ghost var tables: Tables
    ghost var shape: Shape

    ghost function Repr(): (r: set<object>)
      reads this
      ensures this in r
    {
      {this} + set j | 0 <= j < |allocatedPages| :: allocatedPages[j].va
    }

    /** tables is what the listed pages hold, each page its own array and its own frame. */
    ghost predicate Backed(k: Kernel)
      reads Repr(), k
    {
      && |allocatedPages| == |tables.pages|
      && (forall j | 0 <= j < |allocatedPages| ::
            && allocatedPages[j].pa == tables.pages[j]
            && allocatedPages[j].pa in k.live && allocatedPages[j].pa in tables.mem
            && allocatedPages[j].va[..] == tables.mem[allocatedPages[j].pa])
      && (forall i, j | 0 <= i < j < |allocatedPages| :: allocatedPages[i].va != allocatedPages[j].va)
      && Distinct(tables.pages)
    }

    ghost predicate Valid(k: Kernel)
      reads Repr(), k
    {
      && Tree(tables, shape)
      && Backed(k)
      && |allocatedPages| > 0
      && rootVa == allocatedPages[0].va && rootPa == allocatedPages[0].pa == tables.root
    }

    ghost predicate Page(j: int, a: array<Word>, f: Frame)
      reads this
    {
      0 <= j < |allocatedPages| && allocatedPages[j].va == a && allocatedPages[j].pa == f
    }

    /** The frames held by everybody else. */
    ghost function Others(k: Kernel): set<Frame>
      reads this, k
    {
      k.live - tables.mem.Keys
    }

    /** WinMaliMmuPtAllocPage_ */
    method AllocPage(k: Kernel) returns (page: Option<PtPage>)
      modifies k
      ensures page.None? ==> k.live == old(k.live)
      ensures k.refusals == old(k.refusals) + if page.None? then 1 else 0
      ensures page.Some? ==>
                && page.value.pa !in old(k.live) && k.live == old(k.live) + {page.value.pa}
                && fresh(page.value.va) && page.value.va[..] == ZeroPage()
    {
      var f := k.Alloc();
      if f.None? {
        return None;
      }
      var tracked := k.Grants();
      if !tracked {
        k.Free(f.value);
        assert k.live == old(k.live);
        return None;
      }
      var va := new Word[512](_ => ZERO);
      assert va[..] == ZeroPage();
      page := Some(PtPage(va, f.value));
    }

    /** The search of the ownership list by physical address. */
    method FindPage(k: Kernel, pa: Frame) returns (found: Option<array<Word>>, ghost j: nat)
      requires Backed(k)
      ensures Backed(k)
      ensures found.Some? ==> Page(j, found.value, pa)
      ensures found.Some? <==> pa in tables.pages
    {
      j := 0;
      var x := 0;
      while x < |allocatedPages|
        invariant 0 <= x <= |allocatedPages|
        invariant forall y | 0 <= y < x :: allocatedPages[y].pa != pa
      {
        if allocatedPages[x].pa == pa {
          return Some(allocatedPages[x].va), x;
        }
        x := x + 1;
      }
      found := None;
    }

    /** Store one descriptor through a CPU pointer. */
    method WriteEntry(k: Kernel, va: array<Word>, i: Index, e: Word, ghost j: nat, ghost f: Frame)
      requires Backed(k) && Page(j, va, f) && va.Length == 512
      modifies this`tables, va
      ensures Backed(k) && f in old(tables).mem && |old(tables).mem[f]| == 512
      ensures tables == SetLeaf(old(tables), f, i, e)
    {
      assert va[..] == tables.mem[f];
      va[i] := e;
      tables := SetLeaf(tables, f, i, e);
      assert va[..] == tables.mem[f];
    }

    /** InsertTailList of a fresh zeroed page */
    method AppendPage(k: Kernel, page: PtPage)
      requires Backed(k)
      requires page.pa in k.live && page.pa !in tables.mem
      requires page.va[..] == ZeroPage() && page.va !in Repr()
      modifies this`tables, this`allocatedPages
      ensures Backed(k) && allocatedPages == old(allocatedPages) + [page]
      ensures tables == Tables(old(tables).root, old(tables).pages + [page.pa], old(tables).mem[page.pa := ZeroPage()])
    {
      allocatedPages := allocatedPages + [page];
      tables := Tables(tables.root, tables.pages + [page.pa], tables.mem[page.pa := ZeroPage()]);
    }

    /** Note where a new page sits. */
    ghost method Place(k: Kernel, n: Node, i: Index, q: Frame)
      requires Backed(k) && !n.L3?
      modifies this`shape
      ensures Backed(k) && shape == Attach(old(shape), n, i, q)
    {
      shape := Attach(shape, n, i, q);
    }

    /** What a CPU read of entry i of the page at position n returns. */
    lemma {:induction false} EntryOf(k: Kernel, a: array<Word>, i: Index, n: Node, j: nat)
      requires Valid(k)
      requires n in shape.at && !n.L3? && Page(j, a, shape.at[n])
      ensures Owned(tables) && shape.at[n] in tables.mem
      ensures a.Length == 512 && a[i] == tables.mem[shape.at[n]][i]
      ensures if IsValid(a[i]) then Child(n, i) in shape.at && a[i].frame == shape.at[Child(n, i)] && a[i].frame in tables.pages
              else Child(n, i) !in shape.at
    {
      assert EntryFits(tables, shape, n, i);
      assert a[..] == tables.mem[shape.at[n]];
      assert a[..][i] == a[i];
    }

    /** Every frame of the table is handed out. */
    lemma {:induction false} FramesAreLive(k: Kernel)
      requires Valid(k)
      ensures Owned(tables) && tables.mem.Keys <= k.live
    {
    }

    /** List a fresh page and point entry i of the page at position n to it. */
    method LinkPage(k: Kernel, parent: array<Word>, i: Index, page: PtPage, ghost n: Node, ghost j: nat)
      requires Valid(k)
      requires n in shape.at && !n.L3? && Child(n, i) !in shape.at && Page(j, parent, shape.at[n])
      requires page.pa in k.live && page.pa !in tables.mem
      requires page.va[..] == ZeroPage() && page.va !in Repr()
      modifies this, parent
      ensures Valid(k) && Owned(old(tables)) && old(shape.at[n]) in old(tables).mem
      ensures tables == Link(old(tables), old(shape.at[n]), i, page.pa)
      ensures shape == Attach(old(shape), n, i, page.pa)
      ensures rootVa == old(rootVa) && rootPa == old(rootPa) && allocatedPages == old(allocatedPages) + [page]
    {
      hide Tree, Backed, EntryFits, Owned, Distinct;
      ghost var f := shape.at[n];
      LinkFits(tables, shape, n, i, page.pa);
      EntryOf(k, parent, i, n, j);
      AppendPage(k, page);
      WriteEntry(k, parent, i, TableDesc(page.pa), j, f);
      Place(k, n, i, page.pa);
    }

    /** The allocating half of a descent. */
    method Grow(k: Kernel, parent: array<Word>, i: Index, ghost n: Node, ghost j: nat)
      returns (page: Option<PtPage>)
      requires Valid(k)
      requires n in shape.at && !n.L3? && Child(n, i) !in shape.at && Page(j, parent, shape.at[n])
      modifies this, parent, k
      ensures Valid(k) && Others(k) == old(Others(k))
      ensures Owned(old(tables)) && old(shape.at[n]) in old(tables).mem
      ensures page.None? ==> tables == old(tables) && shape == old(shape) && allocatedPages == old(allocatedPages)
      ensures k.refusals == old(k.refusals) + if page.None? then 1 else 0
      ensures page.Some? ==>
                && fresh(page.value.va) && Granted(old(tables), old(Others(k)), Some(page.value.pa)).Some?
                && tables == Link(old(tables), old(shape.at[n]), i, page.value.pa)
                && shape == Attach(old(shape), n, i, page.value.pa)
                && allocatedPages == old(allocatedPages) + [page.value]
      ensures rootVa == old(rootVa) && rootPa == old(rootPa)
    {
      hide Tree, EntryFits, Owned, Distinct;
      FramesAreLive(k);
      EntryOf(k, parent, i, n, j);
      page := AllocPage(k);
      assert Backed(k);
      hide Backed;
      match page
      case None =>
      case Some(pg) =>
        LinkPage(k, parent, i, pg, n, j);
        assert tables.mem.Keys == old(tables).mem.Keys + {pg.pa};
    }

    /** WinMaliMmuPtDescend_ on entry i of the page at position n. */
    method Descend(k: Kernel, parent: array<Word>, i: Index, ghost n: Node, ghost j: nat)
      returns (status: Status, next: array<Word>, ghost o: Option<Frame>, ghost jn: nat)
      requires Valid(k)
      requires n in shape.at && !n.L3? && Page(j, parent, shape.at[n])
      modifies this, parent, k
      ensures Valid(k) && fresh(Repr() - old(Repr())) && Others(k) == old(Others(k))
      ensures k.refusals == old(k.refusals) + if status == InsufficientResources then 1 else 0
      ensures Owned(old(tables)) && old(shape.at[n]) in old(tables).mem
      ensures var r := PageTables.Descend(old(tables), old(Others(k)), old(shape.at[n]), i, o);
              && tables == r.t && status == r.status
              && (status == Success ==> Child(n, i) in shape.at && r.frame == shape.at[Child(n, i)])
      ensures status == Success ==> Child(n, i) in shape.at && Page(jn, next, shape.at[Child(n, i)])
      ensures rootVa == old(rootVa) && rootPa == old(rootPa) && old(allocatedPages) <= allocatedPages
      ensures forall m | m in old(shape.at) :: m in shape.at && shape.at[m] == old(shape.at[m])
    {
      hide Tree, EntryFits, Owned, Distinct, Backed;
      next, o, jn := parent, None, j;
      EntryOf(k, parent, i, n, j);
      if IsValid(parent[i]) {
        var found, x := FindPage(k, parent[i].frame);
        match found
        case Some(va) =>
          status, next, jn := Success, va, x;
        case None =>
          status := InvalidDeviceState;
      } else {
        var page := Grow(k, parent, i, n, j);
        match page
        case None =>
          status := InsufficientResources;
        case Some(pg) =>
          status, next, o, jn := Success, pg.va, Some(pg.pa), |allocatedPages| - 1;
      }
    }

    /** The page at a listed position is one of this table's arrays. */
    lemma {:induction false} PageInRepr(j: int, a: array<Word>, f: Frame)
      requires Page(j, a, f)
      ensures a in Repr()
    {
    }

    lemma {:induction false} RootIsListed(k: Kernel)
      requires Valid(k)
      ensures L0 in shape.at && Page(0, rootVa, shape.at[L0]) && shape.at[L0] == tables.root
      ensures Owned(tables) && rootVa in Repr()
    {
    }

    /** The upper two levels of WinMaliMmuPtWalkToLeaf_. */
    method WalkToL2(k: Kernel, p: VPage)
      returns (status: Status, l2: array<Word>, ghost o1: Option<Frame>, ghost o2: Option<Frame>, ghost j: nat)
      requires Valid(k)
      modifies Repr(), k
      ensures Valid(k) && fresh(Repr() - old(Repr())) && Others(k) == old(Others(k))
      ensures k.refusals == old(k.refusals) + if status == InsufficientResources then 1 else 0
      ensures Owned(old(tables))
      ensures var r := PageTables.WalkToL2(old(tables), old(Others(k)), p, Supply(o1, o2, None));
              && tables == r.t && status == r.status
              && (status == Success ==> L2(p.i0, p.i1) in shape.at && r.frame == shape.at[L2(p.i0, p.i1)])
      ensures status == Success ==> L2(p.i0, p.i1) in shape.at && Page(j, l2, shape.at[L2(p.i0, p.i1)])
      ensures rootVa == old(rootVa) && rootPa == old(rootPa)
    {
      hide Tree, EntryFits, Owned, Distinct, Backed, PageTables.Descend;
      RootIsListed(k);
      status, l2, o1, j := Descend(k, rootVa, p.i0, L0, 0);
      o2 := None;
      if status == Success {
        PageInRepr(j, l2, shape.at[L1(p.i0)]);
        status, l2, o2, j := Descend(k, l2, p.i1, L1(p.i0), j);
      }
    }

    /** WinMaliMmuPtWalkToLeaf_ */
    method WalkToLeaf(k: Kernel, p: VPage)
      returns (status: Status, l3: array<Word>, ghost s: Supply, ghost j: nat)
      requires Valid(k)
      modifies Repr(), k
      ensures Valid(k) && fresh(Repr() - old(Repr())) && Others(k) == old(Others(k))
      ensures k.refusals == old(k.refusals) + if status == InsufficientResources then 1 else 0
      ensures Owned(old(tables))
      ensures var r := PageTables.WalkToLeaf(old(tables), old(Others(k)), p, s);
              && tables == r.t && status == r.status
              && (status == Success ==> LeafNode(p) in shape.at && r.frame == shape.at[LeafNode(p)])
      ensures status == Success ==> LeafNode(p) in shape.at && Page(j, l3, shape.at[LeafNode(p)])
      ensures rootVa == old(rootVa) && rootPa == old(rootPa)
    {
      hide Tree, EntryFits, Owned, Distinct, Backed, PageTables.Descend;
      ghost var o1, o2, o3;
      status, l3, o1, o2, j := WalkToL2(k, p);
      o3 := None;
      if status == Success {
        PageInRepr(j, l3, shape.at[L2(p.i0, p.i1)]);
        status, l3, o3, j := Descend(k, l3, p.i2, L2(p.i0, p.i1), j);
      }
      s := Supply(o1, o2, o3);
    }

    /** Store a leaf in the level-3 table of its page. */
    method StoreLeaf(k: Kernel, l3: array<Word>, p: VPage, e: Word, ghost j: nat)
      requires Valid(k) && LeafNode(p) in shape.at && Page(j, l3, shape.at[LeafNode(p)])
      modifies this`tables, l3
      ensures Valid(k) && tables == SetLeaf(old(tables), shape.at[LeafNode(p)], p.i3, e)
      ensures Others(k) == old(Others(k)) && Repr() == old(Repr())
    {
      hide EntryFits, Owned, Distinct, Backed, HwWalk, LeafOutcome;
      LeafPage(k, p, l3, j);
      SetLeafChangesOnePage(tables, shape, p, e);
      hide Tree;
      WriteEntry(k, l3, p.i3, e, j, shape.at[LeafNode(p)]);
    }

    /** One page of a map or unmap: walk, then store the leaf if the walk succeeded. */
    method PutLeaf(k: Kernel, p: VPage, e: Word) returns (status: Status, ghost s: Supply)
      requires Valid(k)
      modifies Repr(), k
      ensures Valid(k) && fresh(Repr() - old(Repr())) && Others(k) == old(Others(k))
      ensures k.refusals == old(k.refusals) + if status == InsufficientResources then 1 else 0
      ensures Owned(old(tables))
      ensures var r := PageTables.PutLeaf(old(tables), old(Others(k)), p, e, s);
              tables == r.t && status == r.status
      ensures rootVa == old(rootVa) && rootPa == old(rootPa)
    {
      hide Tree, Owned, Distinct, Backed, PageTables.WalkToLeaf;
      var l3;
      ghost var j;
      status, l3, s, j := WalkToLeaf(k, p);
      if status == Success {
        StoreLeaf(k, l3, p, e, j);
      }
    }

    lemma {:induction false} LeafPage(k: Kernel, p: VPage, l3: array<Word>, j: int)
      requires Valid(k) && LeafNode(p) in shape.at && Page(j, l3, shape.at[LeafNode(p)])
      ensures l3.Length == 512 && l3 in Repr()
    {
    }

    /** The locked loop of WinMaliMmuVmMap. */
    method MapLoop(k: Kernel, va: U64, pfns: seq<U64>, a: Attrs) returns (status: Status, ghost ss: seq<Supply>)
      requires Valid(k)
      modifies Repr(), k
      ensures Valid(k) && fresh(Repr() - old(Repr())) && Others(k) == old(Others(k)) && rootVa == old(rootVa)
      ensures k.refusals == old(k.refusals) + if status == InsufficientResources then 1 else 0
      ensures Owned(old(tables)) && |ss| == |pfns|
      ensures var r := MapPages(old(tables), old(Others(k)), va, pfns, a, ss);
              tables == r.t && status == r.status
    {
      hide Valid, Tree, Owned, PageTables.PutLeaf, PageOf, PageAddr, PfnDesc;
      RootIsListed(k);
      ss := [];
      status := Success;
      var i := 0;
      while i < |pfns|
        invariant Valid(k) && fresh(Repr() - old(Repr())) && Others(k) == old(Others(k)) && rootVa == old(rootVa)
        invariant 0 <= i <= |pfns| && status == Success && |ss| == i && k.refusals == old(k.refusals)
        invariant MapPages(old(tables), old(Others(k)), va, pfns, a, ss) == Progress(tables, Success, i)
      {
        ghost var s;
        status, s := PutLeaf(k, PageOf(PageAddr(va, i)), PfnDesc(pfns[i], a));
        assert (ss + [s])[..i] == ss;
        ss := ss + [s];
        if status != Success {
          break;
        }
        i := i + 1;
      }
      if status != Success {
        ghost var more := seq(|pfns| - |ss|, _ => Supply(None, None, None));
        MapStopsAtFailure(old(tables), old(Others(k)), va, pfns, a, ss, more);
        ss := ss + more;
      }
    }

    /** WinMaliMmuVmMap. A table that was torn down has no root. */
    method VmMap(k: Kernel, va: U64, pfns: seq<U64>, a: Attrs) returns (status: Status, ghost ss: seq<Supply>)
      requires rootVa != null ==> Valid(k)
      modifies Repr(), k
      ensures rootVa == old(rootVa) && (rootVa != null ==> Valid(k)) && fresh(Repr() - old(Repr()))
      ensures Others(k) == old(Others(k))
      ensures k.refusals == old(k.refusals) + if status == InsufficientResources then 1 else 0
      ensures rootVa == null || (|pfns| > 0 && va % 4096 != 0) ==> status == InvalidParameter && tables == old(tables)
      ensures rootVa != null && |pfns| == 0 ==> status == Success && tables == old(tables)
      ensures rootVa != null && |pfns| > 0 && va % 4096 == 0 ==>
                && |ss| == |pfns| && Owned(old(tables))
                && var r := MapPages(old(tables), old(Others(k)), va, pfns, a, ss);
                tables == r.t && status == r.status
    {
      ss := [];
      if rootVa == null {
        status := InvalidParameter;
      } else if |pfns| == 0 {
        status := Success;
      } else if va % 4096 != 0 {
        status := InvalidParameter;
      } else {
        hide Valid;
        status, ss := MapLoop(k, va, pfns, a);
      }
    }

    /** The locked loop of WinMaliMmuVmUnmap: a page whose walk fails is passed over. */
    method UnmapLoop(k: Kernel, va: U64, pageCount: nat) returns (ghost ss: seq<Supply>)
      requires Valid(k)
      modifies Repr(), k
      ensures Valid(k) && fresh(Repr() - old(Repr())) && Others(k) == old(Others(k)) && rootVa == old(rootVa)
      ensures |ss| == pageCount && Owned(old(tables))
      ensures tables == UnmapPages(old(tables), old(Others(k)), va, ss) && k.refusals >= old(k.refusals)
    {
      hide Valid, Tree, Owned, PageTables.PutLeaf, PageOf, PageAddr;
      RootIsListed(k);
      ss := [];
      var i := 0;
      while i < pageCount
        invariant Valid(k) && fresh(Repr() - old(Repr())) && Others(k) == old(Others(k)) && rootVa == old(rootVa)
        invariant 0 <= i <= pageCount && |ss| == i
        invariant tables == UnmapPages(old(tables), old(Others(k)), va, ss) && k.refusals >= old(k.refusals)
      {
        ghost var s;
        var st;
        st, s := PutLeaf(k, PageOf(PageAddr(va, i)), ZERO);
        assert (ss + [s])[..i] == ss;
        ss := ss + [s];
        i := i + 1;
      }
    }

    /** WinMaliMmuVmUnmap succeeds whatever its walks do. */
    method VmUnmap(k: Kernel, va: U64, pageCount: nat) returns (status: Status, ghost ss: seq<Supply>)
      requires rootVa != null ==> Valid(k)
      modifies Repr(), k
      ensures rootVa == old(rootVa) && (rootVa != null ==> Valid(k)) && fresh(Repr() - old(Repr()))
      ensures Others(k) == old(Others(k)) && k.refusals >= old(k.refusals)
      ensures rootVa == null || va % 4096 != 0 ==> status == InvalidParameter && tables == old(tables)
      ensures rootVa != null && va % 4096 == 0 && pageCount == 0 ==> status == Success && tables == old(tables)
      ensures rootVa != null && va % 4096 == 0 && pageCount > 0 ==>
                && status == Success && |ss| == pageCount && Owned(old(tables))
                && tables == UnmapPages(old(tables), old(Others(k)), va, ss)
    {
      ss := [];
      if rootVa == null {
        status := InvalidParameter;
      } else if va % 4096 != 0 {
        status := InvalidParameter;
      } else if pageCount == 0 {
        status := Success;
      } else {
        hide Valid;
        ss := UnmapLoop(k, va, pageCount);
        status := Success;
      }
    }

    /** RtlZeroMemory and InitializeListHead of WinMaliMmuVmInit */
    constructor ()
      ensures rootVa == null && allocatedPages == []
    {
      rootVa := null;
      rootPa := 0;
      allocatedPages := [];
    }

    /** The root allocation of WinMaliMmuVmInit: a table that translates nothing. */
    method InitRoot(k: Kernel) returns (status: Status)
      requires rootVa == null && allocatedPages == []
      modifies this, k
      ensures status in {Success, InsufficientResources}
      ensures k.refusals == old(k.refusals) + if status == InsufficientResources then 1 else 0
      ensures status == Success ==>
                && rootVa != null && Valid(k) && fresh(Repr() - {this}) && Others(k) == old(k.live)
                && rootPa !in old(k.live) && tables == NewTables(rootPa)
      ensures status != Success ==> rootVa == null && allocatedPages == [] && k.live == old(k.live)
    {
      var page := AllocPage(k);
      match page
      case None =>
        status := InsufficientResources;
      case Some(pg) =>
        rootVa, rootPa := pg.va, pg.pa;
        allocatedPages := [pg];
        tables, shape := NewTables(pg.pa), NewShape(pg.pa);
        NewIsTree(pg.pa);
        status := Success;
    }

    lemma {:induction false} ListedFrames(k: Kernel)
      requires Valid(k)
      ensures SetOf(tables.pages) == tables.mem.Keys && Distinct(tables.pages)
      ensures |allocatedPages| == |tables.pages|
      ensures forall j | 0 <= j < |allocatedPages| :: allocatedPages[j].pa == tables.pages[j] && tables.pages[j] in k.live
    {
    }

    /** The freeing loop of WinMaliMmuVmTeardown: every page of the table goes
        back to the kernel, each once, and nobody else's. */
    method FreePages(k: Kernel)
      requires Valid(k)
      modifies this, k
      ensures rootVa == null && allocatedPages == []
      ensures k.live == old(Others(k))
    {
      ghost var all := tables.pages;
      hide Valid, SetOf, Distinct;
      ListedFrames(k);
      ghost var x := 0;
      assert SetOf(all[..0]) == {} by { NoFrames(all[..0]); }
      while allocatedPages != []
        invariant 0 <= x <= |all| && |allocatedPages| == |all| - x
        invariant forall j | 0 <= j < |allocatedPages| :: allocatedPages[j].pa == all[x + j]
        invariant k.live == old(k.live) - SetOf(all[..x])
        invariant Distinct(all) && forall j | 0 <= j < |all| :: all[j] in old(k.live)
        decreases |allocatedPages|
      {
        var page := allocatedPages[0];
        assert page.pa == all[x];
        FrontAndNext(all, x);
        k.Free(page.pa);
        allocatedPages := allocatedPages[1..];
        x := x + 1;
      }
      assert all[..x] == all;
      rootVa, rootPa := null, 0;
    }
  }

  lemma {:induction false} NoFrames(s: seq<Frame>)
    requires s == []
    ensures SetOf(s) == {}
  {
  }

  lemma {:induction false} FrontAndNext(s: seq<Frame>, x: nat)
    requires Distinct(s) && x < |s|
    ensures s[x] !in SetOf(s[..x]) && SetOf(s[..x + 1]) == SetOf(s[..x]) + {s[x]}
  {
  }
}
