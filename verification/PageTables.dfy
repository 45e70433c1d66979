/** The four-level tables as values: what physical memory holds, what a hardware
    walk sees, and what the driver's walker does to them. The classes that own
    real tables (VmPageTable, FwPool) are proved to follow the functions here;
    the theorems about translation are proved here once. */
module PageTables {
  import opened Wrappers
  import opened Lpae

  datatype Status = Success | InsufficientResources | InvalidDeviceState | InvalidParameter | DeviceNotReady

  /** root: the frame programmed in TRANSTAB. pages: the ownership list
      (AllocatedPages) in list order. mem: the contents of the owned frames. */
  datatype Tables = Tables(root: Frame, pages: seq<Frame>, mem: map<Frame, seq<Word>>)

  function ZeroPage(): (r: seq<Word>)
    ensures |r| == 512 && forall i | 0 <= i < 512 :: r[i] == ZERO
  {
    seq(512, _ => ZERO)
  }

  // ---------------------------------------------------------------- hardware

  /** Stray: the walk left the owned frames. Block: a descriptor this driver never writes. */
  datatype Outcome = Fault | Stray | Block | Leaf(desc: Word)
  datatype Fetched = Next(frame: Frame) | Stop(outcome: Outcome)

  function Fetch(t: Tables, f: Frame, i: Index): Fetched {
    if f !in t.mem || |t.mem[f]| != 512 then Stop(Stray)
    else
      var e := t.mem[f][i];
      if e.low % 4 == 3 then Next(e.frame)
      else if e.low % 4 == 1 then Stop(Block)
      else Stop(Fault)
  }

  /** At level 3 only 0b11 is valid. */
  function LeafOutcome(e: Word): Outcome {
    if IsValid(e) then Leaf(e) else Fault
  }

  function FetchLeaf(t: Tables, f: Frame, i: Index): Outcome {
    if f !in t.mem || |t.mem[f]| != 512 then Stray else LeafOutcome(t.mem[f][i])
  }

  /** The frame of the level-3 table the MMU arrives at, if it does. */
  function L3Of(t: Tables, p: VPage): Fetched {
    match Fetch(t, t.root, p.i0)
    case Stop(o) => Stop(o)
    case Next(f1) =>
      match Fetch(t, f1, p.i1)
      case Stop(o) => Stop(o)
      case Next(f2) => Fetch(t, f2, p.i2)
  }

  /** The walk the MMU performs, from memory alone. */
  function HwWalk(t: Tables, p: VPage): Outcome {
    match L3Of(t, p)
    case Stop(o) => o
    case Next(f3) => FetchLeaf(t, f3, p.i3)
  }

  // ------------------------------------------------------- the driver's walker

  ghost predicate Owned(t: Tables) {
    && t.root in t.mem
    && (forall f | f in t.pages :: f in t.mem)
    && (forall f | f in t.mem :: |t.mem[f]| == 512)
  }

  /** What the kernel hands back for one request. Any outcome that is not a free
      frame counts as failure, so quantifying over outcomes is quantifying over
      every behaviour of an allocator that returns a fresh frame or fails. */
  function Granted(t: Tables, others: set<Frame>, o: Option<Frame>): Option<Frame> {
    if o.Some? && o.value !in t.mem && o.value !in others then o else None
  }

  /** Entry i of frame f replaced by e. */
  function SetEntry(mem: map<Frame, seq<Word>>, f: Frame, i: Index, e: Word): map<Frame, seq<Word>> {
    if f in mem && |mem[f]| == 512 then mem[f := mem[f][i := e]] else mem
  }

  function Link(t: Tables, f: Frame, i: Index, q: Frame): Tables {
    Tables(t.root, t.pages + [q], SetEntry(t.mem[q := ZeroPage()], f, i, TableDesc(q)))
  }

  datatype Reply = Reply(t: Tables, status: Status, frame: Frame)

  /** WinMaliMmuPtDescend_: follow a table descriptor through the ownership list,
      or allocate, list and link a zeroed page. */
  ghost function Descend(t: Tables, others: set<Frame>, f: Frame, i: Index, o: Option<Frame>): (r: Reply)
    requires Owned(t) && f in t.mem
    ensures Owned(r.t) && r.t.root == t.root && t.mem.Keys <= r.t.mem.Keys
    ensures r.status == Success ==> r.frame in r.t.mem
  {
    var e := t.mem[f][i];
    if IsValid(e) then
      if e.frame in t.pages then Reply(t, Success, e.frame) else Reply(t, InvalidDeviceState, 0)
    else
      match Granted(t, others, o)
      case None => Reply(t, InsufficientResources, 0)
      case Some(q) => Reply(Link(t, f, i, q), Success, q)
  }

  /** The kernel's answers to the at most three requests of one walk. */
  datatype Supply = Supply(o1: Option<Frame>, o2: Option<Frame>, o3: Option<Frame>)

  ghost function WalkToL2(t: Tables, others: set<Frame>, p: VPage, s: Supply): (r: Reply)
    requires Owned(t)
    ensures Owned(r.t) && r.t.root == t.root && t.mem.Keys <= r.t.mem.Keys
    ensures r.status == Success ==> r.frame in r.t.mem
  {
    var d1 := Descend(t, others, t.root, p.i0, s.o1);
    if d1.status != Success then d1 else Descend(d1.t, others, d1.frame, p.i1, s.o2)
  }

  /** WinMaliMmuPtWalkToLeaf_ */
  ghost function WalkToLeaf(t: Tables, others: set<Frame>, p: VPage, s: Supply): (r: Reply)
    requires Owned(t)
    ensures Owned(r.t) && r.t.root == t.root && t.mem.Keys <= r.t.mem.Keys
    ensures r.status == Success ==> r.frame in r.t.mem
  {
    var d2 := WalkToL2(t, others, p, s);
    if d2.status != Success then d2 else Descend(d2.t, others, d2.frame, p.i2, s.o3)
  }

  function SetLeaf(t: Tables, f: Frame, i: Index, e: Word): Tables {
    t.(mem := SetEntry(t.mem, f, i, e))
  }

  /** done: leaves written so far */
  datatype Progress = Progress(t: Tables, status: Status, done: nat)

  /** (pa & PA_MASK) | attrs for a PFN: bits of the frame number above 2^36 are lost. */
  function PfnDesc(pfn: U64, a: Attrs): Word {
    PageDesc(pfn % 0x10_0000_0000, a)
  }

  /** GpuVa + i * PAGE_SIZE in 64-bit arithmetic */
  function PageAddr(va: U64, i: nat): U64 {
    (va + i * 4096) % 0x1_0000_0000_0000_0000
  }

  ghost function PutLeaf(t: Tables, others: set<Frame>, p: VPage, e: Word, s: Supply): (r: Progress)
    requires Owned(t)
    ensures Owned(r.t) && r.t.root == t.root && t.mem.Keys <= r.t.mem.Keys
  {
    var w := WalkToLeaf(t, others, p, s);
    if w.status != Success then Progress(w.t, w.status, 0)
    else Progress(SetLeaf(w.t, w.frame, p.i3, e), Success, 1)
  }

  /** The loop of WinMaliMmuVmMap after |ss| iterations; a failed walk ends it. */
  ghost function MapPages(t: Tables, others: set<Frame>, va: U64, pfns: seq<U64>, a: Attrs, ss: seq<Supply>): (r: Progress)
    requires Owned(t) && |ss| <= |pfns|
    ensures Owned(r.t) && r.t.root == t.root && t.mem.Keys <= r.t.mem.Keys
    ensures r.done <= |ss| && (r.status == Success <==> r.done == |ss|)
    decreases |ss|
  {
    if |ss| == 0 then Progress(t, Success, 0)
    else
      var n := |ss| - 1;
      var before := MapPages(t, others, va, pfns, a, ss[..n]);
      if before.status != Success then before
      else
        var now := PutLeaf(before.t, others, PageOf(PageAddr(va, n)), PfnDesc(pfns[n], a), ss[n]);
        Progress(now.t, now.status, before.done + now.done)
  }

  /** The loop of WinMaliMmuVmUnmap: a failed walk is skipped. */
  ghost function UnmapPages(t: Tables, others: set<Frame>, va: U64, ss: seq<Supply>): (r: Tables)
    requires Owned(t)
    ensures Owned(r) && r.root == t.root && t.mem.Keys <= r.mem.Keys
    decreases |ss|
  {
    if |ss| == 0 then t
    else
      var n := |ss| - 1;
      PutLeaf(UnmapPages(t, others, va, ss[..n]), others, PageOf(PageAddr(va, n)), ZERO, ss[n]).t
  }

  // ------------------------------------------------------------ the tree shape

  /** A position in the tree: the indices that lead to it from the root. */
  datatype Node = L0 | L1(i0: Index) | L2(j0: Index, j1: Index) | L3(k0: Index, k1: Index, k2: Index)

  function Child(n: Node, i: Index): Node
    requires !n.L3?
  {
    match n
    case L0 => L1(i)
    case L1(i0) => L2(i0, i)
    case L2(i0, i1) => L3(i0, i1, i)
  }

  function Parent(n: Node): Node
    requires !n.L0?
  {
    match n
    case L1(_) => L0
    case L2(i0, _) => L1(i0)
    case L3(i0, i1, _) => L2(i0, i1)
  }

  function LastIndex(n: Node): Index
    requires !n.L0?
  {
    match n
    case L1(i) => i
    case L2(_, i) => i
    case L3(_, _, i) => i
  }

  /** Which frame sits where; the two maps are inverse to each other. */
  datatype Shape = Shape(at: map<Node, Frame>, node: map<Frame, Node>)

  ghost predicate Inverse(sh: Shape) {
    && (forall n | n in sh.at :: sh.at[n] in sh.node && sh.node[sh.at[n]] == n)
    && (forall f | f in sh.node :: sh.node[f] in sh.at && sh.at[sh.node[f]] == f)
  }

  ghost predicate Distinct(s: seq<Frame>) {
    forall i, j | 0 <= i < j < |s| :: s[i] != s[j]
  }

  /** An inner entry names exactly the frame that sits one level deeper there, or is zero. */
  ghost predicate EntryFits(t: Tables, sh: Shape, n: Node, i: Index)
    requires n in sh.at && sh.at[n] in t.mem && |t.mem[sh.at[n]]| == 512 && !n.L3?
  {
    t.mem[sh.at[n]][i] == if Child(n, i) in sh.at then TableDesc(sh.at[Child(n, i)]) else ZERO
  }

  /** The owned frames form one tree under the root, each frame in one place,
      and the ownership list names each frame once. */
  ghost predicate Tree(t: Tables, sh: Shape) {
    && Owned(t)
    && Distinct(t.pages)
    && (forall f :: f in t.pages <==> f in t.mem)
    && Inverse(sh)
    && sh.node.Keys == t.mem.Keys
    && L0 in sh.at && sh.at[L0] == t.root
    && (forall n | n in sh.at && !n.L0? :: Parent(n) in sh.at)
    && (forall n, i: Index | n in sh.at && !n.L3? :: EntryFits(t, sh, n, i))
  }

  function NewTables(root: Frame): Tables {
    Tables(root, [root], map[root := ZeroPage()])
  }

  function NewShape(root: Frame): Shape {
    Shape(map[L0 := root], map[root := L0])
  }

  lemma {:induction false} NewIsTree(root: Frame)
    ensures Tree(NewTables(root), NewShape(root))
    ensures forall p :: HwWalk(NewTables(root), p) == Fault
  {
  }

  // ------------------------------------------------------ what hardware sees

  function LeafNode(p: VPage): Node { L3(p.i0, p.i1, p.i2) }

  /** In a tree the hardware walk is a lookup by position. */
  lemma {:induction false} WalkIsLookup(t: Tables, sh: Shape, p: VPage)
    requires Tree(t, sh)
    ensures LeafNode(p) in sh.at ==> sh.at[LeafNode(p)] in t.mem
    ensures HwWalk(t, p) ==
            if LeafNode(p) in sh.at then LeafOutcome(t.mem[sh.at[LeafNode(p)]][p.i3]) else Fault
  {
    var n1, n2, n3 := L1(p.i0), L2(p.i0, p.i1), LeafNode(p);
    assert Child(L0, p.i0) == n1 && Child(n1, p.i1) == n2 && Child(n2, p.i2) == n3;
    assert Parent(n3) == n2 && Parent(n2) == n1;
    assert EntryFits(t, sh, L0, p.i0);
    if n1 in sh.at {
      assert EntryFits(t, sh, n1, p.i1);
      if n2 in sh.at {
        assert EntryFits(t, sh, n2, p.i2);
      }
    }
  }

  /** Hardware never leaves the owned frames and never meets a block descriptor. */
  lemma {:induction false} WalkStaysInside(t: Tables, sh: Shape, p: VPage)
    requires Tree(t, sh)
    ensures HwWalk(t, p).Fault? || HwWalk(t, p).Leaf?
  {
    WalkIsLookup(t, sh, p);
  }

  /** Two table descriptors never name the same frame, and each names an owned
      frame exactly one level below its own. */
  lemma {:induction false} DescriptorsNameDistinctFrames(t: Tables, sh: Shape, n: Node, i: Index, m: Node, j: Index)
    requires Tree(t, sh)
    requires n in sh.at && m in sh.at && !n.L3? && !m.L3?
    requires IsValid(t.mem[sh.at[n]][i]) && IsValid(t.mem[sh.at[m]][j])
    ensures t.mem[sh.at[n]][i].frame in t.pages
    ensures sh.node[t.mem[sh.at[n]][i].frame] == Child(n, i)
    ensures t.mem[sh.at[n]][i].frame == t.mem[sh.at[m]][j].frame ==> n == m && i == j
  {
    assert EntryFits(t, sh, n, i) && EntryFits(t, sh, m, j);
  }

  // -------------------------------------------------- what the driver keeps

  function Attach(sh: Shape, n: Node, i: Index, q: Frame): Shape
    requires !n.L3?
  {
    Shape(sh.at[Child(n, i) := q], sh.node[q := Child(n, i)])
  }

  lemma {:induction false} ChildNames(n: Node, i: Index, m: Node, j: Index)
    requires !n.L3? && !m.L3?
    ensures Child(n, i) == Child(m, j) <==> n == m && i == j
    ensures Child(n, i) != L0 && Parent(Child(n, i)) == n
  {
  }

  lemma {:induction false} LinkOwned(t: Tables, f: Frame, i: Index, q: Frame)
    requires Owned(t) && f in t.mem
    ensures Owned(Link(t, f, i, q))
  {
  }

  lemma {:induction false} NewIsDistinct(pages: seq<Frame>, q: Frame)
    requires Distinct(pages) && q !in pages
    ensures Distinct(pages + [q])
  {
  }

  lemma {:induction false} LinkFits(t: Tables, sh: Shape, n: Node, i: Index, q: Frame)
    requires Tree(t, sh)
    requires n in sh.at && !n.L3? && Child(n, i) !in sh.at && q !in t.mem
    ensures sh.at[n] in t.mem && Owned(t)
    ensures Tree(Link(t, sh.at[n], i, q), Attach(sh, n, i, q))
  {
    var u, shu := Link(t, sh.at[n], i, q), Attach(sh, n, i, q);
    ChildNames(n, i, n, i);
    LinkOwned(t, sh.at[n], i, q);
    NewIsDistinct(t.pages, q);
    forall m, j: Index | m in shu.at && !m.L3? ensures EntryFits(u, shu, m, j) {
      ChildNames(n, i, m, j);
      if m in sh.at {
        assert EntryFits(t, sh, m, j);
      } else {
        assert m == Child(n, i) && u.mem[q][j] == ZERO;
        ChildNames(m, j, m, j);
      }
    }
  }

  /** The frames at level 3 of u are those of t, or zeroed: hardware sees no difference. */
  lemma {:induction false} SameLeavesSameWalk(t: Tables, sh: Shape, u: Tables, shu: Shape, p: VPage)
    requires Tree(t, sh) && Tree(u, shu)
    requires LeafNode(p) in sh.at ==>
               (&& LeafNode(p) in shu.at && shu.at[LeafNode(p)] == sh.at[LeafNode(p)]
                && u.mem[sh.at[LeafNode(p)]] == t.mem[sh.at[LeafNode(p)]])
    requires LeafNode(p) in shu.at && LeafNode(p) !in sh.at ==> u.mem[shu.at[LeafNode(p)]] == ZeroPage()
    ensures HwWalk(u, p) == HwWalk(t, p)
  {
    hide HwWalk, Tree;
    WalkIsLookup(t, sh, p);
    WalkIsLookup(u, shu, p);
    assert LeafOutcome(ZERO) == Fault;
  }

  /** Linking a fresh zeroed frame keeps the tree and is invisible to hardware. */
  lemma {:induction false} LinkKeepsTree(t: Tables, sh: Shape, n: Node, i: Index, q: Frame)
    requires Tree(t, sh)
    requires n in sh.at && !n.L3? && Child(n, i) !in sh.at && q !in t.mem
    ensures sh.at[n] in t.mem && Owned(t)
    ensures Tree(Link(t, sh.at[n], i, q), Attach(sh, n, i, q))
    ensures forall p :: HwWalk(Link(t, sh.at[n], i, q), p) == HwWalk(t, p)
  {
    hide HwWalk;
    LinkFits(t, sh, n, i, q);
    forall p { LinkKeepsLeaves(t, sh, n, i, q, p); }
    hide Tree, Link, Attach;
    var u, shu := Link(t, sh.at[n], i, q), Attach(sh, n, i, q);
    forall p ensures HwWalk(u, p) == HwWalk(t, p) {
      SameLeavesSameWalk(t, sh, u, shu, p);
    }
  }

  lemma {:induction false} LinkKeepsLeaves(t: Tables, sh: Shape, n: Node, i: Index, q: Frame, p: VPage)
    requires Tree(t, sh)
    requires n in sh.at && !n.L3? && Child(n, i) !in sh.at && q !in t.mem
    ensures sh.at[n] in t.mem
    ensures var u, shu := Link(t, sh.at[n], i, q), Attach(sh, n, i, q);
            && (LeafNode(p) in sh.at ==>
                  && LeafNode(p) in shu.at && shu.at[LeafNode(p)] == sh.at[LeafNode(p)] && sh.at[LeafNode(p)] in t.mem
                  && sh.at[LeafNode(p)] in u.mem && u.mem[sh.at[LeafNode(p)]] == t.mem[sh.at[LeafNode(p)]])
            && (LeafNode(p) in shu.at && LeafNode(p) !in sh.at ==>
                  shu.at[LeafNode(p)] in u.mem && u.mem[shu.at[LeafNode(p)]] == ZeroPage())
  {
    hide EntryFits;
  }

  /** Descending never reports a foreign descriptor, and fails only for lack of
      memory where nothing was linked. */
  lemma {:induction false} DescendKeepsTree(t: Tables, sh: Shape, others: set<Frame>, n: Node, i: Index,
      o: Option<Frame>)
    returns (shu: Shape)
    requires Tree(t, sh) && n in sh.at && !n.L3?
    ensures sh.at[n] in t.mem && Owned(t)
    ensures var r := Descend(t, others, sh.at[n], i, o);
            && Tree(r.t, shu)
            && (forall m | m in sh.at :: m in shu.at && shu.at[m] == sh.at[m])
            && (forall p :: HwWalk(r.t, p) == HwWalk(t, p))
            && (r.status == Success ==> Child(n, i) in shu.at && shu.at[Child(n, i)] == r.frame)
            && (r.status != Success ==> r.status == InsufficientResources && shu == sh && Child(n, i) !in sh.at)
            && (forall m | m in shu.at && m !in sh.at :: m == Child(n, i))
            && (forall f | f in r.t.mem && f !in t.mem :: f !in others)
  {
    shu := sh;
    assert EntryFits(t, sh, n, i);
    hide HwWalk, EntryFits, Distinct, Inverse;
    if Child(n, i) !in sh.at {
      match Granted(t, others, o)
      case None =>
      case Some(q) =>
        LinkKeepsTree(t, sh, n, i, q);
        shu := Attach(sh, n, i, q);
    }
  }

  lemma {:induction false} WalkKeepsTree(t: Tables, sh: Shape, others: set<Frame>, p: VPage, s: Supply)
      returns (shu: Shape)
    requires Tree(t, sh)
    ensures var r := WalkToLeaf(t, others, p, s);
            && Tree(r.t, shu)
            && (forall q :: HwWalk(r.t, q) == HwWalk(t, q))
            && (r.status == Success ==> LeafNode(p) in shu.at && shu.at[LeafNode(p)] == r.frame)
            && (r.status != Success ==> r.status == InsufficientResources && HwWalk(t, p) == Fault)
            && (forall f | f in r.t.mem && f !in t.mem :: f !in others)
  {
    hide HwWalk, Descend, EntryFits, Distinct, Inverse;
    shu := DescendKeepsTree(t, sh, others, L0, p.i0, s.o1);
    var d1 := Descend(t, others, t.root, p.i0, s.o1);
    if d1.status == Success {
      var sh1 := shu;
      shu := DescendKeepsTree(d1.t, sh1, others, L1(p.i0), p.i1, s.o2);
      var d2 := Descend(d1.t, others, d1.frame, p.i1, s.o2);
      if d2.status == Success {
        var sh2 := shu;
        shu := DescendKeepsTree(d2.t, sh2, others, L2(p.i0, p.i1), p.i2, s.o3);
      }
    }
    if WalkToLeaf(t, others, p, s).status != Success {
      assert LeafNode(p) !in shu.at by {
        assert Parent(LeafNode(p)) == L2(p.i0, p.i1) && Parent(L2(p.i0, p.i1)) == L1(p.i0);
      }
      WalkIsLookup(WalkToLeaf(t, others, p, s).t, shu, p);
    }
  }

  /** Writing one leaf changes the translation of one page. */
  lemma {:induction false} SetLeafChangesOnePage(t: Tables, sh: Shape, p: VPage, e: Word)
    requires Tree(t, sh) && LeafNode(p) in sh.at
    ensures sh.at[LeafNode(p)] in t.mem && Owned(t)
    ensures Tree(SetLeaf(t, sh.at[LeafNode(p)], p.i3, e), sh)
    ensures forall q :: HwWalk(SetLeaf(t, sh.at[LeafNode(p)], p.i3, e), q) ==
                        if q == p then LeafOutcome(e) else HwWalk(t, q)
  {
    var f := sh.at[LeafNode(p)];
    var u := SetLeaf(t, f, p.i3, e);
    forall m, j: Index | m in sh.at && !m.L3? ensures EntryFits(u, sh, m, j) {
      assert EntryFits(t, sh, m, j);
      assert sh.at[m] != f;
    }
    forall q ensures HwWalk(u, q) == if q == p then LeafOutcome(e) else HwWalk(t, q) {
      WalkIsLookup(t, sh, q);
      WalkIsLookup(u, sh, q);
    }
  }

  /** One page of a map or unmap: exactly that page changes, or nothing does and
      memory ran out where the page had no leaf. */
  lemma {:induction false} PutLeafChangesOnePage(t: Tables, sh: Shape, others: set<Frame>, p: VPage, e: Word, s: Supply)
    returns (shu: Shape)
    requires Tree(t, sh)
    ensures var r := PutLeaf(t, others, p, e, s);
            && Tree(r.t, shu)
            && r.status in {Success, InsufficientResources}
            && (r.status == Success ==> r.done == 1)
            && (r.status != Success ==> r.done == 0 && HwWalk(t, p) == Fault)
            && (forall q :: HwWalk(r.t, q) ==
                            if q == p && r.status == Success then LeafOutcome(e) else HwWalk(t, q))
            && (forall f | f in r.t.mem && f !in t.mem :: f !in others)
  {
    shu := WalkKeepsTree(t, sh, others, p, s);
    var w := WalkToLeaf(t, others, p, s);
    if w.status == Success {
      SetLeafChangesOnePage(w.t, shu, p, e);
    }
  }

  /** The flat map that mapping the first k pages of a request should leave:
      the last request for a page wins, every other page keeps its translation. */
  function MappedFlat(t: Tables, va: U64, pfns: seq<U64>, a: Attrs, k: nat, q: VPage): Outcome
    requires k <= |pfns|
  {
    if k == 0 then HwWalk(t, q)
    else if q == PageOf(PageAddr(va, k - 1)) then LeafOutcome(PfnDesc(pfns[k - 1], a))
    else MappedFlat(t, va, pfns, a, k - 1, q)
  }

  /** r is a tree that translates as mapping its first r.done pages demands, and
      it grew only by frames nobody else holds. */
  ghost predicate MappedSoFar(t: Tables, others: set<Frame>, va: U64, pfns: seq<U64>, a: Attrs, r: Progress, shu: Shape) {
    && Tree(r.t, shu)
    && r.status in {Success, InsufficientResources}
    && r.done <= |pfns|
    && (forall q :: HwWalk(r.t, q) == MappedFlat(t, va, pfns, a, r.done, q))
    && (forall f | f in r.t.mem && f !in t.mem :: f !in others)
  }

  lemma {:induction false} MapOneMore(t: Tables, others: set<Frame>, va: U64, pfns: seq<U64>, a: Attrs, r: Progress,
      sh: Shape, s: Supply)
    returns (shu: Shape)
    requires MappedSoFar(t, others, va, pfns, a, r, sh) && r.done < |pfns|
    ensures Owned(r.t)
    ensures var now := PutLeaf(r.t, others, PageOf(PageAddr(va, r.done)), PfnDesc(pfns[r.done], a), s);
            MappedSoFar(t, others, va, pfns, a, Progress(now.t, now.status, r.done + now.done), shu)
  {
    SoFarIsTree(t, others, va, pfns, a, r, sh);
    hide HwWalk, PutLeaf, Tree, PageOf, PageAddr, PfnDesc, LeafOutcome, Owned, MappedSoFar;
    var p, e := PageOf(PageAddr(va, r.done)), PfnDesc(pfns[r.done], a);
    shu := PutLeafChangesOnePage(r.t, sh, others, p, e, s);
    SoFarNext(t, others, va, pfns, a, r, sh, PutLeaf(r.t, others, p, e, s), shu);
  }

  lemma {:induction false} SoFarIsTree(t: Tables, others: set<Frame>, va: U64, pfns: seq<U64>, a: Attrs,
      r: Progress, sh: Shape)
    requires MappedSoFar(t, others, va, pfns, a, r, sh)
    ensures Tree(r.t, sh) && Owned(r.t) && r.done <= |pfns|
  {
  }

  lemma {:induction false} SoFarNext(t: Tables, others: set<Frame>, va: U64, pfns: seq<U64>, a: Attrs,
                                     r: Progress, sh: Shape, now: Progress, shu: Shape)
    requires MappedSoFar(t, others, va, pfns, a, r, sh) && r.done < |pfns|
    requires Tree(now.t, shu) && now.status in {Success, InsufficientResources}
    requires now.done == if now.status == Success then 1 else 0
    requires forall q :: HwWalk(now.t, q) ==
                         if q == PageOf(PageAddr(va, r.done)) && now.status == Success then LeafOutcome(PfnDesc(pfns[r.done], a))
                         else HwWalk(r.t, q)
    requires forall f | f in now.t.mem && f !in r.t.mem :: f !in others
    ensures MappedSoFar(t, others, va, pfns, a, Progress(now.t, now.status, r.done + now.done), shu)
  {
    hide HwWalk, Tree, PageOf, PageAddr, PfnDesc, LeafOutcome, MappedFlat;
    MappedFlatStep(t, r.t, now.t, va, pfns, a, r.done, now.done);
  }

  lemma {:induction false} MappedFlatStep(t: Tables, u: Tables, w: Tables, va: U64, pfns: seq<U64>, a: Attrs,
      k: nat, done: nat)
    requires k < |pfns| && done <= 1
    requires forall q :: HwWalk(u, q) == MappedFlat(t, va, pfns, a, k, q)
    requires forall q :: HwWalk(w, q) ==
               if q == PageOf(PageAddr(va, k)) && done == 1 then LeafOutcome(PfnDesc(pfns[k], a)) else HwWalk(u, q)
    ensures forall q :: HwWalk(w, q) == MappedFlat(t, va, pfns, a, k + done, q)
  {
    hide HwWalk, PageOf, PageAddr, PfnDesc, LeafOutcome;
  }

  lemma {:induction false} MapNothing(t: Tables, sh: Shape, others: set<Frame>, va: U64, pfns: seq<U64>, a: Attrs)
    requires Tree(t, sh)
    ensures MappedSoFar(t, others, va, pfns, a, Progress(t, Success, 0), sh)
  {
  }

  /** One more iteration. */
  lemma {:induction false} MapExtend(t: Tables, sh: Shape, others: set<Frame>, va: U64, pfns: seq<U64>, a: Attrs,
      ss: seq<Supply>)
    returns (shu: Shape)
    requires Owned(t) && 0 < |ss| <= |pfns|
    requires MappedSoFar(t, others, va, pfns, a, MapPages(t, others, va, pfns, a, ss[..|ss| - 1]), sh)
    ensures MappedSoFar(t, others, va, pfns, a, MapPages(t, others, va, pfns, a, ss), shu)
  {
    hide MappedSoFar, PutLeaf, PageOf, PageAddr, PfnDesc, Owned, HwWalk, Tree;
    shu := sh;
    var before := MapPages(t, others, va, pfns, a, ss[..|ss| - 1]);
    if before.status == Success {
      shu := MapOneMore(t, others, va, pfns, a, before, sh, ss[|ss| - 1]);
    }
  }

  /** WinMaliMmuVmMap refines the flat map, for every request and every allocator. */
  lemma {:induction false} MapRefinesFlat(t: Tables, sh: Shape, others: set<Frame>, va: U64, pfns: seq<U64>,
      a: Attrs, ss: seq<Supply>)
    returns (shu: Shape)
    requires Tree(t, sh) && |ss| <= |pfns|
    ensures MappedSoFar(t, others, va, pfns, a, MapPages(t, others, va, pfns, a, ss), shu)
    decreases |ss|
  {
    if |ss| == 0 {
      shu := sh;
      MapNothing(t, sh, others, va, pfns, a);
    } else {
      shu := MapRefinesFlat(t, sh, others, va, pfns, a, ss[..|ss| - 1]);
      hide MapPages, MappedSoFar, HwWalk;
      shu := MapExtend(t, shu, others, va, pfns, a, ss);
    }
  }

  lemma {:induction false} NoPagesYet(t: Tables, others: set<Frame>, va: U64, pfns: seq<U64>, a: Attrs)
    requires Owned(t)
    ensures MapPages(t, others, va, pfns, a, []) == Progress(t, Success, 0)
  {
  }

  /** One more iteration of a loop that has not failed. */
  lemma {:induction false} MapNext(t: Tables, others: set<Frame>, va: U64, pfns: seq<U64>, a: Attrs,
      ss: seq<Supply>, s: Supply, now: Tables)
    requires Owned(t) && |ss| < |pfns|
    requires MapPages(t, others, va, pfns, a, ss) == Progress(now, Success, |ss|)
    ensures Owned(now)
    ensures var r := PutLeaf(now, others, PageOf(PageAddr(va, |ss|)), PfnDesc(pfns[|ss|], a), s);
            && MapPages(t, others, va, pfns, a, ss + [s]) == Progress(r.t, r.status, |ss| + r.done)
            && (r.status == Success <==> r.done == 1)
  {
    hide PutLeaf, Owned, PageOf, PageAddr, PfnDesc;
    assert (ss + [s])[..|ss|] == ss;
  }

  /** Answers after a failed walk do not matter: the loop has ended. */
  lemma {:induction false} MapStopsAtFailure(t: Tables, others: set<Frame>, va: U64, pfns: seq<U64>, a: Attrs,
      ss: seq<Supply>, more: seq<Supply>)
    requires Owned(t) && |ss| + |more| <= |pfns|
    requires MapPages(t, others, va, pfns, a, ss).status != Success
    ensures MapPages(t, others, va, pfns, a, ss + more) == MapPages(t, others, va, pfns, a, ss)
    decreases |more|
  {
    hide PutLeaf, Owned;
    if |more| == 0 {
      assert ss + more == ss;
    } else {
      var n := |more| - 1;
      MapStopsAtFailure(t, others, va, pfns, a, ss, more[..n]);
      assert (ss + more)[..|ss + more| - 1] == ss + more[..n];
    }
  }

  /** Is q one of the first k pages from va on, addresses taken modulo 2^64? */
  ghost predicate InRange(va: U64, k: nat, q: VPage) {
    exists i | 0 <= i < k :: q == PageOf(PageAddr(va, i))
  }

  lemma {:induction false} OneMorePage(va: U64, k: nat, q: VPage)
    ensures InRange(va, k + 1, q) <==> InRange(va, k, q) || q == PageOf(PageAddr(va, k))
  {
  }

  lemma {:induction false} UnmapOneMore(t: Tables, before: Tables, sh: Shape, others: set<Frame>, va: U64, k: nat,
      s: Supply)
    returns (shu: Shape)
    requires Tree(before, sh)
    requires forall q :: HwWalk(before, q) == if InRange(va, k, q) then Fault else HwWalk(t, q)
    ensures var r := PutLeaf(before, others, PageOf(PageAddr(va, k)), ZERO, s);
            && Tree(r.t, shu)
            && (forall q :: HwWalk(r.t, q) == if InRange(va, k + 1, q) then Fault else HwWalk(t, q))
            && (forall f | f in r.t.mem && f !in before.mem :: f !in others)
  {
    assert Owned(before);
    hide HwWalk, PutLeaf, Tree, PageOf, PageAddr, Owned;
    var p := PageOf(PageAddr(va, k));
    shu := PutLeafChangesOnePage(before, sh, others, p, ZERO, s);
    assert LeafOutcome(ZERO) == Fault;
    forall q ensures InRange(va, k + 1, q) <==> InRange(va, k, q) || q == p { OneMorePage(va, k, q); }
    hide InRange, LeafOutcome;
  }

  /** WinMaliMmuVmUnmap leaves exactly its range untranslated, also when walks
      allocate or fail: a failed walk means the page had no leaf. */
  lemma {:induction false} UnmapClearsExactlyItsRange(t: Tables, sh: Shape, others: set<Frame>, va: U64,
      ss: seq<Supply>)
    returns (shu: Shape)
    requires Tree(t, sh)
    ensures var u := UnmapPages(t, others, va, ss);
            && Tree(u, shu)
            && (forall q :: HwWalk(u, q) == if InRange(va, |ss|, q) then Fault else HwWalk(t, q))
            && (forall f | f in u.mem && f !in t.mem :: f !in others)
    decreases |ss|
  {
    assert Owned(t);
    hide HwWalk, PutLeaf, Tree, PageOf, PageAddr, PfnDesc, Owned, MappedSoFar;
    shu := sh;
    if |ss| == 0 {
      assert UnmapPages(t, others, va, ss) == t;
    } else {
      var n := |ss| - 1;
      shu := UnmapClearsExactlyItsRange(t, sh, others, va, ss[..n]);
      shu := UnmapOneMore(t, UnmapPages(t, others, va, ss[..n]), shu, others, va, n, ss[n]);
      hide InRange;
    }
  }

  // ------------------------------------------------- statements on addresses

  /** What the MMU answers for a 48-bit address. */
  function Translate(t: Tables, x: U64): Outcome {
    HwWalk(t, PageOf(x))
  }

  lemma {:induction false} PageNumbers(x: U64, y: U64)
    requires y % 4096 == 0 && x < TWO_48 && y < TWO_48
    ensures PageOf(x) == PageOf(y) <==> y <= x < y + 4096
  {
    hide PageOf;
    SamePage(x, y);
    var m, n := x / 4096, y / 4096;
    assert y == 4096 * n && 4096 * m <= x < 4096 * m + 4096;
    assert m < 0x10_0000_0000 && n < 0x10_0000_0000;
    assert m % 0x10_0000_0000 == m && n % 0x10_0000_0000 == n;
  }

  lemma {:induction false} PagesInside48(va: U64, i: nat, x: U64)
    requires va % 4096 == 0 && va + i * 4096 + 4096 <= TWO_48 && x < TWO_48
    ensures PageAddr(va, i) == va + i * 4096
    ensures PageOf(x) == PageOf(PageAddr(va, i)) <==> va + i * 4096 <= x < va + i * 4096 + 4096
  {
    hide PageOf;
    PageNumbers(x, va + i * 4096);
  }

  lemma {:induction false} PfnDescIsValid(pfn: U64, a: Attrs)
    ensures IsValid(PfnDesc(pfn, a))
  {
  }

  lemma {:induction false} MappedFlatInside48(t: Tables, va: U64, pfns: seq<U64>, a: Attrs, k: nat, x: U64)
    requires va % 4096 == 0 && va + k * 4096 <= TWO_48 && x < TWO_48 && k <= |pfns|
    ensures MappedFlat(t, va, pfns, a, k, PageOf(x)) ==
            if va <= x < va + k * 4096 then Leaf(PfnDesc(pfns[(x - va) / 4096], a)) else Translate(t, x)
  {
    hide HwWalk, PageOf, PageAddr, PfnDesc, PageDesc;
    if k > 0 {
      PagesInside48(va, k - 1, x);
      MappedFlatInside48(t, va, pfns, a, k - 1, x);
      PfnDescIsValid(pfns[k - 1], a);
    }
  }

  /** A request inside the 48-bit space: the pages written translate to exactly
      what was asked, every other address is as before, and a failing request
      has written exactly the pages before the failing one. */
  lemma {:induction false} MapTranslation(t: Tables, sh: Shape, others: set<Frame>, va: U64, pfns: seq<U64>,
      a: Attrs, ss: seq<Supply>, x: U64)
    requires Tree(t, sh) && |ss| == |pfns|
    requires va % 4096 == 0 && va + |pfns| * 4096 <= TWO_48 && x < TWO_48
    ensures var r := MapPages(t, others, va, pfns, a, ss);
            && (r.status == Success <==> r.done == |pfns|)
            && (r.status == Success || r.status == InsufficientResources)
            && Translate(r.t, x) == (if va <= x < va + r.done * 4096
                                     then Leaf(PageDesc(pfns[(x - va) / 4096] % 0x10_0000_0000, a))
                                     else Translate(t, x))
  {
    assert Owned(t);
    hide HwWalk, Tree, PageOf, PutLeaf;
    var shu := MapRefinesFlat(t, sh, others, va, pfns, a, ss);
    MappedFlatInside48(t, va, pfns, a, MapPages(t, others, va, pfns, a, ss).done, x);
  }

  lemma {:induction false} UnmapTranslation(t: Tables, sh: Shape, others: set<Frame>, va: U64, ss: seq<Supply>, x: U64)
    requires Tree(t, sh)
    requires va % 4096 == 0 && va + |ss| * 4096 <= TWO_48 && x < TWO_48
    ensures Translate(UnmapPages(t, others, va, ss), x) ==
            if va <= x < va + |ss| * 4096 then Fault else Translate(t, x)
  {
    assert Owned(t);
    hide HwWalk, Tree, PageOf, PutLeaf;
    var shu := UnmapClearsExactlyItsRange(t, sh, others, va, ss);
    RangeInside48(va, |ss|, x);
  }

  lemma {:induction false} RangeInside48(va: U64, k: nat, x: U64)
    requires va % 4096 == 0 && va + k * 4096 <= TWO_48 && x < TWO_48
    ensures InRange(va, k, PageOf(x)) <==> va <= x < va + k * 4096
  {
    hide PageOf;
    if InRange(va, k, PageOf(x)) {
      var i :| 0 <= i < k && PageOf(x) == PageOf(PageAddr(va, i));
      PagesInside48(va, i, x);
    }
    if va <= x < va + k * 4096 {
      var i := (x - va) / 4096;
      PagesInside48(va, i, x);
    }
  }

  /** The walker drops address bits above 47, so a request stays within its own
      range exactly when it ends inside the 48-bit space. */
  lemma {:induction false} RequestStaysInItsRange(va: U64, k: nat)
    requires va % 4096 == 0 && va + k * 4096 <= TWO_64 && k < 0x1_0000_0000
    ensures (forall x: U64 | x < TWO_48 && !(va <= x < va + k * 4096) :: !InRange(va, k, PageOf(x)))
            <==> k == 0 || va + k * 4096 <= TWO_48
  {
    hide PageOf;
    if k == 0 || va + k * 4096 <= TWO_48 {
      if k > 0 {
        forall x: U64 | x < TWO_48 && !(va <= x < va + k * 4096) ensures !InRange(va, k, PageOf(x)) {
          RangeInside48(va, k, x);
        }
      }
    } else {
      var y := va + (k - 1) * 4096;
      var x: U64 := y % TWO_48;
      assert x / 4096 % 0x10_0000_0000 == y / 4096 % 0x10_0000_0000 by {
        assert y == TWO_48 * (y / TWO_48) + x;
        assert y / 4096 == 0x10_0000_0000 * (y / TWO_48) + x / 4096;
      }
      SamePage(x, y);
      assert PageAddr(va, k - 1) == y;
      assert InRange(va, k, PageOf(x));
    }
  }

  // ------------------------------------------------------------- the head count

  lemma {:induction false} BijectionSize<A, B>(m: map<A, B>)
    requires forall x, y | x in m && y in m && m[x] == m[y] :: x == y
    ensures |m.Keys| == |m.Values|
    decreases |m|
  {
    if m.Keys == {} {
      assert m.Values == {};
    } else {
      var x :| x in m;
      var rest := m - {x};
      assert rest.Keys == m.Keys - {x};
      forall v | v in rest.Values ensures v in m.Values - {m[x]} {
        var y :| y in rest && rest[y] == v;
      }
      forall v | v in m.Values - {m[x]} ensures v in rest.Values {
        var y :| y in m && m[y] == v;
        assert y in rest;
      }
      assert rest.Values == m.Values - {m[x]};
      BijectionSize(rest);
    }
  }

  ghost function SetOf(s: seq<Frame>): set<Frame> {
    set f | f in s
  }

  lemma {:induction false} DistinctSize(s: seq<Frame>)
    requires Distinct(s)
    ensures |SetOf(s)| == |s|
  {
    if |s| == 0 {
      assert SetOf(s) == {};
    } else {
      var n := |s| - 1;
      DistinctSize(s[..n]);
      assert s[n] !in SetOf(s[..n]);
      assert SetOf(s) == SetOf(s[..n]) + {s[n]};
    }
  }

  datatype Slot = Slot(n: Node, i: Index)

  function SlotOf(n: Node): Slot
    requires !n.L0?
  {
    Slot(Parent(n), LastIndex(n))
  }

  /** The table descriptors: valid entries of frames above level 3. */
  ghost function TableSlots(t: Tables, sh: Shape): (r: set<Slot>)
    requires Tree(t, sh)
  {
    set n, i | n in sh.at && !n.L3? && 0 <= i < 512 && IsValid(t.mem[sh.at[n]][i]) :: Slot(n, i)
  }

  /** Table descriptors and placed nodes other than the root match up. */
  lemma {:induction false} SlotNamesChild(t: Tables, sh: Shape, s: Slot)
    requires Tree(t, sh)
    ensures s in TableSlots(t, sh) <==> s.n in sh.at && !s.n.L3? && Child(s.n, s.i) in sh.at
  {
    if s.n in sh.at && !s.n.L3? {
      assert EntryFits(t, sh, s.n, s.i);
    }
  }

  lemma {:induction false} SlotOfChild(s: Slot, n: Node)
    ensures !s.n.L3? ==> Child(s.n, s.i) != L0 && SlotOf(Child(s.n, s.i)) == s
    ensures !n.L0? ==> !Parent(n).L3? && Child(Parent(n), LastIndex(n)) == n
  {
  }

  lemma {:induction false} SlotsAreChildren(t: Tables, sh: Shape)
    requires Tree(t, sh)
    ensures |TableSlots(t, sh)| == |sh.at.Keys - {L0}|
  {
    hide Tree, TableSlots, Child, Parent, LastIndex, SlotOf;
    var name := ChildNamesOf(t, sh);
    NamesAreKids(t, sh);
    forall s, r | s in name && r in name && name[s] == name[r] ensures s == r {
      SlotOfChild(s, L0);
      SlotOfChild(r, L0);
    }
    BijectionSize(name);
  }

  /** Which node each table descriptor leads to. */
  ghost function ChildNamesOf(t: Tables, sh: Shape): (m: map<Slot, Node>)
    requires Tree(t, sh)
    ensures m.Keys == TableSlots(t, sh)
    ensures forall s | s in m :: !s.n.L3? && m[s] == Child(s.n, s.i)
  {
    map s | s in TableSlots(t, sh) :: Child(s.n, s.i)
  }

  lemma {:induction false} NamesAreKids(t: Tables, sh: Shape)
    requires Tree(t, sh)
    ensures ChildNamesOf(t, sh).Values == sh.at.Keys - {L0}
  {
    var name, kids := ChildNamesOf(t, sh), sh.at.Keys - {L0};
    assert forall n | n in kids :: Parent(n) in sh.at;
    hide Tree, TableSlots, Child, Parent, LastIndex, SlotOf, ChildNamesOf;
    forall v | v in name.Values ensures v in kids {
      var s :| s in name && name[s] == v;
      SlotNamesChild(t, sh, s);
      SlotOfChild(s, L0);
    }
    forall n | n in kids ensures n in name.Values {
      SlotOfChild(Slot(L0, 0), n);
      var s := Slot(Parent(n), LastIndex(n));
      SlotNamesChild(t, sh, s);
      assert name[s] == n;
    }
  }

  /** The ownership list has one frame per position. */
  lemma {:induction false} OnePagePerNode(t: Tables, sh: Shape)
    requires Tree(t, sh)
    ensures |t.pages| == |sh.at.Keys| && L0 in sh.at
  {
    DistinctSize(t.pages);
    assert SetOf(t.pages) == sh.node.Keys;
    hide EntryFits, Owned;
    forall f | f in sh.node ensures f in sh.at.Values {
      assert sh.at[sh.node[f]] == f;
    }
    assert sh.at.Values == sh.node.Keys;
    BijectionSize(sh.at);
  }

  /** The ownership list is the root plus one frame per table descriptor. */
  lemma {:induction false} OnePagePerDescriptor(t: Tables, sh: Shape)
    requires Tree(t, sh)
    ensures |t.pages| == 1 + |TableSlots(t, sh)|
  {
    SlotsAreChildren(t, sh);
    OnePagePerNode(t, sh);
  }
}
