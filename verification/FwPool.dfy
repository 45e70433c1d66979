/** The page table of the firmware processor (AS0). Its table pages come from a
    bump pool, and the CPU finds a child table by its offset in the pool. Each
    call of WinMaliFwPtMap4k_ is shown to be one walk-and-store of module
    PageTables whose allocator is the pool, so the theorems there apply. */
module FwPool {
  import opened Wrappers
  import opened Lpae
  import opened PageTables

  /** Level by level, as the loop of WinMaliFwPtMap4k_ goes. */
  function IndexAt(p: VPage, level: nat): Index
    requires level < 3
  {
    if level == 0 then p.i0 else if level == 1 then p.i1 else p.i2
  }

  function NodeAt(p: VPage, level: nat): Node
    requires level <= 3
  {
    if level == 0 then L0 else if level == 1 then L1(p.i0) else if level == 2 then L2(p.i0, p.i1) else LeafNode(p)
  }

  function AnswerAt(s: Supply, level: nat): Option<Frame>
    requires level < 3
  {
    if level == 0 then s.o1 else if level == 1 then s.o2 else s.o3
  }

  function WithAnswer(s: Supply, level: nat, o: Option<Frame>): Supply
    requires level < 3
  {
    if level == 0 then s.(o1 := o) else if level == 1 then s.(o2 := o) else s.(o3 := o)
  }

  ghost function WalkDown(t: Tables, p: VPage, s: Supply, levels: nat): (r: Reply)
    requires Owned(t) && levels <= 3
    ensures Owned(r.t) && r.t.root == t.root
    ensures r.status == Success ==> r.frame in r.t.mem
  {
    if levels == 0 then Reply(t, Success, t.root)
    else
      var d := WalkDown(t, p, s, levels - 1);
      if d.status != Success then d
      else Descend(d.t, {}, d.frame, IndexAt(p, levels - 1), AnswerAt(s, levels - 1))
  }

  lemma {:induction false} WalkDownIsWalk(t: Tables, p: VPage, s: Supply)
    requires Owned(t)
    ensures WalkDown(t, p, s, 3) == WalkToLeaf(t, {}, p, s)
  {
    assert t.root in t.mem;
    hide Descend, Owned;
    assert WalkDown(t, p, s, 1) == Descend(t, {}, t.root, p.i0, s.o1);
    assert WalkDown(t, p, s, 2) == WalkToL2(t, {}, p, s);
  }

  lemma {:induction false} LaterAnswersDoNotMatter(t: Tables, p: VPage, s: Supply, levels: nat, level: nat,
      o: Option<Frame>)
    requires Owned(t) && levels <= level < 3
    ensures WalkDown(t, p, WithAnswer(s, level, o), levels) == WalkDown(t, p, s, levels)
  {
    hide Descend, Owned;
    if levels > 0 {
      LaterAnswersDoNotMatter(t, p, s, levels - 1, level, o);
    }
  }

  function Frames(frame: Frame, count: nat): (r: seq<U64>)
    requires frame + count <= TWO_36
    ensures |r| == count && forall i | 0 <= i < count :: r[i] == frame + i
  {
    seq(count, i requires 0 <= i < count => frame + i)
  }

  lemma {:induction false} FrameAt(frame: Frame, count: nat, i: nat)
    requires frame + count <= TWO_36 && i < count
    ensures Frames(frame, count)[i] == frame + i
  {
  }

  lemma {:induction false} PageAddrPlain(va: U64, i: nat, count: nat)
    requires va + count * 4096 <= TWO_64 && i < count
    ensures PageAddr(va, i) == va + i * 4096
  {
  }

  // ------------------------------------------------------------- sections and windows

  type U32 = x: int | 0 <= x < 0x1_0000_0000

  /** A loaded section; one of zero length has no backing. */
  datatype Section = Section(flags: U32, vaStart: U32, vaEnd: U32, backing: Option<Frame>)
  datatype Window = Window(base: U64, frame: Frame, count: nat, attrs: Attrs)

  /** What the image parser and the kernel guarantee of a section. */
  predicate SectionOk(s: Section) {
    && s.vaStart % 4096 == 0 && s.vaEnd % 4096 == 0
    && (s.backing.Some? && s.vaStart < s.vaEnd ==> s.backing.value + (s.vaEnd - s.vaStart) / 4096 <= TWO_36)
  }

  predicate Mapped(s: Section) { s.backing.Some? && s.vaStart < s.vaEnd }

  /** WinMaliFwSectionPteAttrs_: bit 1 grants writing, bit 2 executing. */
  function SectionPteAttrs(flags: U32): Attrs {
    var writable := flags / 2 % 2 != 0;
    var executable := flags / 4 % 2 != 0;
    if writable && executable then Attrs(false, false)
    else if writable then Attrs(false, true)
    else if executable then Attrs(true, false)
    else Attrs(true, true)
  }

  function PageCount(s: Section): (n: nat)
    requires SectionOk(s) && Mapped(s)
    ensures s.vaStart + n * 4096 == s.vaEnd && s.backing.value + n <= TWO_36
  {
    (s.vaEnd - s.vaStart) / 4096
  }

  /** The frame behind address x when count pages from va on are backed by consecutive frames. */
  function RunFrame(va: int, frame: Frame, count: nat, x: int): (f: Frame)
    requires frame + count <= TWO_36 && va <= x < va + count * 4096
    ensures f == frame + (x - va) / 4096 && 0 <= (x - va) / 4096 < count
  {
    frame + (x - va) / 4096
  }

  /** The flat map a section list should leave over t: the last section that covers an address wins. */
  function SectionFlat(t: Tables, secs: seq<Section>, x: U64): Outcome
    requires forall i | 0 <= i < |secs| :: SectionOk(secs[i])
  {
    if secs == [] then Translate(t, x)
    else
      var s := secs[|secs| - 1];
      if Mapped(s) && s.vaStart <= x < s.vaEnd
      then Leaf(PageDesc(RunFrame(s.vaStart, s.backing.value, PageCount(s), x), SectionPteAttrs(s.flags)))
      else SectionFlat(t, secs[..|secs| - 1], x)
  }

  predicate AllOk(secs: seq<Section>) {
    forall i | 0 <= i < |secs| :: SectionOk(secs[i])
  }

  /** Every address of t translates as the flat map of the sections over t0 says. */
  ghost predicate IsFlat(t: Tables, t0: Tables, secs: seq<Section>) {
    AllOk(secs) && forall x: U64 | x < TWO_48 :: Translate(t, x) == SectionFlat(t0, secs, x)
  }

  /** x is a page of the section, which has backing. */
  predicate Covers(s: Section, x: int) { s.backing.Some? && s.vaStart <= x < s.vaEnd }

  /** The leaf of an address of a section: its backing page, writable when flag bit 1 is
      set and executable when bit 2 is. */
  ghost predicate ShowsSection(o: Outcome, s: Section, x: int) {
    && o.Leaf? && IsValid(o.desc) && s.backing.Some?
    && o.desc.frame == s.backing.value + (x - s.vaStart) / 4096
    && (AttrsOf(o.desc).readOnly <==> s.flags / 2 % 2 == 0)
    && (AttrsOf(o.desc).noExecute <==> s.flags / 4 % 2 == 0)
  }

  lemma {:induction false} FlatIsLastSection(t0: Tables, secs: seq<Section>, k: nat, x: U64)
    requires AllOk(secs) && k <= |secs| && forall j | k <= j < |secs| :: !Covers(secs[j], x)
    ensures k == 0 ==> SectionFlat(t0, secs, x) == Translate(t0, x)
    ensures k > 0 && Covers(secs[k - 1], x) ==> ShowsSection(SectionFlat(t0, secs, x), secs[k - 1], x)
    decreases |secs|
  {
    hide Translate, AttrsOf, IsValid, PageDesc;
    if secs != [] {
      var front, s := secs[..|secs| - 1], secs[|secs| - 1];
      if k < |secs| {
        FlatIsLastSection(t0, front, k, x);
      } else if Covers(s, x) {
        DescriptorValues(RunFrame(s.vaStart, s.backing.value, PageCount(s), x), SectionPteAttrs(s.flags));
      }
    }
  }

  /** What loading leaves: an address translates as the last section that covers it says,
      to its backing page with the permissions of its flags; one no section covers is as
      before. */
  lemma {:induction false} LastSectionDecides(t: Tables, t0: Tables, secs: seq<Section>, k: nat, x: U64)
    requires IsFlat(t, t0, secs) && x < TWO_48 && k <= |secs|
    requires forall j | k <= j < |secs| :: !Covers(secs[j], x)
    ensures k == 0 ==> Translate(t, x) == Translate(t0, x)
    ensures k > 0 && Covers(secs[k - 1], x) ==> ShowsSection(Translate(t, x), secs[k - 1], x)
  {
    hide Translate, ShowsSection;
    FlatIsLastSection(t0, secs, k, x);
  }

  lemma {:induction false} NoSections(t: Tables, secs: seq<Section>)
    requires AllOk(secs)
    ensures IsFlat(t, t, secs[..0]) && SectionNodes(secs[..0]) == {}
  {
    hide Translate;
  }

  lemma {:induction false} FlatWithoutSection(t: Tables, t0: Tables, secs: seq<Section>, si: nat)
    requires AllOk(secs) && si < |secs| && IsFlat(t, t0, secs[..si]) && !Mapped(secs[si])
    ensures IsFlat(t, t0, secs[..si + 1])
  {
    hide Translate;
    assert secs[..si + 1][..si] == secs[..si];
  }

  lemma {:induction false} FlatAfterSection(t: Tables, u: Tables, t0: Tables, secs: seq<Section>, si: nat)
    requires AllOk(secs) && si < |secs| && IsFlat(t, t0, secs[..si]) && Mapped(secs[si])
    requires var s := secs[si];
             forall x: U64 | x < TWO_48 ::
               && (!(s.vaStart <= x < s.vaEnd) ==> Translate(u, x) == Translate(t, x))
               && (s.vaStart <= x < s.vaEnd ==>
                     Translate(u, x) == Leaf(PageDesc(RunFrame(s.vaStart, s.backing.value, PageCount(s), x),
                                                      SectionPteAttrs(s.flags))))
    ensures IsFlat(u, t0, secs[..si + 1])
  {
    hide Translate, RunFrame, SectionPteAttrs, PageDesc;
    assert secs[..si + 1][..si] == secs[..si];
  }

  lemma {:induction false} NodesOfNext(secs: seq<Section>, si: nat)
    requires AllOk(secs) && si < |secs|
    ensures SectionNodes(secs[..si + 1]) ==
              SectionNodes(secs[..si]) +
              if Mapped(secs[si]) then RunNodes(secs[si].vaStart, PageCount(secs[si])) else {}
  {
    hide RunNodes;
    assert secs[..si + 1][..si] == secs[..si];
  }

  function MaxEnd(secs: seq<Section>): (m: int)
    ensures 0 <= m < 0x1_0000_0000
    ensures forall i | 0 <= i < |secs| :: secs[i].vaEnd <= m
    ensures m == 0 || exists i :: 0 <= i < |secs| && secs[i].vaEnd == m
  {
    if secs == [] then 0
    else
      var m := MaxEnd(secs[..|secs| - 1]);
      if secs[|secs| - 1].vaEnd > m then secs[|secs| - 1].vaEnd else m
  }

  /** What a window's addresses should translate to. */
  function WindowOutcome(w: Window, x: int): Outcome
    requires w.frame + w.count <= TWO_36 && w.base <= x < w.base + w.count * 4096
  {
    Leaf(PageDesc(RunFrame(w.base, w.frame, w.count, x), w.attrs))
  }

  /** Rounding up with the masks ~0xfff and ~0xffff */
  function AlignPage(x: nat): (r: nat)
    ensures x <= r < x + 4096 && r % 4096 == 0
  {
    (x + 4095) / 4096 * 4096
  }

  function Pow2(bits: nat): (a: nat)
    ensures a > 0
  {
    if bits == 0 then 1 else 2 * Pow2(bits - 1)
  }

  /** (x + align - 1) & ~(align - 1) for an alignment of 2^bits */
  function AlignTo(x: nat, bits: nat): nat {
    (x + Pow2(bits) - 1) / Pow2(bits) * Pow2(bits)
  }

  function Align64K(x: nat): (r: nat)
    ensures x <= r < x + 65536 && r % 65536 == 0
  {
    (x + 65535) / 65536 * 65536
  }

  /** A run of consecutive frames, as the MMU sees it afterwards. */
  lemma {:induction false} RunTranslation(t: Tables, sh: Shape, va: U64, frame: Frame, count: nat, a: Attrs,
      ss: seq<Supply>, x: U64)
    requires Tree(t, sh) && |ss| == count && frame + count <= TWO_36
    requires va % 4096 == 0 && va + count * 4096 <= TWO_48 && x < TWO_48
    ensures var r := MapPages(t, {}, va, Frames(frame, count), a, ss);
            && (!(va <= x < va + count * 4096) ==> Translate(r.t, x) == Translate(t, x))
            && (r.status == Success && va <= x < va + count * 4096 ==>
                  Translate(r.t, x) == Leaf(PageDesc(RunFrame(va, frame, count, x), a)))
  {
    hide Tree, Translate, Frames, Owned, PageDesc, MapPages, RunFrame;
    TreeIsOwned(t, sh);
    MapTranslation(t, sh, {}, va, Frames(frame, count), a, ss, x);
    if va <= x < va + count * 4096 {
      FrameAt(frame, count, RunFrame(va, frame, count, x) - frame);
    }
  }

  /** The layout of the processor's address space after loading: below the
      sections' end the section map, above it disjoint windows in ascending
      order, each translating to its own frames. */
  ghost predicate LayoutOf(t: Tables, secs: seq<Section>, windows: seq<Window>, dynNext: int, empty: Tables) {
    && (forall i | 0 <= i < |secs| :: SectionOk(secs[i]))
    && MaxEnd(secs) <= dynNext <= TWO_48
    && (forall x: U64 | x < MaxEnd(secs) :: Translate(t, x) == SectionFlat(empty, secs, x))
    && (forall j | 0 <= j < |windows| ::
          && windows[j].frame + windows[j].count <= TWO_36
          && MaxEnd(secs) <= windows[j].base && windows[j].base + windows[j].count * 4096 <= dynNext)
    && (forall i, j | 0 <= i < j < |windows| :: windows[i].base + windows[i].count * 4096 <= windows[j].base)
    && (forall j, x: U64 | 0 <= j < |windows| && windows[j].base <= x < windows[j].base + windows[j].count * 4096 ::
          Translate(t, x) == WindowOutcome(windows[j], x))
  }

  /** What a layout shows: each window its own consecutive frames with its permissions,
      and below the windows the sections. */
  lemma {:induction false} LayoutShows(t: Tables, secs: seq<Section>, windows: seq<Window>, dynNext: int, empty: Tables,
      x: U64)
    requires LayoutOf(t, secs, windows, dynNext, empty)
    ensures forall j | 0 <= j < |windows| && windows[j].base <= x < windows[j].base + windows[j].count * 4096 ::
              && Translate(t, x).Leaf? && IsValid(Translate(t, x).desc)
              && Translate(t, x).desc.frame == windows[j].frame + (x - windows[j].base) / 4096
              && AttrsOf(Translate(t, x).desc) == windows[j].attrs
    ensures forall k | 0 <= k < |secs| && Covers(secs[k], x) && (forall j | k < j < |secs| :: !Covers(secs[j], x)) ::
              ShowsSection(Translate(t, x), secs[k], x)
  {
    hide Translate, AttrsOf, IsValid, PageDesc, ShowsSection;
    forall j | 0 <= j < |windows| && windows[j].base <= x < windows[j].base + windows[j].count * 4096
      ensures && Translate(t, x).Leaf? && IsValid(Translate(t, x).desc)
              && Translate(t, x).desc.frame == windows[j].frame + (x - windows[j].base) / 4096
              && AttrsOf(Translate(t, x).desc) == windows[j].attrs
    {
      var w := windows[j];
      assert Translate(t, x) == WindowOutcome(w, x);
      DescriptorValues(RunFrame(w.base, w.frame, w.count, x), w.attrs);
    }
    forall k | 0 <= k < |secs| && Covers(secs[k], x) && (forall j | k < j < |secs| :: !Covers(secs[j], x))
      ensures ShowsSection(Translate(t, x), secs[k], x)
    {
      assert secs[k].vaEnd <= MaxEnd(secs);
      FlatIsLastSection(empty, secs, k + 1, x);
    }
  }

  /** Changes above the allocated space do not touch the layout. */
  lemma {:induction false} LayoutStays(t: Tables, u: Tables, secs: seq<Section>, windows: seq<Window>, dynNext: int,
      empty: Tables)
    requires LayoutOf(t, secs, windows, dynNext, empty)
    requires forall x: U64 | x < dynNext :: Translate(u, x) == Translate(t, x)
    ensures LayoutOf(u, secs, windows, dynNext, empty)
  {
  }

  /** A new window above everything joins the layout. */
  lemma {:induction false} LayoutGrows(t: Tables, secs: seq<Section>, windows: seq<Window>, dynNext: int,
      empty: Tables, w: Window)
    requires LayoutOf(t, secs, windows, dynNext, empty)
    requires w.frame + w.count <= TWO_36 && dynNext <= w.base && w.base + w.count * 4096 <= TWO_48
    requires forall x: U64 | w.base <= x < w.base + w.count * 4096 :: Translate(t, x) == WindowOutcome(w, x)
    ensures LayoutOf(t, secs, windows + [w], w.base + w.count * 4096, empty)
  {
  }

  // ------------------------------------------------------------- how many table pages

  /** The positions on the way to a page, down to the given level. */
  function PathTo(p: VPage, level: nat): (r: set<Node>)
    requires level <= 3
    ensures L0 in r && NodeAt(p, level) in r
  {
    if level == 0 then {L0} else PathTo(p, level - 1) + {NodeAt(p, level)}
  }

  /** The table positions that count pages from va on hang from. */
  function RunNodes(va: U64, count: nat): set<Node>
    requires va + count * 4096 <= TWO_64
  {
    if count == 0 then {} else RunNodes(va, count - 1) + PathTo(PageOf(va + (count - 1) * 4096), 3)
  }

  /** The table positions the mapped sections hang from. */
  function SectionNodes(secs: seq<Section>): set<Node>
    requires forall i | 0 <= i < |secs| :: SectionOk(secs[i])
  {
    if secs == [] then {}
    else
      var s := secs[|secs| - 1];
      SectionNodes(secs[..|secs| - 1]) + if Mapped(s) then RunNodes(s.vaStart, PageCount(s)) else {}
  }

  /** The window a request gets, the next address being next. */
  function WindowFor(next: U64, frame: Frame, bytes: nat, bits: nat, a: Attrs): (w: Window)
    requires RequestFits(next, frame, bytes, bits)
    ensures w.frame + w.count <= TWO_36 && w.base + w.count * 4096 <= TWO_48
    ensures w.base + w.count * 4096 == AlignTo(next, bits) + AlignPage(bytes)
  {
    WholePages(bytes);
    Window(AlignTo(next, bits), frame, (bytes + 4095) / 4096, a)
  }

  /** The frames exist and the window ends inside the 48-bit space. */
  predicate RequestFits(next: U64, frame: Frame, bytes: nat, bits: nat) {
    frame + (bytes + 4095) / 4096 <= TWO_36 && AlignTo(next, bits) + AlignPage(bytes) <= TWO_48
  }

  /** A pool of so many bytes that holds these tables also holds those of the window. */
  predicate RoomFor(poolBytes: nat, held: set<Node>, w: Window) {
    w.base + w.count * 4096 <= TWO_48 && 4096 * |held + RunNodes(w.base, w.count)| <= poolBytes
  }

  lemma {:induction false} PathsGrow(p: VPage, level: nat, more: nat)
    requires level <= more <= 3
    ensures PathTo(p, level) <= PathTo(p, more)
    decreases more
  {
    if level < more { PathsGrow(p, level, more - 1); }
  }

  lemma {:induction false} RunsGrow(va: U64, some: nat, count: nat)
    requires some <= count && va + count * 4096 <= TWO_64
    ensures RunNodes(va, some) <= RunNodes(va, count)
    decreases count
  {
    hide PathTo;
    if some < count { RunsGrow(va, some, count - 1); }
  }

  lemma {:induction false} SectionsGrow(secs: seq<Section>, some: nat)
    requires some <= |secs| && forall i | 0 <= i < |secs| :: SectionOk(secs[i])
    ensures SectionNodes(secs[..some]) <= SectionNodes(secs)
    decreases |secs|
  {
    hide RunNodes;
    if some < |secs| {
      assert secs[..|secs| - 1][..some] == secs[..some];
      SectionsGrow(secs[..|secs| - 1], some);
    } else {
      assert secs[..some] == secs;
    }
  }

  lemma {:induction false} NoRun(va: U64)
    ensures RunNodes(va, 0) == {}
  {
  }

  lemma {:induction false} RunNext(va: U64, i: nat, count: nat)
    requires i < count && va + count * 4096 <= TWO_64
    ensures RunNodes(va, i + 1) == RunNodes(va, i) + PathTo(PageOf(va + i * 4096), 3)
  {
    hide PathTo;
  }

  /** A run that fails at page i never gets all its tables. */
  lemma {:induction false} StopsShort(before: set<Node>, va: U64, i: nat, count: nat, now: set<Node>)
    requires i < count && va + count * 4096 <= TWO_64
    requires now < before + RunNodes(va, i) + PathTo(PageOf(va + i * 4096), 3)
    ensures now < before + RunNodes(va, count)
  {
    RunNext(va, i, count);
    RunsGrow(va, i + 1, count);
    hide RunNodes, PathTo;
    assert before + RunNodes(va, i) + PathTo(PageOf(va + i * 4096), 3) == before + RunNodes(va, i + 1);
  }

  /** A table hangs over a run exactly when it lies on the way to one of its addresses. */
  lemma {:induction false} RunNodesIff(va: U64, count: nat, n: Node)
    requires va % 4096 == 0 && va + count * 4096 <= TWO_64
    ensures n in RunNodes(va, count) <==> exists x: U64 :: va <= x < va + count * 4096 && n in PathTo(PageOf(x), 3)
    decreases count
  {
    hide PathTo, PageOf;
    if count > 0 {
      RunNodesIff(va, count - 1, n);
      var last: U64 := va + (count - 1) * 4096;
      forall x: U64 | last <= x < va + count * 4096
        ensures PageOf(x) == PageOf(last)
      {
        assert x / 4096 == last / 4096;
        SamePage(x, last);
      }
      assert n in PathTo(PageOf(last), 3) ==> n in RunNodes(va, count);
    }
  }

  /** The tables a section list needs are those on the way to some address of a mapped section. */
  lemma {:induction false} SectionNodesIff(secs: seq<Section>, n: Node)
    requires forall i | 0 <= i < |secs| :: SectionOk(secs[i])
    ensures n in SectionNodes(secs) <==>
              exists i, x: U64 :: 0 <= i < |secs| && Mapped(secs[i]) && secs[i].vaStart <= x < secs[i].vaEnd &&
                             n in PathTo(PageOf(x), 3)
    decreases |secs|
  {
    hide PathTo, PageOf, RunNodes;
    if secs != [] {
      var last := secs[|secs| - 1];
      assert secs[|secs| - 1] == last;
      SectionNodesIff(secs[..|secs| - 1], n);
      if Mapped(last) { RunNodesIff(last.vaStart, PageCount(last), n); }
      if n in SectionNodes(secs[..|secs| - 1]) {
        var front := secs[..|secs| - 1];
        var i, x: U64 :|
          0 <= i < |front| && Mapped(front[i]) && front[i].vaStart <= x < front[i].vaEnd && n in PathTo(PageOf(x), 3);
        assert Mapped(secs[i]) && secs[i].vaStart <= x < secs[i].vaEnd;
      }
      forall i, x: U64 |
          0 <= i < |secs| && Mapped(secs[i]) && secs[i].vaStart <= x < secs[i].vaEnd && n in PathTo(PageOf(x), 3)
        ensures n in SectionNodes(secs)
      {
        if i < |secs| - 1 { assert secs[..|secs| - 1][i] == secs[i]; }
      }
    }
  }

  lemma {:induction false} FewerIsSmaller(a: set<Node>, b: set<Node>)
    requires a < b
    ensures |a| + 1 <= |b|
  {
    assert b == a + (b - a);
  }

  class Pool {
    const words: array<Word>
    const poolAt: Frame
    var ptUsed: nat
    /** McuDynNextVa */
    var dynNext: U64
    ghost var tables: Tables
    ghost var shape: Shape
    /** What Layout speaks about: the sections mapped at load time and the windows mapped since. */
    ghost var sections: seq<Section>
    ghost var windows: seq<Window>

    /** PtPoolBytes */
    function PoolBytes(): nat { words.Length * 8 }

    ghost predicate Sized()
      reads this
    {
      && words.Length % 512 == 0 && poolAt + words.Length / 512 <= TWO_36
      && ptUsed % 4096 == 0 && ptUsed <= PoolBytes()
    }

    /** Entry i of page k of the pool. */
    function Cell(k: nat, i: Index): Word
      requires k < words.Length / 512
      reads words
    {
      words[k * 512 + i]
    }

    method SetCell(k: nat, i: Index, e: Word)
      requires k < words.Length / 512
      modifies words
      ensures forall m: nat, j: Index | m < words.Length / 512 ::
                Cell(m, j) == if m == k && j == i then e else old(Cell(m, j))
    {
      words[k * 512 + i] := e;
    }

    /** The used part of the pool is the table. */
    ghost predicate Backed()
      reads this, words
    {
      && Sized()
      && |tables.pages| == ptUsed / 4096
      && (forall k | 0 <= k < |tables.pages| :: tables.pages[k] == poolAt + k)
      && (forall f | f in tables.mem :: poolAt <= f < poolAt + ptUsed / 4096 && |tables.mem[f]| == 512)
      && (forall f, i: Index | f in tables.mem :: tables.mem[f][i] == Cell(f - poolAt, i))
    }

    ghost predicate Valid()
      reads this, words
    {
      Tree(tables, shape) && Backed() && tables.root == poolAt
    }

    /** WinMaliFwPtAllocPage_: the number of a zeroed page, or failure when the pool is used up. */
    method AllocPage() returns (page: Option<nat>)
      requires Sized()
      modifies this`ptUsed, words
      ensures Sized()
      ensures page.Some? <==> old(ptUsed) + 4096 <= PoolBytes()
      ensures page.None? ==> ptUsed == old(ptUsed) && words[..] == old(words[..])
      ensures page.Some? ==>
                && page.value == old(ptUsed) / 4096 && ptUsed == old(ptUsed) + 4096
                && (forall m: nat, j: Index | m < words.Length / 512 ::
                      Cell(m, j) == if m == page.value then ZERO else old(Cell(m, j)))
    {
      if ptUsed + 4096 > PoolBytes() {
        return None;
      }
      var k := ptUsed / 4096;
      for i := 0 to 512
        invariant ptUsed == old(ptUsed)
        invariant forall m: nat, j: Index | m < words.Length / 512 ::
                    Cell(m, j) == if m == k && j < i then ZERO else old(Cell(m, j))
      {
        SetCell(k, i, ZERO);
      }
      ptUsed := ptUsed + 4096;
      page := Some(k);
    }

    /** The pool of WinMaliFwInit, its contents unspecified but for the root page taken from it. */
    constructor (poolPages: nat, poolAt: Frame)
      requires 0 < poolPages && poolAt + poolPages <= TWO_36
      ensures Valid() && ptUsed == 4096 && PoolBytes() == poolPages * 4096 && fresh(words)
      ensures tables == NewTables(poolAt) && shape == NewShape(poolAt)
    {
      words := new Word[poolPages * 512];
      this.poolAt := poolAt;
      ptUsed := 0;
      tables, shape := NewTables(poolAt), NewShape(poolAt);
      new;
      var root := AllocPage();
      NewIsTree(poolAt);
    }

    /** The frame of an existing child, as the offset the CPU adds to the pool base. */
    lemma {:induction false} ChildInPool(n: Node, i: Index)
      requires Valid() && n in shape.at && !n.L3?
      ensures shape.at[n] in tables.mem && Owned(tables)
      ensures poolAt <= shape.at[n] < poolAt + ptUsed / 4096 <= poolAt + words.Length / 512
      ensures Cell(shape.at[n] - poolAt, i) == tables.mem[shape.at[n]][i]
      ensures var e := tables.mem[shape.at[n]][i];
              if Child(n, i) in shape.at
              then IsValid(e) && e.frame != 0 && e.frame == shape.at[Child(n, i)] && e.frame in tables.pages
              else e == ZERO
    {
      assert EntryFits(tables, shape, n, i);
      if Child(n, i) in shape.at {
        var q := shape.at[Child(n, i)];
        assert q in tables.mem && q >= poolAt;
        assert shape.node[q] != L0;
        assert q != tables.root;
      }
    }

    /** A page was just allocated and zeroed, and the table does not name it yet. */
    ghost predicate Pending(child: nat)
      reads this, words
    {
      && Tree(tables, shape) && tables.root == poolAt && Sized()
      && child + 1 == ptUsed / 4096
      && |tables.pages| == child && (forall k | 0 <= k < child :: tables.pages[k] == poolAt + k)
      && (forall f | f in tables.mem :: poolAt <= f < poolAt + child && |tables.mem[f]| == 512)
      && (forall f, j: Index | f in tables.mem :: tables.mem[f][j] == Cell(f - poolAt, j))
      && (forall j: Index :: Cell(child, j) == ZERO)
    }

    /** WinMaliFwPtEnsureChild_: the page number of the child, allocated if the entry names none. */
    method EnsureChild(parent: nat, i: Index, ghost n: Node) returns (child: Option<nat>)
      requires Valid() && n in shape.at && !n.L3? && shape.at[n] == poolAt + parent
      modifies this`ptUsed, words
      ensures parent < words.Length / 512 && ptUsed >= old(ptUsed)
      ensures Child(n, i) in shape.at ==>
                && Valid() && child.Some? && poolAt + child.value == shape.at[Child(n, i)] && ptUsed == old(ptUsed)
                && Cell(parent, i) != ZERO
      ensures Child(n, i) !in shape.at ==>
                && (child.Some? <==> old(ptUsed) + 4096 <= PoolBytes())
                && (child.None? ==> Valid() && ptUsed == old(ptUsed))
                && (child.Some? ==>
                     && Pending(child.value) && child.value == old(ptUsed) / 4096 && parent < child.value
                     && Cell(parent, i) == ZERO && poolAt + child.value !in tables.mem)
    {
      hide Tree, Owned;
      ChildInPool(n, i);
      var e := Cell(parent, i);
      assert Backed();
      if IsValid(e) && e.frame != 0 {
        child := Some(e.frame - poolAt);
      } else {
        child := AllocPage();
        if child.None? {
          assert Backed();
        }
      }
    }

    /** t[idx] = childPa | 3, for the child page that was just allocated. */
    method LinkFresh(parent: nat, i: Index, child: nat, ghost n: Node)
      requires Pending(child) && parent < child
      requires n in shape.at && !n.L3? && Child(n, i) !in shape.at && shape.at[n] == poolAt + parent
      modifies this`ptUsed, this`tables, this`shape, words
      ensures Valid() && ptUsed == old(ptUsed) && Owned(old(tables)) && old(shape.at[n]) in old(tables).mem
      ensures tables == Link(old(tables), old(shape.at[n]), i, poolAt + child)
      ensures shape == Attach(old(shape), n, i, poolAt + child)
    {
      hide Tree, Cell, Owned, Attach, Backed, Link;
      assert poolAt + child !in tables.mem;
      LinkFits(tables, shape, n, i, poolAt + child);
      LinkRoot(n, i, child);
      StoreLink(parent, i, child);
      Place(n, i, poolAt + child);
    }

    /** Note where a new page sits. */
    ghost method Place(n: Node, i: Index, q: Frame)
      requires Backed() && !n.L3?
      modifies this`shape
      ensures Backed() && shape == Attach(old(shape), n, i, q)
    {
      hide Attach;
      shape := Attach(shape, n, i, q);
    }

    lemma {:induction false} LinkRoot(n: Node, i: Index, child: nat)
      requires Pending(child) && n in shape.at
      ensures poolAt + child < TWO_36 && Link(tables, shape.at[n], i, poolAt + child).root == tables.root == poolAt
    {
    }

    /** The store of LinkFresh, seen from the tables. */
    method StoreLink(parent: nat, i: Index, child: nat)
      requires Pending(child) && parent < child && poolAt + parent in tables.mem
      modifies this`tables, words
      ensures Backed() && poolAt + child < TWO_36
      ensures tables == Link(old(tables), poolAt + parent, i, poolAt + child)
    {
      hide Tree, Cell, Owned;
      ghost var was := tables;
      SetCell(parent, i, TableDesc(poolAt + child));
      tables := Link(tables, poolAt + parent, i, poolAt + child);
      forall g, j: Index | g in tables.mem ensures tables.mem[g][j] == Cell(g - poolAt, j) {
        if g != poolAt + child { assert was.mem[g][j] == old(Cell(g - poolAt, j)); }
      }
    }

    /** One turn of the loop of WinMaliFwPtMap4k_: find or make the child, then
        link it if the entry is zero. */
    method DescendOne(parent: nat, i: Index, ghost n: Node)
      returns (status: Status, child: nat, ghost o: Option<Frame>)
      requires Valid() && n in shape.at && !n.L3? && shape.at[n] == poolAt + parent
      modifies this`ptUsed, this`tables, this`shape, words
      ensures Valid() && Owned(old(tables)) && old(shape.at[n]) in old(tables).mem
      ensures var r := Descend(old(tables), {}, old(shape.at[n]), i, o);
              && tables == r.t && status == r.status
              && (status == Success ==> Child(n, i) in shape.at && r.frame == shape.at[Child(n, i)] == poolAt + child)
      ensures status != Success ==> ptUsed + 4096 > PoolBytes()
      ensures shape.at.Keys == old(shape.at.Keys) + if status == Success then {Child(n, i)} else {}
      ensures status != Success ==> Child(n, i) !in shape.at
      ensures ptUsed >= old(ptUsed)
    {
      hide Tree, Backed, Pending, Cell, Owned;
      ChildInPool(n, i);
      child, o := parent, None;
      var found := EnsureChild(parent, i, n);
      match found
      case None =>
        status := InsufficientResources;
      case Some(c) =>
        child := c;
        if Cell(parent, i) == ZERO {
          LinkFresh(parent, i, child, n);
          o := Some(poolAt + child);
        }
        status := Success;
    }

    /** t[i3] = leaf */
    method StoreLeaf(table: nat, i3: Index, e: Word, ghost p: VPage)
      requires i3 == p.i3 && Valid() && LeafNode(p) in shape.at && shape.at[LeafNode(p)] == poolAt + table
      modifies this`tables, words
      ensures Valid() && Owned(old(tables)) && poolAt + table in old(tables).mem
      ensures |old(tables).mem[poolAt + table]| == 512
      ensures tables == SetLeaf(old(tables), poolAt + table, p.i3, e)
    {
      hide Tree, Cell, HwWalk, Owned, Backed;
      LeafInPool(table, p, e);
      StoreCell(table, i3, e);
    }

    lemma {:induction false} LeafInPool(table: nat, p: VPage, e: Word)
      requires Valid() && LeafNode(p) in shape.at && shape.at[LeafNode(p)] == poolAt + table
      ensures poolAt + table in tables.mem && |tables.mem[poolAt + table]| == 512 && Backed() && poolAt + table < TWO_36
      ensures Owned(tables) && Tree(SetLeaf(tables, poolAt + table, p.i3, e), shape)
    {
      SetLeafChangesOnePage(tables, shape, p, e);
    }

    method StoreCell(table: nat, i3: Index, e: Word)
      requires Backed() && poolAt + table < TWO_36 && poolAt + table in tables.mem
      modifies this`tables, words
      ensures Backed() && |old(tables).mem[poolAt + table]| == 512
      ensures tables == SetLeaf(old(tables), poolAt + table, i3, e)
    {
      hide Cell;
      ghost var was := tables;
      SetCell(table, i3, e);
      tables := SetLeaf(tables, poolAt + table, i3, e);
      forall g, j: Index | g in tables.mem ensures tables.mem[g][j] == Cell(g - poolAt, j) {
        assert was.mem[g][j] == old(Cell(g - poolAt, j));
      }
    }

    lemma {:induction false} RootInPool()
      requires Valid()
      ensures L0 in shape.at && shape.at[L0] == tables.root == poolAt && Owned(tables)
    {
    }

    /** The used part of the pool is one page per position. */
    lemma {:induction false} UsedPages()
      requires Valid()
      ensures ptUsed == 4096 * |shape.at.Keys| <= PoolBytes()
    {
      OnePagePerNode(tables, shape);
    }

    lemma {:induction false} NodeStep(p: VPage, level: nat)
      requires level < 3
      ensures !NodeAt(p, level).L3? && Child(NodeAt(p, level), IndexAt(p, level)) == NodeAt(p, level + 1)
    {
    }

    /** WinMaliFwPtMap4k_ */
    method Map4k(va: U64, pfn: U64, a: Attrs) returns (status: Status, ghost s: Supply)
      requires Valid()
      modifies this`ptUsed, this`tables, this`shape, words
      ensures Valid() && Owned(old(tables)) && ptUsed >= old(ptUsed)
      ensures var r := PutLeaf(old(tables), {}, PageOf(va), PfnDesc(pfn, a), s);
              tables == r.t && status == r.status
      ensures status != Success ==> ptUsed + 4096 > PoolBytes()
      ensures status == Success ==> shape.at.Keys == old(shape.at.Keys) + PathTo(PageOf(va), 3)
      ensures status != Success ==> shape.at.Keys < old(shape.at.Keys) + PathTo(PageOf(va), 3)
    {
      hide PathTo;
      hide Valid, Owned, Descend, PageOf, NodeAt, IndexAt, AnswerAt, WithAnswer, PfnDesc;
      RootInPool();
      ghost var t0 := tables;
      ghost var p := PageOf(va);
      s := Supply(None, None, None);
      var t := 0;
      assert NodeAt(p, 0) == L0 by { NodeStart(p); }
      PathStart(p);
      for level := 0 to 3
        invariant Valid() && ptUsed >= old(ptUsed)
        invariant NodeAt(p, level) in shape.at && shape.at[NodeAt(p, level)] == poolAt + t
        invariant shape.at.Keys == old(shape.at.Keys) + PathTo(p, level)
        invariant poolAt + t < TWO_36 && WalkDown(t0, p, s, level) == Reply(tables, Success, poolAt + t)
      {
        var child;
        ghost var o;
        NodeStep(p, level);
        status, child, o := DescendOne(t, IndexFor(va, level), NodeAt(p, level));
        PathNext(p, level);
        LaterAnswersDoNotMatter(t0, p, s, level, level, o);
        ghost var s' := WithAnswer(s, level, o);
        AnswerGiven(s, level, o);
        assert WalkDown(t0, p, s', level + 1) ==
               Descend(WalkDown(t0, p, s', level).t, {}, WalkDown(t0, p, s', level).frame,
                       IndexAt(p, level), AnswerAt(s', level));
        s := s';
        if status != Success {
          FailsForGood(t0, p, s, level + 1);
          PathsGrow(p, level + 1, 3);
          assert NodeAt(p, level + 1) !in shape.at.Keys;
          WalkDownIsWalk(t0, p, s);
          return;
        }
        t := child;
      }
      WalkDownIsWalk(t0, p, s);
      assert NodeAt(p, 3) == LeafNode(p) by { NodeStart(p); }
      LastIndexOf(va);
      StoreLeaf(t, va / 4096 % 512, PfnDesc(pfn, a), p);
      status := Success;
    }

    /** The page loops of WinMaliFwBuildPtForSections_ and WinMaliFwMcuMapContiguous_:
        count pages from va on, backed by consecutive frames. */
    method MapRun(va: U64, frame: Frame, count: nat, a: Attrs) returns (status: Status, ghost ss: seq<Supply>)
      requires Valid() && va + count * 4096 <= TWO_64 && frame + count <= TWO_36
      modifies this`ptUsed, this`tables, this`shape, words
      ensures Valid() && Owned(old(tables)) && |ss| == count
      ensures var r := MapPages(old(tables), {}, va, Frames(frame, count), a, ss);
              tables == r.t && status == r.status
      ensures status != Success ==> ptUsed + 4096 > PoolBytes()
      ensures status == Success ==> shape.at.Keys == old(shape.at.Keys) + RunNodes(va, count)
      ensures status != Success ==> shape.at.Keys < old(shape.at.Keys) + RunNodes(va, count)
    {
      hide Valid, Owned, PutLeaf, PageOf, PageAddr, PfnDesc, Frames, PathTo, RunNodes, MapPages;
      RootInPool();
      NoRun(va);
      NoPagesYet(tables, {}, va, Frames(frame, count), a);
      ss := [];
      status := Success;
      var i := 0;
      while i < count
        invariant Valid() && 0 <= i <= count && status == Success && |ss| == i
        invariant MapPages(old(tables), {}, va, Frames(frame, count), a, ss) == Progress(tables, Success, i)
        invariant shape.at.Keys == old(shape.at.Keys) + RunNodes(va, i)
      {
        ghost var s;
        PageAddrPlain(va, i, count);
        FrameAt(frame, count, i);
        RunNext(va, i, count);
        ghost var now := tables;
        status, s := Map4k(va + i * 4096, frame + i, a);
        MapNext(old(tables), {}, va, Frames(frame, count), a, ss, s, now);
        ss := ss + [s];
        if status != Success {
          StopsShort(old(shape.at.Keys), va, i, count, shape.at.Keys);
          break;
        }
        i := i + 1;
      }
      if status != Success {
        ghost var more := seq(count - |ss|, _ => Supply(None, None, None));
        MapStopsAtFailure(old(tables), {}, va, Frames(frame, count), a, ss, more);
        ss := ss + more;
      }
    }

    /** What MapRun does to the translation of each address. */
    lemma {:induction false} AfterRun(t: Tables, sh: Shape, va: U64, frame: Frame, count: nat, a: Attrs,
        ss: seq<Supply>)
      requires Tree(t, sh) && |ss| == count && frame + count <= TWO_36
      requires va % 4096 == 0 && va + count * 4096 <= TWO_48
      ensures Owned(t)
      ensures var r := MapPages(t, {}, va, Frames(frame, count), a, ss);
              forall x: U64 | x < TWO_48 ::
                && (!(va <= x < va + count * 4096) ==> Translate(r.t, x) == Translate(t, x))
                && (r.status == Success && va <= x < va + count * 4096 ==>
                      Translate(r.t, x) == Leaf(PageDesc(RunFrame(va, frame, count, x), a)))
    {
      hide Tree, Translate, Frames, MapPages;
      TreeIsOwned(t, sh);
      forall x: U64 | x < TWO_48
        ensures var r := MapPages(t, {}, va, Frames(frame, count), a, ss);
                && (!(va <= x < va + count * 4096) ==> Translate(r.t, x) == Translate(t, x))
                && (r.status == Success && va <= x < va + count * 4096 ==>
                      Translate(r.t, x) == Leaf(PageDesc(RunFrame(va, frame, count, x), a)))
      {
        RunTranslation(t, sh, va, frame, count, a, ss, x);
      }
    }

    /** The page loop of one section of WinMaliFwBuildPtForSections_ */
    method MapSection(sec: Section, ghost t0: Tables, ghost secs: seq<Section>, ghost si: nat) returns (status: Status)
      requires Valid() && AllOk(secs) && si < |secs| && sec == secs[si] && Mapped(sec)
      requires IsFlat(tables, t0, secs[..si])
      modifies this`ptUsed, this`tables, this`shape, words
      ensures Valid()
      ensures status == Success ==>
                && IsFlat(tables, t0, secs[..si + 1])
                && shape.at.Keys == old(shape.at.Keys) + RunNodes(sec.vaStart, PageCount(sec))
      ensures status != Success ==>
                && status == InsufficientResources && ptUsed + 4096 > PoolBytes()
                && shape.at.Keys < old(shape.at.Keys) + RunNodes(sec.vaStart, PageCount(sec))
    {
      hide Translate, Tree, Backed, Owned, MapPages, Frames, SectionPteAttrs, RunNodes, IsFlat;
      ghost var t, sh := tables, shape;
      ghost var ss;
      assert Tree(t, sh);
      hide Valid;
      status, ss := MapRun(sec.vaStart, sec.backing.value, PageCount(sec), SectionPteAttrs(sec.flags));
      if status != Success {
        MapStatus(t, sec.vaStart, Frames(sec.backing.value, PageCount(sec)), SectionPteAttrs(sec.flags), ss, sh);
        return;
      }
      AfterRun(t, sh, sec.vaStart, sec.backing.value, PageCount(sec), SectionPteAttrs(sec.flags), ss);
      FlatAfterSection(t, tables, t0, secs, si);
    }

    /** WinMaliFwBuildPtForSections_: it succeeds exactly when the pool holds the tables
        the mapped sections need beside those it has, and then every address translates
        as the flat map of the section list says. */
    method BuildPtForSections(secs: seq<Section>) returns (status: Status)
      requires Valid() && AllOk(secs)
      modifies this`ptUsed, this`tables, this`shape, this`sections, words
      ensures Valid()
      ensures status == Success ==> sections == secs && IsFlat(tables, old(tables), secs)
      ensures status != Success ==> status == InsufficientResources && ptUsed + 4096 > PoolBytes()
      ensures status == Success <==> 4096 * |old(shape.at.Keys) + SectionNodes(secs)| <= PoolBytes()
      ensures status == Success ==> ptUsed == 4096 * |old(shape.at.Keys) + SectionNodes(secs)|
    {
      hide Valid, IsFlat, SectionNodes, RunNodes;
      ghost var t0 := tables;
      NoSections(tables, secs);
      for si := 0 to |secs|
        invariant Valid() && IsFlat(tables, t0, secs[..si])
        invariant shape.at.Keys == old(shape.at.Keys) + SectionNodes(secs[..si])
      {
        var sec := secs[si];
        NodesOfNext(secs, si);
        if sec.backing.Some? && sec.vaStart < sec.vaEnd {
          status := MapSection(sec, t0, secs, si);
          if status != Success {
            SectionsGrow(secs, si + 1);
            FewerIsSmaller(shape.at.Keys, old(shape.at.Keys) + SectionNodes(secs));
            UsedPages();
            return;
          }
        } else {
          FlatWithoutSection(tables, t0, secs, si);
        }
      }
      assert secs[..|secs|] == secs;
      UsedPages();
      KeepSections(secs);
      status := Success;
    }

    ghost method KeepSections(secs: seq<Section>)
      requires Valid()
      modifies this`sections
      ensures Valid() && sections == secs
    {
      sections := secs;
    }

    ghost predicate Layout(empty: Tables)
      reads this
    {
      LayoutOf(tables, sections, windows, dynNext, empty)
    }

    /** WinMaliFwInitMcuDynVa_ */
    method InitMcuDynVa(secs: seq<Section>, ghost empty: Tables)
      requires Valid() && sections == secs && forall i | 0 <= i < |secs| :: SectionOk(secs[i])
      requires forall x: U64 | x < TWO_48 :: Translate(tables, x) == SectionFlat(empty, secs, x)
      modifies this`dynNext, this`windows
      ensures Valid() && Layout(empty) && windows == [] && dynNext == Align64K(MaxEnd(secs))
    {
      hide Translate, Tree;
      var maxEnd := 0;
      for si := 0 to |secs|
        invariant maxEnd == MaxEnd(secs[..si])
      {
        assert secs[..si + 1][..si] == secs[..si];
        if secs[si].vaEnd > maxEnd {
          maxEnd := secs[si].vaEnd;
        }
      }
      assert secs[..|secs|] == secs;
      dynNext := Align64K(maxEnd);
      windows := [];
    }

    /** Map a run above everything allocated so far and account for it. */
    method MapWindow(w: Window, ghost empty: Tables) returns (status: Status)
      requires Valid() && Layout(empty)
      requires w.frame + w.count <= TWO_36 && w.base % 4096 == 0
      requires dynNext <= w.base && w.base + w.count * 4096 <= TWO_48
      modifies this`ptUsed, this`tables, this`shape, this`dynNext, this`windows, words
      ensures Valid() && Layout(empty)
      ensures status == Success ==> windows == old(windows) + [w] && dynNext == w.base + w.count * 4096
      ensures status != Success ==>
                && windows == old(windows) && dynNext == old(dynNext) && status == InsufficientResources
      ensures status == Success <==> RoomFor(PoolBytes(), old(shape.at.Keys), w)
    {
      hide Valid, Translate, Tree, Backed, Owned, MapPages, Frames, LayoutOf, WindowOutcome, RunNodes;
      TablesAreATree();
      ghost var t, sh := tables, shape;
      ghost var ss;
      status, ss := MapRun(w.base, w.frame, w.count, w.attrs);
      UsedPages();
      if status != Success {
        FewerIsSmaller(shape.at.Keys, old(shape.at.Keys) + RunNodes(w.base, w.count));
        MapStatus(t, w.base, Frames(w.frame, w.count), w.attrs, ss, sh);
      }
      AfterRun(t, sh, w.base, w.frame, w.count, w.attrs, ss);
      SameOutcomes(w);
      LayoutStays(t, tables, sections, windows, dynNext, empty);
      if status == Success {
        NewWindow(w, empty);
      }
    }

    /** WinMaliFwMcuMapContiguous_ for an alignment of 2^bits: a window at the next such
        address, exactly when the pool still holds the tables it needs. */
    method McuMapContiguous(frame: Frame, bytes: nat, bits: nat, a: Attrs, ghost empty: Tables)
      returns (status: Status, mcuVa: U64)
      requires Valid() && Layout(empty) && RequestFits(dynNext, frame, bytes, bits)
      modifies this`ptUsed, this`tables, this`shape, this`dynNext, this`windows, words
      ensures Valid() && Layout(empty)
      ensures status == InvalidParameter <==> bytes == 0 || Pow2(bits) < 4096
      ensures status == InvalidParameter ==> tables == old(tables)
      ensures var w := WindowFor(old(dynNext), frame, bytes, bits, a);
              && (status == Success <==> bytes > 0 && bits >= 12 && RoomFor(PoolBytes(), old(shape.at.Keys), w))
              && (if status == Success
                  then mcuVa == w.base && dynNext == w.base + w.count * 4096 && windows == old(windows) + [w]
                  else dynNext == old(dynNext) && windows == old(windows))
    {
      hide Valid, Layout, AlignTo, AlignPage, Pow2, RunNodes;
      mcuVa := 0;
      PageSizes(bits);
      if bytes == 0 || Pow2(bits) < 4096 {
        status := InvalidParameter;
      } else {
        WholePages(bytes);
        AlignToIsNext(dynNext, bits);
        var base := AlignTo(dynNext, bits);
        status := MapWindow(Window(base, frame, (bytes + 4095) / 4096, a), empty);
        if status == Success {
          mcuVa := base;
        }
      }
    }

    /** Whatever a window call gets is a multiple of its alignment, the least from the old
        next address on. */
    lemma {:induction false} WindowIsNext(frame: Frame, bytes: nat, bits: nat, a: Attrs)
      requires RequestFits(dynNext, frame, bytes, bits)
      ensures var w := WindowFor(dynNext, frame, bytes, bits, a);
              dynNext <= w.base < dynNext + Pow2(bits) && w.base % Pow2(bits) == 0
    {
      hide Pow2;
      AlignToIsNext(dynNext, bits);
    }

    lemma {:induction false} TablesAreATree()
      requires Valid()
      ensures Tree(tables, shape)
    {
    }

    lemma {:induction false} SameOutcomes(w: Window)
      requires w.frame + w.count <= TWO_36
      ensures forall x | w.base <= x < w.base + w.count * 4096 ::
                WindowOutcome(w, x) == Leaf(PageDesc(RunFrame(w.base, w.frame, w.count, x), w.attrs))
    {
    }

    /** Fw->McuDynNextVa = base + pages * 4096 */
    method NewWindow(w: Window, ghost empty: Tables)
      requires Valid() && Layout(empty)
      requires w.frame + w.count <= TWO_36 && dynNext <= w.base && w.base + w.count * 4096 <= TWO_48
      requires forall x: U64 | w.base <= x < w.base + w.count * 4096 :: Translate(tables, x) == WindowOutcome(w, x)
      modifies this`dynNext, this`windows
      ensures Valid() && Layout(empty) && windows == old(windows) + [w] && dynNext == w.base + w.count * 4096
    {
      hide Translate, Tree, LayoutOf, WindowOutcome;
      LayoutGrows(tables, sections, windows, dynNext, empty, w);
      dynNext := w.base + w.count * 4096;
      windows := windows + [w];
    }

    /** (McuVa >> shift) & 0x1ff with shift = 39 - 9 * level */
    function IndexFor(va: U64, level: nat): (i: Index)
      requires level < 3
      ensures i == IndexAt(PageOf(va), level)
    {
      if level == 0 then va / 0x80_0000_0000 % 512
      else if level == 1 then va / 0x4000_0000 % 512 else va / 0x20_0000 % 512
    }
  }

  lemma {:induction false} PowersGrow(some: nat, bits: nat)
    requires some < bits
    ensures Pow2(some) < Pow2(bits)
    decreases bits
  {
    if some < bits - 1 { PowersGrow(some, bits - 1); }
  }

  lemma {:induction false} PageSizes(bits: nat)
    ensures Pow2(12) == 4096
    ensures bits < 12 <==> Pow2(bits) < 4096
    ensures bits >= 12 ==> Pow2(bits) % 4096 == 0
    decreases bits
  {
    assert Pow2(3) == 8;
    assert Pow2(6) == 64;
    assert Pow2(9) == 512;
    if bits < 12 {
      PowersGrow(bits, 12);
    } else if bits > 12 {
      PageSizes(bits - 1);
      PowersGrow(12, bits);
      TwicePages(Pow2(bits - 1));
    }
  }

  lemma {:induction false} TwicePages(a: nat)
    requires a % 4096 == 0
    ensures 2 * a % 4096 == 0
  {
  }

  /** The least multiple of the alignment from x on. */
  lemma {:induction false} AlignToIsNext(x: nat, bits: nat)
    ensures x <= AlignTo(x, bits) < x + Pow2(bits) && AlignTo(x, bits) % Pow2(bits) == 0
    ensures bits >= 12 ==> AlignTo(x, bits) % 4096 == 0
  {
    var a, q := Pow2(bits), (x + Pow2(bits) - 1) / Pow2(bits);
    NextMultiple(x, a);
    if bits >= 12 {
      PageSizes(bits);
      assert a == 4096 * (a / 4096);
      assert q * a == 4096 * (q * (a / 4096)) by { Regroup(q, a / 4096); }
      MultipleOf(q * (a / 4096), 4096);
    }
  }

  lemma {:induction false} NextMultiple(x: nat, a: nat)
    requires a > 0
    ensures x <= (x + a - 1) / a * a < x + a && (x + a - 1) / a * a % a == 0
  {
    var q := (x + a - 1) / a;
    assert x + a - 1 == q * a + (x + a - 1) % a;
    MultipleOf(q, a);
  }

  lemma {:induction false} MultipleOf(q: nat, a: nat)
    requires a > 0
    ensures q * a % a == 0
  {
    var d := q * a / a;
    assert q * a == d * a + q * a % a;
    if d < q { OneMore(d, q, a); }
    if q < d { OneMore(q, d, a); }
  }

  lemma {:induction false} OneMore(x: nat, y: nat, a: nat)
    requires x < y
    ensures y * a >= x * a + a
  {
    assert y * a == x * a + (y - x) * a;
    assert (y - x) * a == a + (y - x - 1) * a;
  }

  lemma {:induction false} Regroup(q: nat, k: nat)
    ensures q * (4096 * k) == 4096 * (q * k)
  {
  }

  lemma {:induction false} WholePages(bytes: nat)
    ensures AlignPage(bytes) == (bytes + 4095) / 4096 * 4096 && AlignPage(bytes) / 4096 == (bytes + 4095) / 4096
  {
  }

  lemma {:induction false} TreeIsOwned(t: Tables, sh: Shape)
    requires Tree(t, sh)
    ensures Owned(t)
  {
  }

  lemma {:induction false} MapStatus(t: Tables, va: U64, pfns: seq<U64>, a: Attrs, ss: seq<Supply>, sh: Shape)
    requires Tree(t, sh) && |ss| <= |pfns|
    ensures Owned(t)
    ensures MapPages(t, {}, va, pfns, a, ss).status in {Success, InsufficientResources}
  {
    var shu := MapRefinesFlat(t, sh, {}, va, pfns, a, ss);
  }

  lemma {:induction false} LastIndexOf(va: U64)
    ensures va / 4096 % 512 == PageOf(va).i3
  {
  }

  lemma {:induction false} PathStart(p: VPage)
    ensures PathTo(p, 0) == {L0}
  {
  }

  lemma {:induction false} PathNext(p: VPage, level: nat)
    requires level < 3
    ensures PathTo(p, level + 1) == PathTo(p, level) + {NodeAt(p, level + 1)}
  {
  }

  lemma {:induction false} NodeStart(p: VPage)
    ensures NodeAt(p, 0) == L0 && NodeAt(p, 3) == LeafNode(p)
  {
  }

  lemma {:induction false} AnswerGiven(s: Supply, level: nat, o: Option<Frame>)
    requires level < 3
    ensures AnswerAt(WithAnswer(s, level, o), level) == o
  {
  }

  lemma {:induction false} FailsForGood(t: Tables, p: VPage, s: Supply, levels: nat)
    requires Owned(t) && levels <= 3 && WalkDown(t, p, s, levels).status != Success
    ensures WalkDown(t, p, s, 3) == WalkDown(t, p, s, levels)
    decreases 3 - levels
  {
  }
}
