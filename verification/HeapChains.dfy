/** Tiler-heap chunk chains as the GPU follows them: each link word is read through
    the VM's own translation. */
module HeapChains {
  import opened Wrappers
  import opened Lpae
  import opened PageTables

  const HEAP_ATTRS: Attrs := Attrs(false, true)
  const HEAP_BASE: nat := 0x1000_0000

  /** One mapped allocation: its address, its frames, and the word at its start. */
  datatype Region = Region(va: nat, frames: seq<Frame>, word: U64) {
    function End(): nat { va + 4096 * |frames| }
  }

  /** One heap: the region of its context page, its chunks right after it. */
  datatype Heap = Heap(ctx: nat, count: nat, chunkSize: nat)

  /** The address of every page from va on leads to the frame listed for it. */
  ghost predicate Maps(t: Tables, va: nat, frames: seq<Frame>) {
    forall x: U64 | va <= x < va + 4096 * |frames| ::
      Translate(t, x) == Leaf(PageDesc(frames[(x - va) / 4096], HEAP_ATTRS))
  }

  ghost predicate SameOutside(t: Tables, u: Tables, va: nat, size: nat) {
    forall x: U64 | x < TWO_48 && !(va <= x < va + size) :: Translate(u, x) == Translate(t, x)
  }

  /** What an allocation attempt at va changed: its first pages lead to these frames, the
      rest of the first swept pages is untranslated, every other address is as before. */
  ghost predicate Remap(t: Tables, u: Tables, va: nat, frames: seq<Frame>, swept: nat) {
    forall x: U64 | x < TWO_48 ::
      Translate(u, x) ==
        if va <= x < va + 4096 * |frames| then Leaf(PageDesc(frames[(x - va) / 4096], HEAP_ATTRS))
        else if va <= x < va + 4096 * swept then Fault
        else Translate(t, x)
  }

  /** At and above next only the listed pages are translated, each to the frame listed for it. */
  ghost predicate Window(t: Tables, stale: map<nat, Frame>, next: nat) {
    && (forall x: U64 | next <= x < TWO_48 ::
          Translate(t, x) == if x / 4096 in stale then Leaf(PageDesc(stale[x / 4096], HEAP_ATTRS)) else Fault)
    && (forall g | g in stale :: next <= 4096 * g < TWO_48)
  }

  /** The listed pages outside [va, va + 4096 * n) */
  function Swept(stale: map<nat, Frame>, va: nat, n: nat): (r: map<nat, Frame>)
    ensures stale == map[] ==> r == map[]
  {
    map g | g in stale && !(va / 4096 <= g < va / 4096 + n) :: stale[g]
  }

  /** The pages from va on, each with its frame */
  function Listed(va: nat, frames: seq<Frame>): map<nat, Frame> {
    map g | va / 4096 <= g < va / 4096 + |frames| :: FrameAt(va, frames, g)
  }

  function FrameAt(va: nat, frames: seq<Frame>, g: int): Frame
    requires va / 4096 <= g < va / 4096 + |frames|
  {
    frames[g - va / 4096]
  }

  /** The allocations made so far leave no gap between base and next. */
  ghost predicate Tiled(rs: seq<Region>, base: nat, next: nat) {
    forall x: nat | base <= x < next :: InSome(rs, x)
  }

  ghost predicate InSome(rs: seq<Region>, x: nat) {
    exists i :: 0 <= i < |rs| && rs[i].va <= x < rs[i].End()
  }

  /** x leads to the page an allocation at x was given. */
  ghost predicate Recorded(rs: seq<Region>, x: nat, f: Frame) {
    exists i :: 0 <= i < |rs| && rs[i].va <= x < rs[i].End() && rs[i].frames[(x - rs[i].va) / 4096] == f
  }

  /** The word at an address, read the way the GPU reads it. */
  ghost function ReadWord(t: Tables, words: map<Frame, U64>, va: U64): Option<U64> {
    match Translate(t, va)
    case Leaf(d) => if d.frame in words then Some(words[d.frame]) else None
    case _ => None
  }

  /** (prev & ~0xFFF) | (size >> 12), or 0 for the first chunk */
  function LinkWord(prev: nat, size: nat): nat {
    if prev != 0 then prev - prev % 4096 + size / 4096 else 0
  }

  /** The addresses visited from va on, at most fuel of them. */
  ghost function Follow(t: Tables, words: map<Frame, U64>, va: U64, fuel: nat): seq<nat>
    decreases fuel
  {
    if fuel == 0 || va == 0 then []
    else
      match ReadWord(t, words, va)
      case None => [va]
      case Some(w) => [va] + Follow(t, words, w - w % 4096, fuel - 1)
  }

  /** n addresses going down in steps of size */
  function Downward(va: nat, size: nat, n: nat): (r: seq<nat>)
    requires n > 0 ==> (n - 1) * size <= va
    ensures |r| == n
  {
    if n == 0 then [] else [va] + Downward(if n == 1 then 0 else va - size, size, n - 1)
  }

  ghost predicate RegionOk(t: Tables, words: map<Frame, U64>, owned: set<Frame>, r: Region) {
    && HEAP_BASE <= r.va && r.va % 4096 == 0 && r.End() <= TWO_48
    && r.frames != [] && Maps(t, r.va, r.frames)
    && r.frames[0] in words && words[r.frames[0]] == r.word
    && (forall f | f in r.frames :: f in owned)
  }

  /** Every allocation ever made is still mapped where it was, and they lie one after
      the other, all below next. */
  ghost predicate RegionsOk(t: Tables, words: map<Frame, U64>, owned: set<Frame>, rs: seq<Region>, next: nat) {
    && (forall i | 0 <= i < |rs| :: RegionOk(t, words, owned, rs[i]) && rs[i].End() <= next)
    && (forall i, j | 0 <= i < j < |rs| :: rs[i].End() <= rs[j].va)
    && (forall i, j | 0 <= i < j < |rs| :: forall f | f in rs[i].frames :: f !in rs[j].frames)
  }

  ghost predicate HeapOk(rs: seq<Region>, h: Heap) {
    && 0 < h.count && h.chunkSize % 4096 == 0 && 0 < h.chunkSize <= 0x20_0000
    && h.ctx + h.count < |rs|
    && |rs[h.ctx].frames| == 1 && rs[h.ctx].word == 0
    && (forall i: nat | i < h.count :: ChunkOk(rs, h, i))
  }

  ghost predicate ChunkOk(rs: seq<Region>, h: Heap, i: nat)
    requires h.ctx + i + 1 < |rs|
  {
    var r := rs[h.ctx + i + 1];
    && 4096 * |r.frames| == h.chunkSize
    && r.va == rs[h.ctx].va + 4096 + i * h.chunkSize
    && r.word == LinkWord(if i == 0 then 0 else rs[h.ctx + i].va, h.chunkSize)
  }

  /** A link word gives back both the previous chunk's address and the chunk size. */
  lemma {:induction false} LinkDecodes(prev: nat, size: nat)
    requires 0 < prev && prev % 4096 == 0 && size % 4096 == 0 && size / 4096 < 4096
    ensures LinkWord(prev, size) - LinkWord(prev, size) % 4096 == prev
    ensures LinkWord(prev, size) % 4096 * 4096 == size
    ensures LinkWord(prev, size) != 0
  {
  }

  /** Every address of an allocation leads to its own page, writable and not executable. */
  lemma {:induction false} RegionShows(t: Tables, words: map<Frame, U64>, owned: set<Frame>, r: Region, x: U64)
    requires RegionOk(t, words, owned, r) && r.va <= x < r.End()
    ensures Translate(t, x).Leaf? && IsValid(Translate(t, x).desc)
    ensures Translate(t, x).desc.frame == r.frames[(x - r.va) / 4096]
    ensures !AttrsOf(Translate(t, x).desc).readOnly && AttrsOf(Translate(t, x).desc).noExecute
  {
    hide Translate, AttrsOf, IsValid, PageDesc;
    DescriptorValues(r.frames[(x - r.va) / 4096], HEAP_ATTRS);
  }

  lemma {:induction false} ReadsRegion(t: Tables, words: map<Frame, U64>, owned: set<Frame>, r: Region)
    requires RegionOk(t, words, owned, r)
    ensures ReadWord(t, words, r.va) == Some(r.word)
  {
  }

  /** From chunk i down, the chain visits chunks i, i - 1, .., 0 and stops at the zero link. */
  lemma {:induction false} FollowDown(t: Tables, words: map<Frame, U64>, owned: set<Frame>, rs: seq<Region>, next: nat,
                                      h: Heap, i: nat, fuel: nat)
    requires RegionsOk(t, words, owned, rs, next) && HeapOk(rs, h) && i < h.count && fuel > i
    ensures i * h.chunkSize <= rs[h.ctx + i + 1].va
    ensures Follow(t, words, rs[h.ctx + i + 1].va, fuel) == Downward(rs[h.ctx + i + 1].va, h.chunkSize, i + 1)
    decreases i
  {
    hide RegionsOk;
    hide ReadWord;
    var r := rs[h.ctx + i + 1];
    RegionAt(t, words, owned, rs, next, h.ctx + i + 1);
    ReadsRegion(t, words, owned, r);
    hide RegionOk;
    assert ChunkOk(rs, h, i);
    if i == 0 {
      assert r.word == 0;
      assert Follow(t, words, r.va, fuel) == [r.va] + Follow(t, words, 0, fuel - 1);
      assert Downward(r.va, h.chunkSize, 1) == [r.va] + Downward(0, h.chunkSize, 0);
    } else {
      var prev := rs[h.ctx + i].va;
      assert ChunkOk(rs, h, i - 1);
      RegionAt(t, words, owned, rs, next, h.ctx + i);
      LinkDecodes(prev, h.chunkSize);
      OneStep(i, h.chunkSize);
      FollowDown(t, words, owned, rs, next, h, i - 1, fuel - 1);
      assert prev == r.va - h.chunkSize;
    }
  }

  lemma {:induction false} OneStep(i: nat, size: nat)
    requires i > 0
    ensures i * size == (i - 1) * size + size
  {
  }

  lemma {:induction false} RegionAt(t: Tables, words: map<Frame, U64>, owned: set<Frame>, rs: seq<Region>,
      next: nat, i: nat)
    requires RegionsOk(t, words, owned, rs, next) && i < |rs|
    ensures RegionOk(t, words, owned, rs[i])
    ensures HEAP_BASE <= rs[i].va < rs[i].End() <= TWO_48 && rs[i].va % 4096 == 0
  {
  }

  /** Starting at the newest chunk, the links visit exactly the heap's chunks, newest to
      oldest, and then end. */
  lemma {:induction false} ChainVisitsExactlyTheChunks(t: Tables, words: map<Frame, U64>, owned: set<Frame>,
      rs: seq<Region>, next: nat,
                                    h: Heap, fuel: nat)
    requires RegionsOk(t, words, owned, rs, next) && HeapOk(rs, h) && fuel >= h.count
    ensures var first := rs[h.ctx + h.count].va;
            && (h.count - 1) * h.chunkSize <= first
            && Follow(t, words, first, fuel) == Downward(first, h.chunkSize, h.count)
  {
    hide RegionsOk, Follow, Downward, ChunkOk;
    FollowDown(t, words, owned, rs, next, h, h.count - 1, fuel);
  }

  /** Regions of all heaps, finished or abandoned, lie apart. */
  lemma {:induction false} RegionsAreApart(t: Tables, words: map<Frame, U64>, owned: set<Frame>, rs: seq<Region>,
      next: nat,
                        i: nat, j: nat, x: nat)
    requires RegionsOk(t, words, owned, rs, next) && i < |rs| && j < |rs|
    requires rs[i].va <= x < rs[i].End() && rs[j].va <= x < rs[j].End()
    ensures i == j
  {
  }

  /** Mapping somewhere at or above next, and writing a frame nobody had, disturbs no region. */
  lemma {:induction false} RegionsKept(t: Tables, words: map<Frame, U64>, owned: set<Frame>, rs: seq<Region>, next: nat,
                    u: Tables, wordsu: map<Frame, U64>, ownedu: set<Frame>, size: nat)
    requires RegionsOk(t, words, owned, rs, next) && SameOutside(t, u, next, size) && owned <= ownedu
    requires forall f | f in words && f in owned :: f in wordsu && wordsu[f] == words[f]
    ensures RegionsOk(u, wordsu, ownedu, rs, next)
  {
  }

  /** A new region at next. */
  lemma {:induction false} RegionsGrow(t: Tables, words: map<Frame, U64>, owned: set<Frame>, rs: seq<Region>, next: nat,
                    before: set<Frame>, r: Region)
    requires RegionsOk(t, words, before, rs, next) && before <= owned
    requires RegionOk(t, words, owned, r) && r.va == next && forall f | f in r.frames :: f !in before
    ensures RegionsOk(t, words, owned, rs + [r], r.End())
  {
    hide Maps;
    var n := rs + [r];
    forall i | 0 <= i < |n|
      ensures RegionOk(t, words, owned, n[i]) && n[i].End() <= r.End()
    {
      if i < |rs| { assert RegionOk(t, words, before, rs[i]); }
    }
    forall i, j | 0 <= i < j < |n|
      ensures n[i].End() <= n[j].va && forall f | f in n[i].frames :: f !in n[j].frames
    {
      assert RegionOk(t, words, before, rs[i]);
    }
  }

  lemma {:induction false} PageInside(x: nat, va: nat, n: nat)
    requires va % 4096 == 0
    ensures va <= x < va + 4096 * n <==> va / 4096 <= x / 4096 < va / 4096 + n
    ensures va <= x ==> (x - va) / 4096 == x / 4096 - va / 4096
  {
  }

  /** What an attempt that did not move next leaves above next. */
  lemma {:induction false} WindowAfterFailure(t: Tables, u: Tables, stale: map<nat, Frame>, next: nat,
      left: seq<Frame>, swept: nat)
    requires Window(t, stale, next) && Remap(t, u, next, left, swept)
    requires next % 4096 == 0 && next + 4096 * |left| <= TWO_48
    ensures Window(u, Swept(stale, next, swept) + Listed(next, left), next)
  {
    hide Translate;
    var now := Swept(stale, next, swept) + Listed(next, left);
    forall x: U64 | next <= x < TWO_48
      ensures Translate(u, x) == if x / 4096 in now then Leaf(PageDesc(now[x / 4096], HEAP_ATTRS)) else Fault
    {
      PageInside(x, next, |left|);
      PageInside(x, next, swept);
    }
  }

  /** A success hides everything stale below the new next. */
  lemma {:induction false} WindowAfterSuccess(t: Tables, u: Tables, stale: map<nat, Frame>, next: nat,
      frames: seq<Frame>)
    requires Window(t, stale, next) && Remap(t, u, next, frames, 0)
    requires next % 4096 == 0
    ensures Window(u, Swept(stale, next, |frames|), next + 4096 * |frames|)
  {
    hide Translate;
    var now := Swept(stale, next, |frames|);
    forall x: U64 | next + 4096 * |frames| <= x < TWO_48
      ensures Translate(u, x) == if x / 4096 in now then Leaf(PageDesc(now[x / 4096], HEAP_ATTRS)) else Fault
    {
      PageInside(x, next, |frames|);
    }
    forall g | g in now
      ensures next + 4096 * |frames| <= 4096 * g < TWO_48
    {
      PageInside(4096 * g, next, |frames|);
    }
  }

  /** Tables for the second 2 MiB from 0x1000_0000, and none for the next. */
  ghost predicate OneTable(t: Tables) {
    && Owned(t) && t.root == 1 && t.pages == [1, 2, 3, 4] && t.mem.Keys == {1, 2, 3, 4}
    && t.mem[1][0] == TableDesc(2) && t.mem[2][0] == TableDesc(3)
    && t.mem[3][128] == TableDesc(4) && t.mem[3][129] == ZERO
  }

  const FIRST_WALK: Supply := Supply(Some(2), Some(3), Some(4))
  const NO_MEMORY: Supply := Supply(None, None, None)

  lemma {:induction false} FirstPageGetsIn(t: Tables, others: set<Frame>, p: VPage, e: Word)
    requires t == NewTables(1) && p.i0 == 0 && p.i1 == 0 && p.i2 == 128 && others !! {2, 3, 4}
    ensures Owned(t)
    ensures var r := PutLeaf(t, others, p, e, FIRST_WALK); r.status == Success && r.done == 1 && OneTable(r.t)
  {
    hide TableDesc;
    assert Descend(t, others, 1, 0, Some(2)) == Reply(Link(t, 1, 0, 2), Success, 2);
    var u := Link(t, 1, 0, 2);
    assert Descend(u, others, 2, 0, Some(3)) == Reply(Link(u, 2, 0, 3), Success, 3);
    var v := Link(u, 2, 0, 3);
    assert Descend(v, others, 3, 128, Some(4)) == Reply(Link(v, 3, 128, 4), Success, 4);
  }

  lemma {:induction false} TablesLead(t: Tables, others: set<Frame>)
    requires OneTable(t)
    ensures 1 in t.mem && 2 in t.mem && 3 in t.mem && Owned(t)
    ensures Descend(t, others, 1, 0, None) == Reply(t, Success, 2)
    ensures Descend(t, others, 2, 0, None) == Reply(t, Success, 3)
    ensures Descend(t, others, 3, 128, None) == Reply(t, Success, 4)
    ensures Descend(t, others, 3, 129, None) == Reply(t, InsufficientResources, 0)
  {
  }

  /** Pages of the table that exists need no memory, pages of the next one do. */
  lemma {:induction false} WithoutMemory(t: Tables, others: set<Frame>, p: VPage, e: Word)
    requires OneTable(t) && p.i0 == 0 && p.i1 == 0
    ensures Owned(t)
    ensures var r := PutLeaf(t, others, p, e, NO_MEMORY);
            && (p.i2 == 128 ==> r.status == Success && r.done == 1 && OneTable(r.t))
            && (p.i2 == 129 ==> r == Progress(t, InsufficientResources, 0))
  {
    TablesLead(t, others);
    hide Descend;
  }

  /** Fifteen pages before the boundary at 0x1020_0000, one after it. */
  lemma {:induction false} ChunkPages(va: U64, n: nat)
    requires va == 0x101F_1000 && n < 16
    ensures var p := PageOf(PageAddr(va, n)); p.i0 == 0 && p.i1 == 0 && p.i2 == if n < 15 then 128 else 129
  {
  }

  function NoMemory(n: nat): (r: seq<Supply>)
    ensures |r| == n
  {
    seq(n, _ => NO_MEMORY)
  }

  lemma {:induction false} PagesBeforeBoundary(t: Tables, others: set<Frame>, va: U64, pfns: seq<U64>, n: nat)
    requires OneTable(t) && va == 0x101F_1000 && n <= 15 && |pfns| == 16
    ensures Owned(t)
    ensures var r := MapPages(t, others, va, pfns, HEAP_ATTRS, NoMemory(n)); r.status == Success && r.done == n && OneTable(r.t)
    decreases n
  {
    hide *;
    OneTableIsOwned(t);
    if n == 0 {
      NoPagesYet(t, others, va, pfns, HEAP_ATTRS);
      assert NoMemory(0) == [];
    } else {
      PagesBeforeBoundary(t, others, va, pfns, n - 1);
      var now := MapPages(t, others, va, pfns, HEAP_ATTRS, NoMemory(n - 1)).t;
      ChunkPages(va, n - 1);
      WithoutMemory(now, others, PageOf(PageAddr(va, n - 1)), PfnDesc(pfns[n - 1], HEAP_ATTRS));
      MapNext(t, others, va, pfns, HEAP_ATTRS, NoMemory(n - 1), NO_MEMORY, now);
      OneMoreAnswer(n - 1);
    }
  }

  lemma {:induction false} OneTableIsOwned(t: Tables)
    requires OneTable(t)
    ensures Owned(t)
  {
  }

  lemma {:induction false} OneMoreAnswer(n: nat)
    ensures NoMemory(n + 1) == NoMemory(n) + [NO_MEMORY]
  {
  }

  lemma {:induction false} StopsAtBoundary(t: Tables, others: set<Frame>, va: U64, pfns: seq<U64>)
    requires OneTable(t) && va == 0x101F_1000 && |pfns| == 16
    ensures Owned(t)
    ensures var r := MapPages(t, others, va, pfns, HEAP_ATTRS, NoMemory(16));
            r.status == InsufficientResources && r.done == 15
  {
    hide *;
    PagesBeforeBoundary(t, others, va, pfns, 15);
    var now := MapPages(t, others, va, pfns, HEAP_ATTRS, NoMemory(15)).t;
    ChunkPages(va, 15);
    WithoutMemory(now, others, PageOf(PageAddr(va, 15)), PfnDesc(pfns[15], HEAP_ATTRS));
    MapNext(t, others, va, pfns, HEAP_ATTRS, NoMemory(15), NO_MEMORY, now);
    OneMoreAnswer(15);
  }

  lemma {:induction false} OnePageGetsMapped(t: Tables, others: set<Frame>, va: U64, pfns: seq<U64>)
    requires t == NewTables(1) && others !! {2, 3, 4} && va == 0x101F_0000 && |pfns| == 1
    ensures Owned(t)
    ensures var r := MapPages(t, others, va, pfns, HEAP_ATTRS, [FIRST_WALK]); r.status == Success && OneTable(r.t)
  {
    ContextPage(va);
    hide *;
    FirstPageGetsIn(t, others, PageOf(PageAddr(va, 0)), PfnDesc(pfns[0], HEAP_ATTRS));
    NoPagesYet(t, others, va, pfns, HEAP_ATTRS);
    MapNext(t, others, va, pfns, HEAP_ATTRS, [], FIRST_WALK, t);
    assert [] + [FIRST_WALK] == [FIRST_WALK];
  }

  lemma {:induction false} ContextPage(va: U64)
    requires va == 0x101F_0000
    ensures var p := PageOf(PageAddr(va, 0)); p.i0 == 0 && p.i1 == 0 && p.i2 == 128
  {
  }

  lemma {:induction false} EmptyWindow(t: Tables, base: nat)
    requires forall p :: HwWalk(t, p) == Fault
    ensures Window(t, map[], base)
  {
    hide HwWalk;
  }

  lemma {:induction false} FirstPageOf(t: Tables, u: Tables, va: U64, frames: seq<Frame>)
    requires Remap(t, u, va, frames, 0) && frames != [] && va < TWO_48
    ensures Translate(u, va) == Leaf(PageDesc(frames[0], HEAP_ATTRS))
  {
    hide Translate;
  }

  lemma {:induction false} RemapStays(t: Tables, u: Tables, va: nat, frames: seq<Frame>, swept: nat, size: nat)
    requires Remap(t, u, va, frames, swept) && 4096 * |frames| <= size && 4096 * swept <= size
    ensures SameOutside(t, u, va, size)
    ensures va + size <= TWO_48 ==> Maps(u, va, frames)
  {
    hide Translate;
  }

  lemma {:induction false} RemapTwice(t: Tables, u: Tables, v: Tables, va: nat, frames: seq<Frame>)
    requires Remap(t, u, va, frames, 0) && Remap(u, v, va, [], |frames|)
    ensures Remap(t, v, va, [], |frames|)
  {
    hide Translate;
  }

  lemma {:induction false} RemapNothing(t: Tables, va: nat)
    ensures Remap(t, t, va, [], 0)
  {
  }

  lemma {:induction false} TiledGrows(rs: seq<Region>, base: nat, next: nat, r: Region)
    requires Tiled(rs, base, next) && r.va == next
    ensures Tiled(rs + [r], base, r.End())
  {
    var n := rs + [r];
    forall x: nat | base <= x < r.End()
      ensures InSome(n, x)
    {
      if x < next {
        assert InSome(rs, x);
        var i :| 0 <= i < |rs| && rs[i].va <= x < rs[i].End();
        assert n[i].va <= x < n[i].End();
      } else {
        assert n[|rs|].va <= x < n[|rs|].End();
      }
    }
  }

  /** Below next every address of the window leads to the page recorded for it. */
  lemma {:induction false} BelowNextRecorded(t: Tables, words: map<Frame, U64>, owned: set<Frame>, rs: seq<Region>,
      base: nat, next: nat, x: U64)
    requires RegionsOk(t, words, owned, rs, next) && Tiled(rs, base, next) && base <= x < next
    ensures Translate(t, x).Leaf? && Recorded(rs, x, Translate(t, x).desc.frame) && Translate(t, x).desc.frame in owned
  {
    hide Translate;
    assert InSome(rs, x);
    var i :| 0 <= i < |rs| && rs[i].va <= x < rs[i].End();
    RegionAt(t, words, owned, rs, next, i);
    assert rs[i].frames[(x - rs[i].va) / 4096] == Translate(t, x).desc.frame;
  }

  lemma {:induction false} HeapKept(rs: seq<Region>, r: Region, h: Heap)
    requires HeapOk(rs, h)
    ensures HeapOk(rs + [r], h)
  {
    forall i: nat | i < h.count
      ensures ChunkOk(rs + [r], h, i)
    {
      assert ChunkOk(rs, h, i);
    }
  }
}
