/** Tiler-heap creation in one VM: backing pages from the kernel, mappings in the VM's
    page table at a bump address, link words stored into the pages. */
module TilerHeap {
  import opened Wrappers
  import opened Lpae
  import opened PageTables
  import opened VmPageTable
  import opened HeapChains

  const MAX_CHUNK: nat := 0x20_0000
  const MAX_INITIAL_CHUNKS: nat := 16
  const DEFAULT_RANGE: nat := 0x3000_0000

  /** The first address above the user window, as WinMaliVmCreate computes it. */
  function KmdBase(userVaRange: U64): (r: U64)
    ensures HEAP_BASE < r && r % 0x1_0000 == 0
    ensures 0 < userVaRange <= 0x3000_0000 ==>
              0x1000_0000 + userVaRange <= r < 0x1000_0000 + userVaRange + 0x1_0000
    ensures userVaRange == 0 || userVaRange > 0x3000_0000 ==> r == 0x4000_0000
  {
    var granted := if userVaRange == 0 || userVaRange > DEFAULT_RANGE then DEFAULT_RANGE else userVaRange;
    (HEAP_BASE + granted + 0xFFFF) / 0x1_0000 * 0x1_0000
  }

  class HeapVm {
    const k: Kernel
    const pt: VmPt
    var kmdVaNext: U64
    /** The leading word of each data frame. */
    var words: map<Frame, U64>
    /** What was ever allocated, and the heaps that were finished. */
    ghost var regions: seq<Region>
    ghost var heaps: seq<Heap>
    /** No allocation so far was asked for beyond the 48-bit space. */
    ghost var inside: bool
    /** Where the bump address started, and the pages at or above it that a failed mapping
        left behind, each with the frame it leads to. */
    ghost var base: nat
    ghost var stale: map<nat, Frame>

    ghost predicate PtOk()
      reads k, pt, pt.Repr()
    {
      pt.rootVa != null && pt.Valid(k)
    }

    ghost predicate Intact()
      reads this, k, pt
    {
      && kmdVaNext % 4096 == 0
      && (inside ==> Booked(pt.tables, words, pt.Others(k), regions, heaps, base, kmdVaNext, stale))
    }

    ghost predicate Valid()
      reads this, k, pt, pt.Repr()
    {
      PtOk() && Intact()
    }

    constructor (k: Kernel, pt: VmPt, userVaRange: U64)
      requires pt.rootVa != null && pt.Valid(k) && Window(pt.tables, map[], KmdBase(userVaRange))
      ensures Valid() && this.k == k && this.pt == pt && regions == [] && heaps == [] && inside
      ensures kmdVaNext == base == KmdBase(userVaRange) && stale == map[]
    {
      hide VmPt.Valid, KmdBase, Window, Booked;
      this.k, this.pt := k, pt;
      kmdVaNext, base := KmdBase(userVaRange), KmdBase(userVaRange);
      words, regions, heaps, inside, stale := map[], [], [], true, map[];
      new;
      NothingBooked(pt.tables, words, pt.Others(k), base);
      assert (this as object) !in pt.Repr();
      assert PtOk();
    }

    /** Page frames for a buffer object: all of them or none. */
    method GrabFrames(n: nat) returns (got: Option<seq<Frame>>)
      requires PtOk()
      modifies k
      ensures PtOk()
      ensures got.None? ==> k.live == old(k.live)
      ensures k.refusals == old(k.refusals) + if got.None? then 1 else 0
      ensures got.Some? ==>
                && |got.value| == n && Distinct(got.value)
                && k.live == old(k.live) + SetOf(got.value)
                && forall f | f in got.value :: f !in old(k.live)
    {
      hide Tree;
      LiveSplits(pt, k);
      var frames: seq<Frame> := [];
      assert SetOf([]) == {};
      while |frames| < n
        invariant |frames| <= n && Distinct(frames) && PtOk()
        invariant k.live == old(k.live) + SetOf(frames) && k.refusals == old(k.refusals)
        invariant forall f | f in frames :: f !in old(k.live)
      {
        var f := k.Alloc();
        if f.None? {
          DropFrames(frames, old(k.live));
          return None;
        }
        SetOfSnoc(frames, f.value);
        frames := frames + [f.value];
      }
      got := Some(frames);
    }

    /** Gives a buffer object's frames back. */
    method DropFrames(frames: seq<Frame>, ghost rest: set<Frame>)
      requires PtOk() && Distinct(frames) && k.live == rest + SetOf(frames)
      requires pt.tables.mem.Keys <= rest && forall f | f in frames :: f !in rest
      modifies k
      ensures PtOk() && k.live == rest && k.refusals == old(k.refusals)
    {
      hide Tree;
      var i := 0;
      assert frames[0..] == frames;
      while i < |frames|
        invariant 0 <= i <= |frames|
        invariant k.live == rest + SetOf(frames[i..]) && PtOk() && k.refusals == old(k.refusals)
      {
        SetOfCons(frames, i);
        k.Free(frames[i]);
        i := i + 1;
      }
      assert SetOf(frames[i..]) == {};
    }

    /** WinMaliMmuVmMap of the frames at an address. */
    method MapFrames(gpuVa: U64, frames: seq<Frame>) returns (status: Status, ghost done: nat)
      requires PtOk() && gpuVa % 4096 == 0 && frames != []
      modifies pt.Repr(), k
      ensures PtOk() && fresh(pt.Repr() - old(pt.Repr())) && pt.Others(k) == old(pt.Others(k))
      ensures status == Success || status == InsufficientResources
      ensures done <= |frames| && (status == Success <==> done == |frames|)
      ensures k.refusals == old(k.refusals) + if status == InsufficientResources then 1 else 0
      ensures gpuVa + 4096 * |frames| <= TWO_48 ==> Remap(old(pt.tables), pt.tables, gpuVa, frames[..done], 0)
    {
      hide Tree;
      hide Translate;
      var pfns := seq(|frames|, i requires 0 <= i < |frames| => frames[i] as U64);
      ghost var before, shape, others := pt.tables, pt.shape, pt.Others(k);
      TreeOf(pt, k);
      ghost var ss;
      status, ss := pt.VmMap(k, gpuVa, pfns, HEAP_ATTRS);
      done := MapPages(before, others, gpuVa, pfns, HEAP_ATTRS, ss).done;
      MapEffect(before, shape, others, gpuVa, frames, pfns, ss);
    }

    /** WinMaliMmuVmUnmap of a range. */
    method UnmapFrames(gpuVa: U64, pages: nat)
      requires PtOk() && gpuVa % 4096 == 0 && pages > 0
      modifies pt.Repr(), k
      ensures PtOk() && fresh(pt.Repr() - old(pt.Repr())) && pt.Others(k) == old(pt.Others(k))
      ensures gpuVa + 4096 * pages <= TWO_48 ==> Remap(old(pt.tables), pt.tables, gpuVa, [], pages)
      ensures k.refusals >= old(k.refusals)
    {
      hide Tree;
      hide Translate;
      ghost var before, shape, others := pt.tables, pt.shape, pt.Others(k);
      TreeOf(pt, k);
      var st;
      ghost var ss;
      st, ss := pt.VmUnmap(k, gpuVa, pages);
      UnmapEffect(before, shape, others, gpuVa, ss);
    }

    /** The transient CPU mapping of a buffer object. */
    method MapForCpu() returns (ok: bool)
      requires PtOk()
      modifies k`refusals
      ensures PtOk() && k.refusals == old(k.refusals) + if ok then 0 else 1
    {
      hide Tree;
      ok := k.Grants();
    }

    /** WinMaliHeapAllocMapped_: pages, a mapping, and the first word. A mapping that
        stops after some pages is not taken back before its frames are freed: those pages
        stay translated. When instead the CPU mapping fails, the range is unmapped. */
    method AllocMapped(size: nat, gpuVa: U64, hasNext: bool, next: U64)
      returns (status: Status, ghost frames: seq<Frame>, ghost swept: nat)
      requires PtOk() && gpuVa % 4096 == 0
      modifies pt.Repr(), k, this`words
      ensures PtOk() && fresh(pt.Repr() - old(pt.Repr()))
      ensures status == InvalidParameter <==> size == 0 || size % 4096 != 0
      ensures status in {Success, InvalidParameter, InsufficientResources}
      ensures if status == InsufficientResources then k.refusals > old(k.refusals) else k.refusals == old(k.refusals)
      ensures gpuVa + size <= TWO_48 ==> Remap(old(pt.tables), pt.tables, gpuVa, frames, swept)
      ensures status != Success ==> words == old(words) && pt.Others(k) == old(pt.Others(k))
      ensures status != Success ==>
                && (size > 0 ==> 4096 * |frames| < size) && (forall f | f in frames :: f !in k.live)
                && (swept == 0 || (frames == [] && 4096 * swept == size))
                && (size == 0 ==> frames == [])
      ensures status == Success ==>
                && size == 4096 * |frames| && swept == 0
                && pt.Others(k) == old(pt.Others(k)) + SetOf(frames)
                && (forall f | f in frames :: f !in old(pt.Others(k)))
                && Stamped(old(words), words, frames, if hasNext then next else 0)
    {
      hide Tree;
      hide Remap;
      hide VmPt.Valid;
      hide SetOf;
      hide Distinct;
      frames, swept := [], 0;
      RemapNothing(pt.tables, gpuVa);
      if size % 4096 != 0 || size == 0 { return InvalidParameter, frames, swept; }
      LiveSplits(pt, k);
      var grabbed := GrabFrames(size / 4096);
      LiveSplits(pt, k);
      if grabbed.None? { return InsufficientResources, frames, swept; }
      var all := grabbed.value;
      assert all[0] in all;
      GrabbedAreOthers(all, k.live, pt.tables.mem.Keys, old(k.live));
      ghost var start := pt.tables;
      ghost var done;
      status, done := MapFrames(gpuVa, all);
      LiveSplits(pt, k);
      frames := all[..done];
      if status != Success {
        ReturnFrames(all, old(pt.Others(k)));
        return;
      }
      assert frames == all;
      var kva := MapForCpu();
      if !kva {
        ghost var mapped := pt.tables;
        UnmapFrames(gpuVa, |all|);
        if gpuVa + size <= TWO_48 { RemapTwice(start, mapped, pt.tables, gpuVa, all); }
        LiveSplits(pt, k);
        ReturnFrames(all, old(pt.Others(k)));
        frames, swept := [], |all|;
        return InsufficientResources, frames, swept;
      }
      words := words[all[0] := if hasNext then next else 0];
    }

    /** One allocation at the bump address. The address moves on only when it succeeds;
        whatever happens, every earlier allocation is where it was. What stays stale:
        a success takes its own pages off the list, a failed CPU mapping the whole range,
        and a mapping that failed after some pages adds those, leading to freed frames. */
    method AllocNext(size: nat, hasNext: bool, next: U64)
      returns (status: Status, va: U64, ghost left: seq<Frame>, ghost swept: nat)
      requires Valid()
      modifies this, pt.Repr(), k
      ensures Valid() && fresh(pt.Repr() - old(pt.Repr()))
      ensures va == old(kmdVaNext) && heaps == old(heaps) && base == old(base)
      ensures status == InvalidParameter <==> size == 0 || size % 4096 != 0
      ensures status in {Success, InvalidParameter, InsufficientResources}
      ensures if status == InsufficientResources then k.refusals > old(k.refusals) else k.refusals == old(k.refusals)
      ensures inside ==> old(inside) && va + size <= TWO_48
      ensures status != Success ==> kmdVaNext == va && regions == old(regions)
      ensures status == Success ==>
                && size > 0 && size % 4096 == 0 && kmdVaNext == (va + size) % TWO_64
                && |regions| == |old(regions)| + 1 && regions[..|old(regions)|] == old(regions)
                && Fits(regions[|old(regions)|], va, size, if hasNext then next else 0)
                && stale == Swept(old(stale), va, size / 4096) && (old(stale) == map[] ==> stale == map[])
      ensures status != Success ==>
                && stale == Swept(old(stale), va, swept) + Listed(va, left)
                && (forall f | f in left :: f !in k.live)
                && (left != [] ==> swept == 0 && 4096 * |left| < size)
                && (swept > 0 ==> left == [] && 4096 * swept == size)
    {
      hide VmPt.Valid, Booked, SetOf, Remap, Swept, Listed, Stamped, Fits;
      va := kmdVaNext;
      ghost var t, w, owned := pt.tables, words, pt.Others(k);
      ghost var x := if hasNext then next else 0;
      inside := inside && va + size <= TWO_48;
      ghost var frames;
      status, frames, swept := AllocMapped(size, va, hasNext, next);
      left := frames;
      if status == Success {
        Advance(size, t, w, owned, frames, x);
      } else {
        Linger(size, t, w, owned, left, swept);
      }
    }

    /** The bump address moves past a finished allocation. */
    method Advance(size: nat, ghost t: Tables, ghost w: map<Frame, U64>, ghost owned: set<Frame>,
        ghost frames: seq<Frame>, ghost x: U64)
      requires PtOk() && size == 4096 * |frames| && kmdVaNext % 4096 == 0
      requires inside ==>
                 && Booked(t, w, owned, regions, heaps, base, kmdVaNext, stale)
                 && kmdVaNext + size <= TWO_48 && Remap(t, pt.tables, kmdVaNext, frames, 0)
                 && pt.Others(k) == owned + SetOf(frames) && (forall f | f in frames :: f !in owned)
                 && Stamped(w, words, frames, x)
      modifies this`kmdVaNext, this`regions, this`stale
      ensures Valid()
      ensures kmdVaNext == (old(kmdVaNext) + size) % TWO_64
      ensures |regions| == |old(regions)| + 1 && regions[..|old(regions)|] == old(regions)
      ensures Fits(regions[|old(regions)|], old(kmdVaNext), size, x)
      ensures stale == Swept(old(stale), old(kmdVaNext), size / 4096) && (old(stale) == map[] ==> stale == map[])
    {
      hide VmPt.Valid, Booked, SetOf, Remap, Swept, Stamped;
      if inside {
        BookedAfterSuccess(t, w, owned, regions, heaps, base, kmdVaNext, stale, pt.tables, words, pt.Others(k), frames, x);
      }
      AlignedNext(kmdVaNext, size);
      assert (this as object) !in pt.Repr();
      stale := Swept(stale, kmdVaNext, size / 4096);
      regions := regions + [Region(kmdVaNext, frames, x)];
      kmdVaNext := (kmdVaNext + size) % TWO_64;
      assert PtOk();
    }

    /** What a failed allocation leaves behind. */
    ghost method Linger(size: nat, t: Tables, w: map<Frame, U64>, owned: set<Frame>, left: seq<Frame>, swept: nat)
      requires PtOk() && kmdVaNext % 4096 == 0 && words == w && pt.Others(k) == owned
      requires 4096 * |left| <= size && 4096 * swept <= size
      requires inside ==>
                 && Booked(t, w, owned, regions, heaps, base, kmdVaNext, stale)
                 && kmdVaNext + size <= TWO_48 && Remap(t, pt.tables, kmdVaNext, left, swept)
      modifies this`stale
      ensures Valid() && stale == Swept(old(stale), kmdVaNext, swept) + Listed(kmdVaNext, left)
    {
      hide VmPt.Valid, Booked, SetOf, Remap, Swept, Listed;
      if inside {
        BookedAfterFailure(t, w, owned, regions, heaps, base, kmdVaNext, stale, pt.tables, left, swept, size);
      }
      assert (this as object) !in pt.Repr();
      stale := Swept(stale, kmdVaNext, swept) + Listed(kmdVaNext, left);
      assert PtOk();
    }

    /** The GPU, starting at the newest chunk, finds exactly these chunks, newest to
        oldest, and then the end of the chain. */
    ghost predicate ChainIs(first: nat, size: nat, count: nat)
      reads this, pt
    {
      && first < TWO_64 && count > 0 && (count - 1) * size <= first
      && forall fuel | fuel >= count :: Follow(pt.tables, words, first, fuel) == Downward(first, size, count)
    }

    /** Every heap ever finished still has its chain. */
    lemma {:induction false} EveryHeapHasItsChain(h: Heap)
      requires Valid() && inside && h in heaps
      ensures HeapOk(regions, h) && ChainIs(regions[h.ctx + h.count].va, h.chunkSize, h.count)
    {
      hide RegionsOk;
      hide HeapOk;
      hide VmPt.Valid;
      hide Follow;
      hide Downward;
      HeapRange(regions, h);
      RegionAt(pt.tables, words, pt.Others(k), regions, kmdVaNext, h.ctx + h.count);
      ChainVisitsExactlyTheChunks(pt.tables, words, pt.Others(k), regions, kmdVaNext, h, h.count);
      var first: U64 := regions[h.ctx + h.count].va;
      forall fuel: nat | fuel >= h.count
        ensures Follow(pt.tables, words, first, fuel) == Downward(first, h.chunkSize, h.count)
      {
        ChainVisitsExactlyTheChunks(pt.tables, words, pt.Others(k), regions, kmdVaNext, h, fuel);
      }
    }

    /** Every translated address of the kernel's part leads to the page that an allocation
        at that address was given. */
    ghost predicate OnlyRecorded()
      reads this, pt
    {
      forall x: U64 | base <= x < TWO_48 && Translate(pt.tables, x) != Fault ::
        Translate(pt.tables, x).Leaf? && Recorded(regions, x, Translate(pt.tables, x).desc.frame)
    }

    /** That is so exactly when no failed mapping left pages behind that are still on the list. */
    lemma {:induction false} RecordedIffNothingStale()
      requires Valid() && inside
      ensures OnlyRecorded() <==> stale == map[]
    {
      hide VmPt.Valid, RegionsOk, HeapOk, Tiled, Translate;
      if stale != map[] {
        var g :| g in stale;
        StaleIsUnrecorded(g);
      } else {
        forall x: U64 | base <= x < TWO_48 && Translate(pt.tables, x) != Fault
          ensures Translate(pt.tables, x).Leaf? && Recorded(regions, x, Translate(pt.tables, x).desc.frame)
        {
          if x < kmdVaNext {
            BelowNextRecorded(pt.tables, words, pt.Others(k), regions, base, kmdVaNext, x);
          }
        }
      }
    }

    /** A stale page is above every allocation, and translated. */
    lemma {:induction false} StaleIsUnrecorded(g: nat)
      requires Valid() && inside && g in stale
      ensures !OnlyRecorded()
    {
      hide VmPt.Valid, HeapOk, Tiled, Translate;
      var x: U64 := 4096 * g;
      assert Translate(pt.tables, x) == Leaf(PageDesc(stale[g], HEAP_ATTRS)) by { assert x / 4096 == g; }
      assert forall i | 0 <= i < |regions| :: regions[i].End() <= x;
      assert forall f :: !Recorded(regions, x, f);
    }

    /** Context pages and chunks of all heaps, finished or abandoned, never overlap. */
    lemma {:induction false} AllocationsAreApart(i: nat, j: nat, x: nat)
      requires Valid() && inside && i < |regions| && j < |regions|
      requires regions[i].va <= x < regions[i].End() && regions[j].va <= x < regions[j].End()
      ensures i == j
    {
    }

    /** Chunk i of a heap, linked to the one before. */
    method AddChunk(ghost h: Heap, ghost ctx: nat, ghost i: nat, chunkSize: nat, prev: U64) returns (status: Status, va: U64)
      requires Valid() && h.chunkSize == chunkSize && |regions| == h.ctx + 1 + i
      requires 0 < chunkSize <= MAX_CHUNK && chunkSize % 4096 == 0 && prev % 4096 == 0 && (i == 0 ==> prev == 0)
      requires inside ==> Started(regions, h, ctx, i) && kmdVaNext == ctx + 4096 + i * chunkSize
      requires inside && i > 0 ==> prev == ctx + 4096 + (i - 1) * chunkSize
      modifies this, pt.Repr(), k
      ensures Valid() && fresh(pt.Repr() - old(pt.Repr())) && heaps == old(heaps) && (inside ==> old(inside))
      ensures status in {Success, InsufficientResources}
      ensures if status == InsufficientResources then k.refusals > old(k.refusals) else k.refusals == old(k.refusals)
      ensures status != Success ==> regions == old(regions)
      ensures status == Success && old(stale) == map[] ==> stale == map[]
      ensures status == Success ==>
                |regions| == |old(regions)| + 1 && regions[..|old(regions)|] == old(regions) && va % 4096 == 0
      ensures status == Success && inside ==>
                && Started(regions, h, ctx, i + 1)
                && va == ctx + 4096 + i * chunkSize && kmdVaNext == ctx + 4096 + (i + 1) * chunkSize
    {
      hide VmPt.Valid;
      hide RegionsOk;
      hide HeapOk;
      hide ChunkOk;
      hide Started;
      hide LinkWord;
      LinkIsWord(prev, chunkSize);
      ghost var rs := regions;
      ghost var left, swept;
      status, va, left, swept := AllocNext(chunkSize, true, LinkWord(prev, chunkSize));
      if status == Success && inside {
        Times(i, chunkSize);
        StartedRange(rs, h, ctx, i);
        OneMoreChunk(rs, regions, h, ctx, i, prev);
        NoWrap(va, chunkSize);
      }
    }

    /** The chunk loop. */
    method AddChunks(ghost h: Heap, ghost ctx: nat, count: nat, chunkSize: nat) returns (status: Status, first: U64)
      requires Valid() && h.chunkSize == chunkSize && |regions| == h.ctx + 1 && count > 0
      requires 0 < chunkSize <= MAX_CHUNK && chunkSize % 4096 == 0
      requires inside ==> Started(regions, h, ctx, 0) && kmdVaNext == ctx + 4096
      modifies this, pt.Repr(), k
      ensures Valid() && fresh(pt.Repr() - old(pt.Repr())) && heaps == old(heaps) && (inside ==> old(inside))
      ensures status in {Success, InsufficientResources} && old(regions) <= regions
      ensures if status == InsufficientResources then k.refusals > old(k.refusals) else k.refusals == old(k.refusals)
      ensures status == Success ==> |regions| == |old(regions)| + count && (old(stale) == map[] ==> stale == map[])
      ensures status == Success && inside ==>
                && Started(regions, h, ctx, count)
                && first == ctx + 4096 + (count - 1) * chunkSize && kmdVaNext == ctx + 4096 + count * chunkSize
    {
      hide Valid;
      hide Started;
      status, first := Success, 0;
      var prev: U64 := 0;
      var i := 0;
      while i < count
        invariant 0 <= i <= count && status == Success && k.refusals == old(k.refusals)
        invariant Valid() && fresh(pt.Repr() - old(pt.Repr())) && heaps == old(heaps) && (inside ==> old(inside))
        invariant old(regions) <= regions && |regions| == h.ctx + 1 + i && (old(stale) == map[] ==> stale == map[])
        invariant prev == first && prev % 4096 == 0 && (i == 0 ==> prev == 0)
        invariant inside ==> Started(regions, h, ctx, i) && kmdVaNext == ctx + 4096 + i * chunkSize
        invariant inside && i > 0 ==> first == ctx + 4096 + (i - 1) * chunkSize
      {
        var va;
        status, va := AddChunk(h, ctx, i, chunkSize, prev);
        if status != Success { return; }
        prev, first := va, va;
        i := i + 1;
      }
    }

    /** WinMaliTilerHeapCreateReal_ on a VM that was found and is initialised. */
    method CreateReal(chunkSize: nat, initialChunkCount: nat) returns (status: Status, ctxVa: U64, firstChunkVa: U64)
      requires Valid()
      modifies this, pt.Repr(), k
      ensures Valid() && fresh(pt.Repr() - old(pt.Repr()))
      ensures status == InvalidParameter <==>
                chunkSize % 4096 != 0 || chunkSize < 4096 || chunkSize > 0x20_0000 || initialChunkCount == 0
      ensures status in {Success, InvalidParameter, InsufficientResources}
      ensures if status == InsufficientResources then k.refusals > old(k.refusals) else k.refusals == old(k.refusals)
      ensures status == InvalidParameter ==>
                kmdVaNext == old(kmdVaNext) && regions == old(regions) && stale == old(stale)
      ensures old(regions) <= regions && (inside ==> old(inside))
      ensures status != Success ==> heaps == old(heaps)
      ensures status == Success ==>
                var count := if initialChunkCount > 16 then 16 else initialChunkCount;
                && heaps == old(heaps) + [Heap(|old(regions)|, count, chunkSize)]
                && |regions| == |old(regions)| + 1 + count && (old(stale) == map[] ==> stale == map[])
                && (inside ==>
                      && ctxVa == old(kmdVaNext) && firstChunkVa == ctxVa + 4096 + (count - 1) * chunkSize
                      && kmdVaNext == firstChunkVa + chunkSize
                      && ChainIs(firstChunkVa, chunkSize, count))
    {
      hide Valid;
      hide ChainIs;
      hide HeapOk;
      hide Started;
      ctxVa, firstChunkVa := 0, 0;
      if chunkSize % 4096 != 0 || chunkSize < 0x1000 || chunkSize > MAX_CHUNK { return InvalidParameter, 0, 0; }
      if initialChunkCount == 0 { return InvalidParameter, 0, 0; }
      var count := if initialChunkCount > MAX_INITIAL_CHUNKS then MAX_INITIAL_CHUNKS else initialChunkCount;
      ghost var h := Heap(|regions|, count, chunkSize);
      var ctx, first;
      ghost var left, swept;
      status, ctx, left, swept := AllocNext(4096, false, 0);
      if status != Success { return; }
      if inside {
        NoWrap(ctx, 4096);
        ContextPlaced(regions, h, ctx);
      }
      status, first := AddChunks(h, ctx, count, chunkSize);
      if status != Success { return; }
      ctxVa, firstChunkVa := ctx, first;
      ghost var newest := FinishHeap(h, ctx);
      Times(count - 1, chunkSize);
    }

    ghost method FinishHeap(h: Heap, ctx: nat) returns (first: nat)
      requires Valid() && h.count > 0
      requires inside ==> Started(regions, h, ctx, h.count)
      modifies this`heaps
      ensures Valid() && heaps == old(heaps) + [h]
      ensures first == ctx + 4096 + (h.count - 1) * h.chunkSize
      ensures inside ==> ChainIs(first, h.chunkSize, h.count)
    {
      hide VmPt.Valid;
      hide RegionsOk;
      hide HeapOk;
      hide Started;
      first := ctx + 4096 + (h.count - 1) * h.chunkSize;
      if inside {
        StartedIsFinished(regions, h, ctx);
        LastChunk(regions, h, ctx);
      }
      assert (this as object) !in pt.Repr();
      heaps := heaps + [h];
      assert PtOk();
      assert inside ==> forall i | 0 <= i < |heaps| :: HeapOk(regions, heaps[i]);
      assert Intact();
      if inside {
        assert heaps[|heaps| - 1] == h;
        EveryHeapHasItsChain(h);
      }
    }

    /** BoDestroy on an error path. */
    method ReturnFrames(all: seq<Frame>, ghost others: set<Frame>)
      requires PtOk() && Distinct(all) && pt.Others(k) == others + SetOf(all)
      requires forall f | f in all :: f !in others
      modifies k
      ensures PtOk() && pt.Others(k) == others && forall f | f in all :: f !in k.live
      ensures k.refusals == old(k.refusals)
    {
      hide Tree;
      hide VmPt.Valid;
      hide Distinct;
      LiveSplits(pt, k);
      ghost var rest := others + pt.tables.mem.Keys;
      OthersApart(all, others, pt.tables.mem.Keys, k.live);
      DropFrames(all, rest);
      assert k.live - pt.tables.mem.Keys == others by { OthersBack(others, pt.tables.mem.Keys, pt.Others(k)); }
    }
  }

  /** The kernel's part of the address space: every allocation ever made still mapped where
      it was, without gaps up to the bump address, every finished heap in place, and from
      the bump address on only what failed mappings left behind. */
  ghost predicate Booked(t: Tables, words: map<Frame, U64>, owned: set<Frame>, rs: seq<Region>, hs: seq<Heap>,
      base: nat, next: nat, stale: map<nat, Frame>) {
    && HEAP_BASE <= base <= next && next % 4096 == 0
    && RegionsOk(t, words, owned, rs, next) && (forall i | 0 <= i < |hs| :: HeapOk(rs, hs[i]))
    && Tiled(rs, base, next) && Window(t, stale, next)
  }

  lemma {:induction false} BookedAfterFailure(t: Tables, words: map<Frame, U64>, owned: set<Frame>, rs: seq<Region>,
      hs: seq<Heap>, base: nat, next: nat, stale: map<nat, Frame>, u: Tables, left: seq<Frame>, swept: nat, size: nat)
    requires Booked(t, words, owned, rs, hs, base, next, stale) && Remap(t, u, next, left, swept)
    requires 4096 * |left| <= size && 4096 * swept <= size && next + size <= TWO_48
    ensures Booked(u, words, owned, rs, hs, base, next, Swept(stale, next, swept) + Listed(next, left))
  {
    hide RegionsOk, HeapOk, Tiled, Window, Remap, Swept, Listed;
    RemapStays(t, u, next, left, swept, size);
    RegionsKept(t, words, owned, rs, next, u, words, owned, size);
    WindowAfterFailure(t, u, stale, next, left, swept);
  }

  lemma {:induction false} BookedAfterSuccess(t: Tables, words: map<Frame, U64>, owned: set<Frame>, rs: seq<Region>,
      hs: seq<Heap>, base: nat, next: nat, stale: map<nat, Frame>,
      u: Tables, wordsu: map<Frame, U64>, ownedu: set<Frame>, frames: seq<Frame>, x: U64)
    requires Booked(t, words, owned, rs, hs, base, next, stale) && Remap(t, u, next, frames, 0)
    requires Stamped(words, wordsu, frames, x) && next + 4096 * |frames| <= TWO_48
    requires ownedu == owned + SetOf(frames) && forall f | f in frames :: f !in owned
    ensures Booked(u, wordsu, ownedu, rs + [Region(next, frames, x)], hs, base, next + 4096 * |frames|,
                   Swept(stale, next, |frames|))
  {
    hide RegionsOk, HeapOk, Tiled, Window, Remap, Swept, Maps, SetOf;
    var r := Region(next, frames, x);
    RemapStays(t, u, next, frames, 0, 4096 * |frames|);
    assert frames[0] in frames;
    NewWordIsNew(words, wordsu, owned, frames, x);
    RegionsKept(t, words, owned, rs, next, u, wordsu, owned, 4096 * |frames|);
    NewRegionOk(u, wordsu, ownedu, owned, r);
    RegionsGrow(u, wordsu, ownedu, rs, next, owned, r);
    forall i | 0 <= i < |hs| ensures HeapOk(rs + [r], hs[i]) { HeapKept(rs, r, hs[i]); }
    TiledGrows(rs, base, next, r);
    WindowAfterSuccess(t, u, stale, next, frames);
  }

  lemma {:induction false} WholePages(x: nat)
    requires x % 0x1_0000 == 0
    ensures x % 4096 == 0
  {
    AddPages(0, 16 * (x / 0x1_0000));
    assert x == 0 + 4096 * (16 * (x / 0x1_0000));
  }

  lemma {:induction false} NothingBooked(t: Tables, words: map<Frame, U64>, owned: set<Frame>, base: nat)
    requires Window(t, map[], base) && HEAP_BASE <= base && base % 0x1_0000 == 0
    ensures Booked(t, words, owned, [], [], base, base, map[]) && base % 4096 == 0
  {
    hide Window;
    WholePages(base);
  }

  /** The context page and the first n chunks of a heap are in place. */
  ghost predicate Started(rs: seq<Region>, h: Heap, ctx: nat, n: nat) {
    && 0 < h.chunkSize <= MAX_CHUNK && h.chunkSize % 4096 == 0 && h.ctx + n < |rs|
    && Fits(rs[h.ctx], ctx, 4096, 0)
    && forall i: nat | i < n :: ChunkOk(rs, h, i)
  }

  lemma {:induction false} OneMoreChunk(rs: seq<Region>, now: seq<Region>, h: Heap, ctx: nat, n: nat, prev: nat)
    requires Started(rs, h, ctx, n) && |rs| == h.ctx + n + 1 && |now| == |rs| + 1 && now[..|rs|] == rs
    requires Fits(now[|rs|], ctx + 4096 + n * h.chunkSize, h.chunkSize, LinkWord(prev, h.chunkSize))
    requires prev == if n == 0 then 0 else ctx + 4096 + (n - 1) * h.chunkSize
    ensures Started(now, h, ctx, n + 1)
  {
    hide LinkWord;
    assert forall i | 0 <= i < |rs| :: now[i] == rs[i];
    if n > 0 { assert ChunkOk(rs, h, n - 1); }
    forall i: nat | i < n + 1
      ensures ChunkOk(now, h, i)
    {
      if i < n { assert ChunkOk(rs, h, i); }
    }
  }

  lemma {:induction false} StartedRange(rs: seq<Region>, h: Heap, ctx: nat, n: nat)
    requires Started(rs, h, ctx, n)
    ensures h.ctx + n < |rs|
  {
  }

  lemma {:induction false} ContextPlaced(rs: seq<Region>, h: Heap, ctx: nat)
    requires |rs| == h.ctx + 1 && Fits(rs[h.ctx], ctx, 4096, 0)
    requires 0 < h.chunkSize <= MAX_CHUNK && h.chunkSize % 4096 == 0
    ensures Started(rs, h, ctx, 0)
  {
  }

  lemma {:induction false} NoWrap(va: U64, size: nat)
    requires va + size <= TWO_48
    ensures (va + size) % TWO_64 == va + size
  {
  }

  lemma {:induction false} StartedIsFinished(rs: seq<Region>, h: Heap, ctx: nat)
    requires Started(rs, h, ctx, h.count) && h.count > 0
    ensures HeapOk(rs, h)
  {
  }

  lemma {:induction false} LastChunk(rs: seq<Region>, h: Heap, ctx: nat)
    requires Started(rs, h, ctx, h.count) && h.count > 0
    ensures rs[h.ctx + h.count].va == ctx + 4096 + (h.count - 1) * h.chunkSize
  {
    assert ChunkOk(rs, h, h.count - 1);
  }

  lemma {:induction false} HeapRange(rs: seq<Region>, h: Heap)
    requires HeapOk(rs, h)
    ensures 0 < h.count && h.ctx + h.count < |rs|
  {
  }

  lemma {:induction false} LinkIsWord(prev: U64, size: nat)
    requires prev % 4096 == 0 && size <= MAX_CHUNK
    ensures LinkWord(prev, size) < TWO_64
  {
  }

  lemma {:induction false} Times(i: nat, size: nat)
    ensures (i + 1) * size == i * size + size
  {
  }

  ghost predicate Fits(r: Region, va: nat, size: nat, word: nat) {
    r.va == va && 4096 * |r.frames| == size && r.word == word
  }

  lemma {:induction false} AlignedNext(va: U64, size: nat)
    requires va % 4096 == 0 && size % 4096 == 0
    ensures (va + size) % TWO_64 % 4096 == 0
    ensures va + size < TWO_64 ==> (va + size) % TWO_64 == va + size
  {
  }

  lemma {:induction false} AddPages(r: nat, m: nat)
    ensures (r + 4096 * m) % 4096 == r % 4096
  {
  }

  /** Only the leading word of the first page was written. */
  ghost predicate Stamped(w: map<Frame, U64>, u: map<Frame, U64>, frames: seq<Frame>, x: U64) {
    frames != [] && u == w[frames[0] := x]
  }

  lemma {:induction false} NewWordIsNew(w: map<Frame, U64>, u: map<Frame, U64>, owned: set<Frame>,
      frames: seq<Frame>, x: U64)
    requires u == w || (Stamped(w, u, frames, x) && frames[0] !in owned)
    ensures forall f | f in w && f in owned :: f in u && u[f] == w[f]
  {
  }

  lemma {:induction false} NewRegionOk(t: Tables, words: map<Frame, U64>, others: set<Frame>, before: set<Frame>,
      r: Region)
    requires HEAP_BASE <= r.va && r.va % 4096 == 0 && r.End() <= TWO_48 && r.frames != [] && Maps(t, r.va, r.frames)
    requires r.frames[0] in words && words[r.frames[0]] == r.word && others == before + SetOf(r.frames)
    ensures RegionOk(t, words, others, r)
  {
  }

  lemma {:induction false} SetOfSnoc(s: seq<Frame>, f: Frame)
    ensures SetOf(s + [f]) == SetOf(s) + {f}
  {
  }

  lemma {:induction false} SetOfCons(s: seq<Frame>, i: nat)
    requires i < |s| && Distinct(s)
    ensures SetOf(s[i..]) == SetOf(s[i + 1..]) + {s[i]} && s[i] !in SetOf(s[i + 1..])
  {
  }

  lemma {:induction false} TreeOf(pt: VmPt, k: Kernel)
    requires pt.Valid(k)
    ensures Tree(pt.tables, pt.shape) && Owned(pt.tables)
  {
  }

  /** The frames handed out are the table's and the others'. */
  lemma {:induction false} LiveSplits(pt: VmPt, k: Kernel)
    requires pt.Valid(k)
    ensures k.live == pt.tables.mem.Keys + pt.Others(k) && pt.Others(k) !! pt.tables.mem.Keys
  {
  }

  lemma {:induction false} GrabbedAreOthers(all: seq<Frame>, live: set<Frame>, table: set<Frame>, before: set<Frame>)
    requires live == before + SetOf(all) && table <= before && forall f | f in all :: f !in before
    ensures live - table == (before - table) + SetOf(all)
    ensures forall f | f in all :: f !in before - table
  {
  }

  lemma {:induction false} OthersApart(all: seq<Frame>, others: set<Frame>, table: set<Frame>, live: set<Frame>)
    requires live == table + (others + SetOf(all)) && (others + SetOf(all)) !! table
    requires forall f | f in all :: f !in others
    ensures live == (others + table) + SetOf(all)
    ensures forall f | f in all :: f !in others + table
  {
  }

  lemma {:induction false} OthersBack(others: set<Frame>, table: set<Frame>, now: set<Frame>)
    requires now == (others + table) - table && others !! table
    ensures now == others
  {
  }

  lemma {:induction false} MapEffect(t: Tables, sh: Shape, others: set<Frame>, va: U64, frames: seq<Frame>,
      pfns: seq<U64>, ss: seq<Supply>)
    requires Tree(t, sh) && Owned(t) && va % 4096 == 0 && |ss| == |pfns| == |frames|
    requires forall i | 0 <= i < |pfns| :: pfns[i] == frames[i]
    ensures var r := MapPages(t, others, va, pfns, HEAP_ATTRS, ss);
            && (r.status == Success || r.status == InsufficientResources)
            && r.done <= |frames| && (r.status == Success <==> r.done == |frames|)
            && (va + 4096 * |frames| <= TWO_48 ==> Remap(t, r.t, va, frames[..r.done], 0))
  {
    hide Tree;
    hide Translate;
    hide MapPages;
    var r := MapPages(t, others, va, pfns, HEAP_ATTRS, ss);
    var shu := MapRefinesFlat(t, sh, others, va, pfns, HEAP_ATTRS, ss);
    if va + 4096 * |frames| <= TWO_48 {
      forall x: U64 | x < TWO_48
        ensures Translate(r.t, x) ==
                  if va <= x < va + 4096 * r.done then Leaf(PageDesc(frames[..r.done][(x - va) / 4096], HEAP_ATTRS))
                  else Translate(t, x)
      {
        MapTranslation(t, sh, others, va, pfns, HEAP_ATTRS, ss, x);
      }
    }
  }

  lemma {:induction false} UnmapEffect(t: Tables, sh: Shape, others: set<Frame>, va: U64, ss: seq<Supply>)
    requires Tree(t, sh) && Owned(t) && va % 4096 == 0
    ensures va + 4096 * |ss| <= TWO_48 ==> Remap(t, UnmapPages(t, others, va, ss), va, [], |ss|)
  {
    hide Tree;
    hide Translate;
    hide UnmapPages;
    if va + 4096 * |ss| <= TWO_48 {
      forall x: U64 | x < TWO_48
        ensures Translate(UnmapPages(t, others, va, ss), x) ==
                  if va <= x < va + 4096 * |ss| then Fault else Translate(t, x)
      {
        UnmapTranslation(t, sh, others, va, ss, x);
      }
    }
  }

  const RANGE: U64 := 0x1F_0000
  const CONTEXT_FRAMES: seq<Frame> := [5]

  function ChunkFrames(): (r: seq<Frame>)
    ensures |r| == 16 && forall i | 0 <= i < 16 :: r[i] == 10 + i
  {
    seq(16, i requires 0 <= i < 16 => 10 + i)
  }

  function Numbers(frames: seq<Frame>): (r: seq<U64>)
    ensures |r| == |frames| && forall i | 0 <= i < |r| :: r[i] == frames[i]
  {
    seq(|frames|, i requires 0 <= i < |frames| => frames[i] as U64)
  }

  /** What a finished mapping did. */
  lemma {:induction false} MapDone(t: Tables, sh: Shape, others: set<Frame>, va: U64, frames: seq<Frame>,
      pfns: seq<U64>, ss: seq<Supply>) returns (u: Tables, shu: Shape)
    requires Tree(t, sh) && Owned(t) && va % 4096 == 0 && |ss| == |pfns| == |frames| && pfns == Numbers(frames)
    requires MapPages(t, others, va, pfns, HEAP_ATTRS, ss).status == Success && va + 4096 * |frames| <= TWO_48
    ensures u == MapPages(t, others, va, pfns, HEAP_ATTRS, ss).t && Tree(u, shu) && Remap(t, u, va, frames, 0)
  {
    hide Tree, Owned, MapPages, Remap;
    shu := MapRefinesFlat(t, sh, others, va, pfns, HEAP_ATTRS, ss);
    u := MapPages(t, others, va, pfns, HEAP_ATTRS, ss).t;
    MapEffect(t, sh, others, va, frames, pfns, ss);
    assert frames[..|frames|] == frames;
  }

  /** The context page of the first heap of a fresh VM, just below a 2 MiB boundary. */
  lemma {:induction false} ContextGetsIn(t0: Tables, sh0: Shape, others: set<Frame>, va: U64, pfns: seq<U64>,
      ss: seq<Supply>) returns (t: Tables, sh: Shape, words: map<Frame, U64>)
    requires t0 == NewTables(1) && sh0 == NewShape(1) && others == {5} && va == KmdBase(RANGE)
    requires pfns == Numbers(CONTEXT_FRAMES) && ss == [FIRST_WALK]
    ensures Owned(t0) && Window(t0, map[], va)
    ensures |ss| == |pfns| && MapPages(t0, others, va, pfns, HEAP_ATTRS, ss).status == Success
    ensures t == MapPages(t0, others, va, pfns, HEAP_ATTRS, ss).t && Tree(t, sh) && OneTable(t)
    ensures Booked(t, words, others, [Region(va, CONTEXT_FRAMES, 0)], [], va, va + 4096, map[])
  {
    FreshVm(va);
    NewIsTree(1);
    OneContextFrame();
    hide *;
    EmptyWindow(t0, va);
    OnePageGetsMapped(t0, others, va, pfns);
    t, sh := MapDone(t0, sh0, others, va, CONTEXT_FRAMES, pfns, ss);
    words := ContextBooked(t0, t, others, va);
  }

  lemma {:induction false} FreshVm(va: U64)
    requires va == KmdBase(RANGE)
    ensures va == 0x101F_0000 && HEAP_BASE <= va && va % 0x1_0000 == 0 && va % 4096 == 0
    ensures va + 0x1_1000 <= TWO_48
  {
  }

  lemma {:induction false} OneContextFrame()
    ensures |CONTEXT_FRAMES| == 1 && |Numbers(CONTEXT_FRAMES)| == 1
    ensures {5} !! {2, 3, 4}
  {
  }

  lemma {:induction false} ContextBooked(t: Tables, u: Tables, owned: set<Frame>, va: nat)
    returns (words: map<Frame, U64>)
    requires Window(t, map[], va) && HEAP_BASE <= va && va % 0x1_0000 == 0 && va + 0x1_1000 <= TWO_48
    requires Remap(t, u, va, CONTEXT_FRAMES, 0) && owned == {5}
    ensures Booked(u, words, owned, [Region(va, CONTEXT_FRAMES, 0)], [], va, va + 4096, map[])
  {
    hide Booked, Remap, Window;
    NothingBooked(t, map[], {}, va);
    assert SetOf(CONTEXT_FRAMES) == {5};
    words := map[][CONTEXT_FRAMES[0] := 0];
    BookedAfterSuccess(t, map[], {}, [], [], va, va, map[], u, words, owned, CONTEXT_FRAMES, 0);
    assert [] + [Region(va, CONTEXT_FRAMES, 0)] == [Region(va, CONTEXT_FRAMES, 0)];
  }

  /** Pages do stay behind: in a fresh VM whose user range ends 64 KiB below a 2 MiB
      boundary, the first heap gets its context page, and then the mapping of its first
      chunk of 64 KiB finds no memory for the table past the boundary. What is left is a
      heap state like any other, with fifteen stale pages in it. */
  lemma {:induction false} PartialMappingHappens()
    returns (t: Tables, words: map<Frame, U64>, base: U64, left: seq<Frame>)
    ensures base == KmdBase(RANGE) && Owned(NewTables(1)) && Window(NewTables(1), map[], base)
    ensures base + 4096 < TWO_48
    ensures var r := MapPages(NewTables(1), {5}, base, Numbers(CONTEXT_FRAMES), HEAP_ATTRS, [FIRST_WALK]);
            var q := MapPages(r.t, {5} + SetOf(ChunkFrames()), base + 4096, Numbers(ChunkFrames()), HEAP_ATTRS, NoMemory(16));
            && r.status == Success
            && q.status == InsufficientResources && q.done == 15 && t == q.t && left == ChunkFrames()[..15]
    ensures Booked(t, words, {5}, [Region(base, CONTEXT_FRAMES, 0)], [], base, base + 4096, Listed(base + 4096, left))
    ensures Translate(t, base + 4096) == Leaf(PageDesc(left[0], HEAP_ATTRS))
  {
    hide *;
    base := KmdBase(RANGE);
    FreshVm(base);
    var u, sh;
    u, sh, words := ContextGetsIn(NewTables(1), NewShape(1), {5}, base, Numbers(CONTEXT_FRAMES), [FIRST_WALK]);
    var pfns, others, next := Numbers(ChunkFrames()), {5} + SetOf(ChunkFrames()), base + 4096;
    StopsAtBoundary(u, others, next, pfns);
    t := MapPages(u, others, next, pfns, HEAP_ATTRS, NoMemory(16)).t;
    left := ChunkFrames()[..15];
    MapEffect(u, sh, others, next, ChunkFrames(), pfns, NoMemory(16));
    FirstPageOf(u, t, next, left);
    ChunkLingers(u, t, words, base, left);
  }

  lemma {:induction false} ChunkLingers(t: Tables, u: Tables, words: map<Frame, U64>, base: nat, left: seq<Frame>)
    requires Booked(t, words, {5}, [Region(base, CONTEXT_FRAMES, 0)], [], base, base + 4096, map[])
    requires Remap(t, u, base + 4096, left, 0) && |left| == 15 && base + 0x1_1000 <= TWO_48
    ensures Booked(u, words, {5}, [Region(base, CONTEXT_FRAMES, 0)], [], base, base + 4096, Listed(base + 4096, left))
  {
    hide Booked, Remap, Listed;
    var rs := [Region(base, CONTEXT_FRAMES, 0)];
    BookedAfterFailure(t, words, {5}, rs, [], base, base + 4096, map[], u, left, 0, 0x1_0000);
    assert map[] + Listed(base + 4096, left) == Listed(base + 4096, left);
  }
}
