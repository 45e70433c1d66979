/** The fixed tables of the bring-up address space (AS1): one contiguous scratch
    block holds the upper levels and the table of the 2 MiB CSF window, a second
    contiguous block holds the 64 tables of the 128 MiB aperture window. The
    driver never walks them: WinMaliMmuResolveL3Slot_ computes the leaf slot by
    index arithmetic. Here that shortcut is shown to be the hardware walk. */
module Bringup {
  import opened Wrappers
  import opened Lpae
  import opened PageTables

  const TEST_VA: int := 0x40_0000
  const TEST_BYTES: int := 0x20_0000
  const APERTURE_VA: int := 0x1000_0000
  const APERTURE_BYTES: int := 0x800_0000
  const MAX_PAGES: nat := 32768
  const BLOCK_WORDS: nat := 32768

  /** Frame numbers and contents of the two blocks; both are 64 pages. */
  datatype Blocks = Blocks(scratchAt: Frame, scratch: seq<Word>, apertureAt: Frame, aperture: seq<Word>)

  ghost predicate Placed(b: Blocks) {
    && |b.scratch| == BLOCK_WORDS && |b.aperture| == BLOCK_WORDS
    && b.scratchAt + 64 <= TWO_36 && b.apertureAt + 64 <= TWO_36
    && (b.scratchAt + 64 <= b.apertureAt || b.apertureAt + 64 <= b.scratchAt)
  }

  /** The 512 words of one frame of either block. */
  function FrameWords(b: Blocks, f: Frame): seq<Word>
    requires |b.scratch| == BLOCK_WORDS && |b.aperture| == BLOCK_WORDS
  {
    if b.scratchAt <= f < b.scratchAt + 64
    then b.scratch[(f - b.scratchAt) * 512..(f - b.scratchAt) * 512 + 512]
    else if b.apertureAt <= f < b.apertureAt + 64
    then b.aperture[(f - b.apertureAt) * 512..(f - b.apertureAt) * 512 + 512]
    else []
  }

  /** What the MMU can reach through the blocks. */
  ghost function View(b: Blocks): Tables
    requires Placed(b)
  {
    Tables(b.scratchAt, [],
           (map f: Frame | b.scratchAt <= f < b.scratchAt + 64 :: FrameWords(b, f)) +
           (map f: Frame | b.apertureAt <= f < b.apertureAt + 64 :: FrameWords(b, f)))
  }

  /** Reading one word through the MMU's eyes. */
  lemma {:induction false} ReadWord(b: Blocks, f: Frame, i: Index)
    requires Placed(b)
    ensures b.scratchAt <= f < b.scratchAt + 64 ==>
              f in View(b).mem && |View(b).mem[f]| == 512 && View(b).mem[f][i] == b.scratch[(f - b.scratchAt) * 512 + i]
    ensures b.apertureAt <= f < b.apertureAt + 64 ==>
              f in View(b).mem && |View(b).mem[f]| == 512 && View(b).mem[f][i] == b.aperture[(f - b.apertureAt) * 512 + i]
  {
  }

  ghost predicate WiredAt(b: Blocks, i: Index)
    requires Placed(b)
  {
    && b.scratch[i] == (if i == 0 then TableDesc(b.scratchAt + 1) else ZERO)
    && b.scratch[512 + i] == (if i == 0 then TableDesc(b.scratchAt + 2) else ZERO)
    && b.scratch[1024 + i] == (if i == 2 then TableDesc(b.scratchAt + 3)
                               else if 128 <= i < 192 then TableDesc(b.apertureAt + (i - 128)) else ZERO)
  }

  /** The wiring WinMaliMmuInit leaves: L0[0], L1[0], L2[2], L2[128..191]. */
  ghost predicate Wired(b: Blocks) {
    Placed(b) && forall i: Index :: WiredAt(b, i)
  }

  /** A leaf slot as the CPU addresses it: a word index into one of the blocks. */
  datatype Slot = InScratch(word: nat) | InAperture(word: nat)

  /** WinMaliMmuResolveL3Slot_ */
  function Resolve(va: U64): Option<Slot> {
    if TEST_VA <= va < TEST_VA + TEST_BYTES then Some(InScratch(1536 + (va - TEST_VA) / 4096))
    else if APERTURE_VA <= va < APERTURE_VA + APERTURE_BYTES then
      var off := va - APERTURE_VA;
      Some(InAperture(off / 0x20_0000 * 512 + off / 4096 % 512))
    else None
  }

  function SlotFrame(b: Blocks, s: Slot): int {
    match s
    case InScratch(w) => b.scratchAt + w / 512
    case InAperture(w) => b.apertureAt + w / 512
  }

  /** Where the indices of an address point in the wired tables. */
  lemma {:induction false} WindowIndices(va: U64)
    requires va < TWO_48
    ensures var p := PageOf(va);
            && (TEST_VA <= va < TEST_VA + TEST_BYTES <==> p.i0 == 0 && p.i1 == 0 && p.i2 == 2)
            && (APERTURE_VA <= va < APERTURE_VA + APERTURE_BYTES <==> p.i0 == 0 && p.i1 == 0 && 128 <= p.i2 < 192)
  {
    var a, c := va / 0x20_0000, va / 0x4000_0000;
    assert c == a / 512 && va / 0x80_0000_0000 == c / 512;
    assert a == 512 * c + a % 512 && c == 512 * (c / 512) + c % 512;
    assert c / 512 < 512;
  }

  lemma {:induction false} AperturePlace(va: U64)
    requires APERTURE_VA <= va < APERTURE_VA + APERTURE_BYTES
    ensures Resolve(va) == Some(InAperture((PageOf(va).i2 - 128) * 512 + PageOf(va).i3))
    ensures 128 <= PageOf(va).i2 < 192
  {
    WindowIndices(va);
    var off := va - APERTURE_VA;
    assert va / 0x20_0000 == 128 + off / 0x20_0000;
    assert va / 4096 == 65536 + off / 4096;
    assert va / 0x20_0000 % 512 == va / 0x20_0000;
  }

  lemma {:induction false} TestPlace(va: U64)
    requires TEST_VA <= va < TEST_VA + TEST_BYTES
    ensures Resolve(va) == Some(InScratch(1536 + PageOf(va).i3))
  {
  }

  /** For every 48-bit address the resolver finds a slot exactly when the hardware
      walk arrives at a level-3 table, and it is the slot the MMU reads. */
  lemma {:induction false} ResolverIsTheWalk(b: Blocks, va: U64)
    requires Wired(b) && va < TWO_48
    ensures match Resolve(va)
            case None => L3Of(View(b), PageOf(va)) == Stop(Fault)
            case Some(s) =>
              && L3Of(View(b), PageOf(va)) == Next(SlotFrame(b, s))
              && s.word % 512 == PageOf(va).i3 && 1536 * (if s.InScratch? then 1 else 0) <= s.word < BLOCK_WORDS
  {
    hide PageOf, View, Wired, Fetch;
    WindowIndices(va);
    var p := PageOf(va);
    FetchWired(b, p);
    if APERTURE_VA <= va < APERTURE_VA + APERTURE_BYTES {
      AperturePlace(va);
      assert ((p.i2 - 128) * 512 + p.i3) / 512 == p.i2 - 128;
    } else if TEST_VA <= va < TEST_VA + TEST_BYTES {
      TestPlace(va);
    }
  }

  lemma {:induction false} RootOfView(b: Blocks)
    requires Placed(b)
    ensures View(b).root == b.scratchAt
  {
  }

  lemma {:induction false} FetchWired(b: Blocks, p: VPage)
    requires Wired(b)
    ensures View(b).root == b.scratchAt
    ensures Fetch(View(b), b.scratchAt, p.i0) == if p.i0 == 0 then Next(b.scratchAt + 1) else Stop(Fault)
    ensures Fetch(View(b), b.scratchAt + 1, p.i1) == if p.i1 == 0 then Next(b.scratchAt + 2) else Stop(Fault)
    ensures Fetch(View(b), b.scratchAt + 2, p.i2) ==
            if p.i2 == 2 then Next(b.scratchAt + 3)
            else if 128 <= p.i2 < 192 then Next(b.apertureAt + (p.i2 - 128)) else Stop(Fault)
  {
    hide View;
    RootOfView(b);
    ReadWord(b, b.scratchAt, p.i0);
    ReadWord(b, b.scratchAt + 1, p.i1);
    ReadWord(b, b.scratchAt + 2, p.i2);
    assert WiredAt(b, p.i0);
    assert WiredAt(b, p.i1);
    assert WiredAt(b, p.i2);
    hide WiredAt, Wired, Placed;
  }

  // ------------------------------------------------------------- leaf writes

  function ReadSlot(b: Blocks, s: Slot): Word
    requires |b.scratch| == BLOCK_WORDS && |b.aperture| == BLOCK_WORDS && s.word < BLOCK_WORDS
  {
    if s.InScratch? then b.scratch[s.word] else b.aperture[s.word]
  }

  function WriteSlot(b: Blocks, s: Slot, e: Word): Blocks
    requires |b.scratch| == BLOCK_WORDS && |b.aperture| == BLOCK_WORDS && s.word < BLOCK_WORDS
  {
    if s.InScratch? then b.(scratch := b.scratch[s.word := e]) else b.(aperture := b.aperture[s.word := e])
  }

  lemma {:induction false} ResolvedInside(va: U64)
    requires Resolve(va).Some?
    ensures Resolve(va).value.word < BLOCK_WORDS
    ensures Resolve(va).value.InScratch? ==> 1536 <= Resolve(va).value.word < 2048
  {
  }

  /** Different pages of the windows have different slots. */
  lemma {:induction false} SlotsAreDistinct(x: U64, y: U64)
    requires Resolve(x).Some? && Resolve(y).Some?
    ensures Resolve(x) == Resolve(y) <==> x / 4096 == y / 4096
  {
    SlotNumber(x);
    SlotNumber(y);
  }

  lemma {:induction false} SlotNumber(x: U64)
    requires Resolve(x).Some?
    ensures var w := Resolve(x).value;
            if w.InScratch? then TEST_VA <= x < TEST_VA + TEST_BYTES && w.word == x / 4096 + 512
            else APERTURE_VA <= x < APERTURE_VA + APERTURE_BYTES && w.word == x / 4096 - 65536
  {
  }

  /** The level-3 entry of a slot in the frame and index the MMU uses for it. */
  lemma {:induction false} LeafAtSlot(b: Blocks, s: Slot, i: Index)
    requires Placed(b) && s.word < BLOCK_WORDS && i == s.word % 512
    ensures FetchLeaf(View(b), SlotFrame(b, s), i) == LeafOutcome(ReadSlot(b, s))
  {
    hide View, LeafOutcome;
    var f := SlotFrame(b, s);
    assert s.word == s.word / 512 * 512 + i && s.word / 512 < 64;
    ReadWord(b, f, i);
  }

  /** The MMU's translation of an address is the leaf the resolver points to. */
  lemma {:induction false} TranslationIsTheSlot(b: Blocks, x: U64)
    requires Wired(b) && x < TWO_48
    ensures Resolve(x).Some? ==> Resolve(x).value.word < BLOCK_WORDS
    ensures Translate(View(b), x) == if Resolve(x).Some? then LeafOutcome(ReadSlot(b, Resolve(x).value)) else Fault
  {
    assert Placed(b);
    hide PageOf, View, L3Of, Resolve, Wired, Placed, FetchLeaf, LeafOutcome, SlotFrame, ReadSlot;
    ResolverIsTheWalk(b, x);
    if Resolve(x).Some? { LeafAtSlot(b, Resolve(x).value, PageOf(x).i3); }
  }

  /** Writing a resolved slot changes the translation of that page only. */
  lemma {:induction false} SlotWriteChangesOnePage(b: Blocks, va: U64, e: Word, x: U64)
    requires Wired(b) && Resolve(va).Some? && x < TWO_48
    ensures Resolve(va).value.word < BLOCK_WORDS
    ensures var u := WriteSlot(b, Resolve(va).value, e);
            && Wired(u)
            && Translate(View(u), x) == if x / 4096 == va / 4096 then LeafOutcome(e) else Translate(View(b), x)
  {
    hide View, Translate;
    ResolvedInside(va);
    SamePageResolves(x, va);
    var s := Resolve(va).value;
    var u := WriteSlot(b, s, e);
    forall i: Index ensures WiredAt(u, i) { assert WiredAt(b, i); }
    hide Wired, WiredAt;
    TranslationIsTheSlot(b, x);
    TranslationIsTheSlot(u, x);
    if Resolve(x).Some? {
      SlotsAreDistinct(x, va);
    }
  }

  lemma {:induction false} SamePageResolves(x: U64, y: U64)
    ensures x / 4096 == y / 4096 ==> (Resolve(x).Some? <==> Resolve(y).Some?)
  {
  }

  // ------------------------------------------------------------- range updates

  /** What a range call stores: nothing (unmap), a contiguous run, or scattered
      frames; of a physical address only bits [47:12] reach the descriptor. */
  datatype Source =
    | Clear
    | Contiguous(firstPa: U64, attrs: Attrs)
    | Scattered(pfns: seq<U64>, attrs: Attrs)

  predicate Covers(src: Source, n: nat) {
    src.Scattered? ==> n <= |src.pfns|
  }

  function EntryFor(src: Source, i: nat): Word
    requires Covers(src, i + 1)
  {
    match src
    case Clear => ZERO
    case Contiguous(pa, a) => PageDesc((pa + i * 4096) / 4096 % 0x10_0000_0000, a)
    case Scattered(pfns, a) => PfnDesc(pfns[i], a)
  }

  predicate Sized(b: Blocks) {
    |b.scratch| == BLOCK_WORDS && |b.aperture| == BLOCK_WORDS
  }

  datatype Written = Written(b: Blocks, done: nat)

  /** The loop of WinMaliMmuSetPtes_: it ends at the first page outside the windows. */
  function SetPages(b: Blocks, start: U64, src: Source, n: nat): (r: Written)
    requires Sized(b) && Covers(src, n)
    ensures Sized(r.b) && r.done <= n
  {
    if n == 0 then Written(b, 0)
    else
      var w := SetPages(b, start, src, n - 1);
      if w.done < n - 1 then w
      else
        match Resolve(PageAddr(start, n - 1))
        case None => w
        case Some(s) => ResolvedInside(PageAddr(start, n - 1)); Written(WriteSlot(w.b, s, EntryFor(src, n - 1)), n)
  }

  /** A run of resolved pages does not leave its window, so addresses do not wrap. */
  lemma {:induction false} PlainAddress(start: U64, i: nat)
    requires i > 0 ==> Resolve(PageAddr(start, i - 1)).Some? && PageAddr(start, i - 1) == start + (i - 1) * 4096
    ensures PageAddr(start, i) == start + i * 4096
  {
  }

  /** The flat reading of a range call with k pages written. */
  ghost function FlatAfter(b: Blocks, start: U64, src: Source, k: nat, x: U64): Outcome
    requires Placed(b) && Covers(src, k)
  {
    if start <= x < start + k * 4096 then LeafOutcome(EntryFor(src, (x - start) / 4096)) else Translate(View(b), x)
  }

  /** r wrote the pages before the first one outside the windows, and reads as the flat map says. */
  ghost predicate FlatSoFar(b: Blocks, start: U64, src: Source, r: Written, x: U64) {
    && Wired(b) && Wired(r.b) && Covers(src, r.done)
    && (forall i | 0 <= i < r.done :: Resolve(PageAddr(start, i)).Some?)
    && (r.done > 0 ==> PageAddr(start, r.done - 1) == start + (r.done - 1) * 4096)
    && Translate(View(r.b), x) == FlatAfter(b, start, src, r.done, x)
  }

  lemma {:induction false} OneMoreLeaf(b: Blocks, start: U64, src: Source, w: Written, x: U64)
    requires FlatSoFar(b, start, src, w, x) && start % 4096 == 0 && x < TWO_48 && Covers(src, w.done + 1)
    requires Resolve(PageAddr(start, w.done)).Some?
    ensures Resolve(PageAddr(start, w.done)).value.word < BLOCK_WORDS && Sized(w.b)
    ensures FlatSoFar(b, start, src,
                      Written(WriteSlot(w.b, Resolve(PageAddr(start, w.done)).value, EntryFor(src, w.done)), w.done + 1), x)
  {
    hide Wired, View, Translate, Resolve, EntryFor, WriteSlot;
    SizedBlocks(b);
    SizedBlocks(w.b);
    var va := PageAddr(start, w.done);
    PlainAddress(start, w.done);
    hide PageAddr;
    ResolvedInside(va);
    SlotWriteChangesOnePage(w.b, va, EntryFor(src, w.done), x);
    PageOfRange(start, w.done, x);
  }

  lemma {:induction false} NothingWritten(b: Blocks, start: U64, src: Source, x: U64)
    requires Wired(b)
    ensures FlatSoFar(b, start, src, Written(b, 0), x)
  {
  }

  /** The loop ends where a page does not resolve, and stays there. */
  lemma {:induction false} SetPagesStopped(b: Blocks, start: U64, src: Source, n: nat)
    requires Sized(b) && Covers(src, n) && n > 0
    requires SetPages(b, start, src, n - 1).done < n - 1 || Resolve(PageAddr(start, n - 1)).None?
    ensures SetPages(b, start, src, n) == SetPages(b, start, src, n - 1)
  {
  }

  lemma {:induction false} SetPagesProgress(b: Blocks, start: U64, src: Source, n: nat, x: U64)
    requires Wired(b) && start % 4096 == 0 && Covers(src, n) && x < TWO_48
    ensures Sized(b)
    ensures var r := SetPages(b, start, src, n);
            && FlatSoFar(b, start, src, r, x)
            && (r.done < n ==> Resolve(PageAddr(start, r.done)).None?)
  {
    hide Wired, Resolve, FlatSoFar, PageAddr, EntryFor, WriteSlot;
    SizedBlocks(b);
    if n == 0 {
      NothingWritten(b, start, src, x);
    } else {
      hide SetPages;
      SetPagesProgress(b, start, src, n - 1, x);
      var w := SetPages(b, start, src, n - 1);
      if w.done == n - 1 && Resolve(PageAddr(start, n - 1)).Some? {
        OneMoreLeaf(b, start, src, w, x);
        SetPagesStep(b, start, src, n);
      } else {
        SetPagesStopped(b, start, src, n);
      }
    }
  }

  /** A range call writes exactly the pages before the first one outside the
      windows; each translates to what was asked and every other address is as before. */
  lemma {:induction false} SetPagesIsFlat(b: Blocks, start: U64, src: Source, n: nat, x: U64)
    requires Wired(b) && start % 4096 == 0 && Covers(src, n) && x < TWO_48
    ensures var r := SetPages(b, start, src, n);
            && Wired(r.b)
            && (forall i | 0 <= i < r.done :: Resolve(PageAddr(start, i)).Some?)
            && (r.done < n ==> Resolve(PageAddr(start, r.done)).None?)
            && Translate(View(r.b), x) == FlatAfter(b, start, src, r.done, x)
  {
    SizedBlocks(b);
    SetPagesProgress(b, start, src, n, x);
  }

  /** What page i of a range should translate to, by its frame and permissions. */
  ghost predicate Shows(o: Outcome, src: Source, i: nat) {
    match src
    case Clear => o == Fault
    case Contiguous(pa, a) =>
      o.Leaf? && IsValid(o.desc) && o.desc.frame == (pa / 4096 + i) % 0x10_0000_0000 && AttrsOf(o.desc) == a
    case Scattered(pfns, a) =>
      i < |pfns| && o.Leaf? && IsValid(o.desc) && o.desc.frame == pfns[i] % 0x10_0000_0000 && AttrsOf(o.desc) == a
  }

  lemma {:induction false} EntryShows(src: Source, i: nat)
    requires Covers(src, i + 1)
    ensures Shows(LeafOutcome(EntryFor(src, i)), src, i)
  {
    match src {
      case Clear =>
      case Contiguous(pa, a) =>
        WholePagesAdd(pa, i);
        DescriptorValues((pa / 4096 + i) % 0x10_0000_0000, a);
      case Scattered(pfns, a) => DescriptorValues(pfns[i] % 0x10_0000_0000, a);
    }
  }

  lemma {:induction false} WholePagesAdd(pa: U64, i: nat)
    ensures (pa + i * 4096) / 4096 == pa / 4096 + i
  {
  }

  /** The two windows of the address space. */
  predicate InWindow(va: int) {
    0x40_0000 <= va < 0x60_0000 || 0x1000_0000 <= va < 0x1800_0000
  }

  lemma {:induction false} ResolvesInWindows(va: U64)
    ensures Resolve(va).Some? <==> InWindow(va)
  {
  }

  /** A run of pages of one window has plain addresses. */
  lemma {:induction false} PlainRun(start: U64, done: nat, i: nat)
    requires (forall j | 0 <= j < done :: Resolve(PageAddr(start, j)).Some?) && i <= done
    ensures PageAddr(start, i) == start + i * 4096
    decreases i
  {
    hide Resolve;
    if i > 0 {
      PlainRun(start, done, i - 1);
      PlainAddress(start, i);
    } else {
      PlainAddress(start, 0);
    }
  }

  /** What a range call leaves, address by address: exactly the pages before the first one
      outside the windows are written, page i with frame and permissions of page i of the
      request, and every other address is as before. */
  ghost predicate WroteExactly(b: Blocks, u: Blocks, start: U64, src: Source, n: nat, done: nat) {
    && Placed(b) && Placed(u) && done <= n
    && (forall i: nat | i < done :: InWindow(start + i * 4096))
    && (done < n ==> !InWindow(start + done * 4096))
    && (forall x: U64 | x < TWO_48 ::
          if start <= x < start + done * 4096 then Shows(Translate(View(u), x), src, (x - start) / 4096)
          else Translate(View(u), x) == Translate(View(b), x))
  }

  lemma {:induction false} PagesWritten(b: Blocks, start: U64, src: Source, n: nat)
    requires Wired(b) && start % 4096 == 0 && Covers(src, n)
    ensures Sized(b)
    ensures WroteExactly(b, SetPages(b, start, src, n).b, start, src, n, SetPages(b, start, src, n).done)
  {
    SizedBlocks(b);
    var r := SetPages(b, start, src, n);
    SetPagesIsFlat(b, start, src, n, 0);
    SizedBlocks(r.b);
    hide Wired, SetPages, Resolve, View, Translate, EntryFor, LeafOutcome, PageAddr, InWindow, Shows;
    forall i: nat | i < r.done
      ensures InWindow(start + i * 4096)
    {
      PlainRun(start, r.done, i);
      ResolvesInWindows(PageAddr(start, i));
    }
    PlainRun(start, r.done, r.done);
    ResolvesInWindows(PageAddr(start, r.done));
    forall x: U64 | x < TWO_48
      ensures if start <= x < start + r.done * 4096 then Shows(Translate(View(r.b), x), src, (x - start) / 4096)
              else Translate(View(r.b), x) == Translate(View(b), x)
    {
      SetPagesIsFlat(b, start, src, n, x);
      if start <= x < start + r.done * 4096 { EntryShows(src, (x - start) / 4096); }
    }
  }

  lemma {:induction false} SetPagesStep(b: Blocks, start: U64, src: Source, n: nat)
    requires Sized(b) && Covers(src, n) && n > 0
    requires SetPages(b, start, src, n - 1).done == n - 1 && Resolve(PageAddr(start, n - 1)).Some?
    ensures Resolve(PageAddr(start, n - 1)).value.word < BLOCK_WORDS
    ensures SetPages(b, start, src, n) ==
            Written(WriteSlot(SetPages(b, start, src, n - 1).b, Resolve(PageAddr(start, n - 1)).value, EntryFor(src, n - 1)), n)
  {
  }

  lemma {:induction false} PageOfRange(start: U64, i: nat, x: U64)
    requires start % 4096 == 0
    ensures x / 4096 == (start + i * 4096) / 4096 <==> start + i * 4096 <= x < start + i * 4096 + 4096
    ensures start + i * 4096 <= x < start + i * 4096 + 4096 ==> (x - start) / 4096 == i
  {
  }

  lemma {:induction false} WindowResolves(start: U64, i: nat)
    requires (TEST_VA <= start && start + i * 4096 < TEST_VA + TEST_BYTES)
             || (APERTURE_VA <= start && start + i * 4096 < APERTURE_VA + APERTURE_BYTES)
    ensures Resolve(PageAddr(start, i)).Some?
  {
  }

  /** A range that begins in a window and stays in it succeeds completely. */
  lemma {:induction false} RangeInsideWindowSucceeds(b: Blocks, start: U64, src: Source, n: nat)
    requires Sized(b) && Covers(src, n)
    requires (TEST_VA <= start && start + n * 4096 <= TEST_VA + TEST_BYTES)
             || (APERTURE_VA <= start && start + n * 4096 <= APERTURE_VA + APERTURE_BYTES)
    ensures SetPages(b, start, src, n).done == n
  {
    hide Resolve, PageAddr, EntryFor, WriteSlot;
    if n > 0 {
      RangeInsideWindowSucceeds(b, start, src, n - 1);
      WindowResolves(start, n - 1);
      SetPagesStep(b, start, src, n);
    }
  }

  // ------------------------------------------------------------- runs

  datatype RangeOp = RangeOp(start: U64, src: Source, count: nat)

  predicate Accepted(op: RangeOp) {
    && 0 < op.count <= MAX_PAGES && op.start % 4096 == 0
    && (op.src.Contiguous? ==> op.src.firstPa % 4096 == 0) && Covers(op.src, op.count)
  }

  /** WinMaliMmuSetPtes_: rejected calls change nothing. */
  function Apply(b: Blocks, op: RangeOp): (r: Blocks)
    requires Sized(b)
    ensures Sized(r)
  {
    if Accepted(op) then SetPages(b, op.start, op.src, op.count).b else b
  }

  function ApplyAll(b: Blocks, ops: seq<RangeOp>): (r: Blocks)
    requires Sized(b)
    ensures Sized(r)
  {
    if ops == [] then b else Apply(ApplyAll(b, ops[..|ops| - 1]), ops[|ops| - 1])
  }

  /** The flat map after a run: for each address the last accepted call whose
      written part covers it decides. */
  ghost function FlatRun(b: Blocks, ops: seq<RangeOp>, x: U64): Outcome
    requires Placed(b)
  {
    if ops == [] then Translate(View(b), x)
    else
      var op := ops[|ops| - 1];
      var k := if Accepted(op) then SetPages(b, op.start, op.src, op.count).done else 0;
      if op.start <= x < op.start + k * 4096 then LeafOutcome(EntryFor(op.src, (x - op.start) / 4096))
      else FlatRun(b, ops[..|ops| - 1], x)
  }

  /** Where a range call stops depends on the range only. */
  lemma {:induction false} SameReach(b: Blocks, c: Blocks, start: U64, src: Source, n: nat)
    requires Sized(b) && Sized(c) && Covers(src, n)
    ensures SetPages(b, start, src, n).done == SetPages(c, start, src, n).done
  {
    if n > 0 {
      SameReach(b, c, start, src, n - 1);
    }
  }

  lemma {:induction false} WiredIsSized(b: Blocks)
    requires Wired(b)
    ensures Sized(b) && Placed(b)
  {
  }

  /** Any sequence of range maps and unmaps refines the flat map. */
  lemma {:induction false} RunsAreFlat(b: Blocks, ops: seq<RangeOp>, x: U64)
    requires Wired(b) && x < TWO_48
    ensures Wired(ApplyAll(b, ops)) && Translate(View(ApplyAll(b, ops)), x) == FlatRun(b, ops, x)
    decreases |ops|
  {
    hide Wired, Placed, View, Translate, SetPages, Resolve, LeafOutcome, EntryFor;
    WiredIsSized(b);
    if ops != [] {
      var op := ops[|ops| - 1];
      RunsAreFlat(b, ops[..|ops| - 1], x);
      if Accepted(op) {
        var c := ApplyAll(b, ops[..|ops| - 1]);
        SetPagesIsFlat(c, op.start, op.src, op.count, x);
        SameReach(b, c, op.start, op.src, op.count);
      }
    }
  }

  /** How many pages of a call were written in a run over b. */
  ghost function WrittenBy(b: Blocks, op: RangeOp): (done: nat)
    requires Sized(b)
    ensures done <= op.count
  {
    if Accepted(op) then SetPages(b, op.start, op.src, op.count).done else 0
  }

  predicate Covered(op: RangeOp, done: nat, x: int) {
    op.start <= x < op.start + done * 4096
  }

  lemma {:induction false} FlatRunBefore(b: Blocks, ops: seq<RangeOp>, k: nat, x: U64)
    requires Wired(b) && Sized(b) && k <= |ops|
    requires forall j | k <= j < |ops| :: !Covered(ops[j], WrittenBy(b, ops[j]), x)
    ensures FlatRun(b, ops, x) == FlatRun(b, ops[..k], x)
    decreases |ops|
  {
    hide Wired, View, Translate, SetPages;
    if k < |ops| {
      var front := ops[..|ops| - 1];
      assert front[..k] == ops[..k];
      FlatRunBefore(b, front, k, x);
    } else {
      assert ops[..k] == ops;
    }
  }

  /** After any run, an address translates as the last call that wrote its page asked:
      frame and permissions of that page of that request. An address no call wrote is as
      it was. */
  lemma {:induction false} LastCallDecides(b: Blocks, ops: seq<RangeOp>, k: nat, x: U64)
    requires Wired(b) && Sized(b) && x < TWO_48 && k <= |ops|
    requires forall j | k <= j < |ops| :: !Covered(ops[j], WrittenBy(b, ops[j]), x)
    ensures Wired(ApplyAll(b, ops))
    ensures k == 0 ==> Translate(View(ApplyAll(b, ops)), x) == Translate(View(b), x)
    ensures k > 0 && Covered(ops[k - 1], WrittenBy(b, ops[k - 1]), x) ==>
              Shows(Translate(View(ApplyAll(b, ops)), x), ops[k - 1].src, (x - ops[k - 1].start) / 4096)
  {
    hide Wired, View, Translate, SetPages, EntryFor, LeafOutcome, ApplyAll, Shows;
    RunsAreFlat(b, ops, x);
    FlatRunBefore(b, ops, k, x);
    if k > 0 && Covered(ops[k - 1], WrittenBy(b, ops[k - 1]), x) {
      EntryShows(ops[k - 1].src, (x - ops[k - 1].start) / 4096);
    }
  }

  // ------------------------------------------------------------- the driver's code

  /** A pointer into one of the two blocks. */
  datatype Cell = Cell(block: array<Word>, word: nat)

  class BringupAs {
    const scratch: array<Word>
    const aperture: array<Word>
    const scratchAt: Frame
    const apertureAt: Frame
    var bound: bool

    ghost function State(): Blocks
      reads this, scratch, aperture
    {
      Blocks(scratchAt, scratch[..], apertureAt, aperture[..])
    }

    ghost predicate Valid()
      reads this, scratch, aperture
    {
      scratch != aperture && Wired(State())
    }

    /** The allocations and the wiring of WinMaliMmuInit: data page mapped RW, no
        execute, at the start of the CSF window, nothing else. */
    constructor (scratchAt: Frame, apertureAt: Frame)
      requires scratchAt + 64 <= TWO_36 && apertureAt + 64 <= TWO_36
      requires scratchAt + 64 <= apertureAt || apertureAt + 64 <= scratchAt
      ensures Valid() && bound
      ensures forall x: U64 | x < TWO_48 :: Translate(View(State()), x) ==
                if 0x40_0000 <= x < 0x40_1000 then Leaf(PageDesc(scratchAt + 4, Attrs(false, true))) else Fault
    {
      var s := new Word[BLOCK_WORDS](_ => ZERO);
      var a := new Word[BLOCK_WORDS](_ => ZERO);
      s[0] := TableDesc(scratchAt + 1);
      s[512] := TableDesc(scratchAt + 2);
      s[1024 + 2] := TableDesc(scratchAt + 3);
      s[1536] := PageDesc(scratchAt + 4, Attrs(false, true));
      for t := 0 to 64
        invariant forall w | 0 <= w < BLOCK_WORDS :: s[w] ==
                    if w == 0 then TableDesc(scratchAt + 1) else if w == 512 then TableDesc(scratchAt + 2)
                    else if w == 1026 then TableDesc(scratchAt + 3)
                    else if w == 1536 then PageDesc(scratchAt + 4, Attrs(false, true))
                    else if 1152 <= w < 1152 + t then TableDesc(apertureAt + (w - 1152)) else ZERO
        invariant forall w | 0 <= w < BLOCK_WORDS :: a[w] == ZERO
      {
        s[1024 + 128 + t] := TableDesc(apertureAt + t);
      }
      scratch, aperture := s, a;
      this.scratchAt, this.apertureAt := scratchAt, apertureAt;
      bound := true;
      new;
      hide View, Translate, Wired, PageDesc, TableDesc;
      WiredAtStart(State());
    }

    /** WinMaliMmuResolveL3Slot_, as the pointer it returns. */
    method ResolveL3Slot(va: U64) returns (cell: Option<Cell>)
      requires Valid()
      ensures cell.None? <==> Resolve(va).None?
      ensures cell.Some? ==> Points(cell.value, va)
    {
      if TEST_VA <= va < TEST_VA + TEST_BYTES {
        cell := Some(Cell(scratch, 12288 / 8 + (va - TEST_VA) / 4096));
      } else if APERTURE_VA <= va < APERTURE_VA + APERTURE_BYTES {
        var off := va - APERTURE_VA;
        cell := Some(Cell(aperture, off / 0x20_0000 * 4096 / 8 + off / 4096 % 512));
      } else {
        cell := None;
      }
    }

    /** The cell of a resolved address. */
    ghost predicate Points(cell: Cell, va: U64)
      reads this
    {
      Resolve(va).Some? &&
      cell == Cell(if Resolve(va).value.InScratch? then scratch else aperture, Resolve(va).value.word)
    }

    method WriteCell(cell: Cell, e: Word, ghost va: U64)
      requires Valid() && Points(cell, va)
      modifies scratch, aperture
      ensures Valid() && Resolve(va).value.word < BLOCK_WORDS
      ensures State() == WriteSlot(old(State()), Resolve(va).value, e)
    {
      hide Wired, View, Resolve, Translate;
      ResolvedInside(va);
      SizedBlocks(State());
      SlotWriteChangesOnePage(State(), va, e, 0);
      cell.block[cell.word] := e;
      assert State() == WriteSlot(old(State()), Resolve(va).value, e);
    }

    /** WinMaliMmuSetPtes_; the TLB flush that follows has no effect on the tables. */
    method SetPtes(start: U64, src: Source, pageCount: nat) returns (status: Status, ghost done: nat)
      requires Valid() && Covers(src, pageCount)
      modifies scratch, aperture
      ensures Valid()
      ensures bound ==> State() == Apply(old(State()), RangeOp(start, src, pageCount))
      ensures status == DeviceNotReady <==> !bound
      ensures done == pageCount > 0 <==> status == Success
      ensures status != Success ==> status == DeviceNotReady || status == InvalidParameter
      ensures var rejected := !bound || pageCount == 0 || pageCount > 32768 || start % 4096 != 0
                              || (src.Contiguous? && src.firstPa % 4096 != 0);
              if rejected then State() == old(State()) && done == 0
              else WroteExactly(old(State()), State(), start, src, pageCount, done)
    {
      done := 0;
      if !bound {
        return DeviceNotReady, 0;
      }
      if pageCount == 0 || pageCount > MAX_PAGES {
        return InvalidParameter, 0;
      }
      if start % 4096 != 0 || (src.Contiguous? && src.firstPa % 4096 != 0) {
        return InvalidParameter, 0;
      }
      ghost var b := State();
      SizedBlocks(b);
      PagesWritten(b, start, src, pageCount);
      hide Wired, Resolve, Valid, State, Points, EntryFor, WriteSlot, WroteExactly;
      for i := 0 to pageCount
        invariant Valid() && SetPages(b, start, src, i) == Written(State(), i)
      {
        var va := PageAddr(start, i);
        var cell := ResolveL3Slot(va);
        if cell.None? {
          StopsThere(b, start, src, i, pageCount);
          return InvalidParameter, i;
        }
        WriteCell(cell.value, EntryFor(src, i), va);
      }
      status, done := Success, pageCount;
    }
  }

  lemma {:induction false} SizedBlocks(b: Blocks)
    requires Wired(b)
    ensures Sized(b) && Placed(b)
  {
  }

  /** The words MmuInit leaves in the two blocks. */
  lemma {:induction false} WiredAtStart(b: Blocks)
    requires Placed(b)
    requires forall w | 0 <= w < BLOCK_WORDS :: b.scratch[w] ==
               if w == 0 then TableDesc(b.scratchAt + 1) else if w == 512 then TableDesc(b.scratchAt + 2)
               else if w == 1026 then TableDesc(b.scratchAt + 3)
               else if w == 1536 then PageDesc(b.scratchAt + 4, Attrs(false, true))
               else if 1152 <= w < 1216 then TableDesc(b.apertureAt + (w - 1152)) else ZERO
    requires forall w | 0 <= w < BLOCK_WORDS :: b.aperture[w] == ZERO
    ensures Wired(b)
    ensures forall x: U64 | x < TWO_48 :: Translate(View(b), x) ==
              if 0x40_0000 <= x < 0x40_1000 then Leaf(PageDesc(b.scratchAt + 4, Attrs(false, true))) else Fault
  {
    hide View, Translate, PageDesc, TableDesc;
    forall i: Index ensures WiredAt(b, i) {
    }
    hide WiredAt, Wired;
    forall x: U64 | x < TWO_48
      ensures Translate(View(b), x) ==
              if 0x40_0000 <= x < 0x40_1000 then Leaf(PageDesc(b.scratchAt + 4, Attrs(false, true))) else Fault
    {
      InitialTranslation(b, x);
    }
  }

  lemma {:induction false} InitialTranslation(b: Blocks, x: U64)
    requires Wired(b) && x < TWO_48
    requires forall w | 1536 <= w < 2048 :: b.scratch[w] == if w == 1536 then PageDesc(b.scratchAt + 4, Attrs(false, true)) else ZERO
    requires forall w | 0 <= w < BLOCK_WORDS :: b.aperture[w] == ZERO
    ensures Translate(View(b), x) ==
            if TEST_VA <= x < TEST_VA + 4096 then Leaf(PageDesc(b.scratchAt + 4, Attrs(false, true))) else Fault
  {
    hide View, Translate, Wired;
    TranslationIsTheSlot(b, x);
    if Resolve(x).Some? {
      ResolvedInside(x);
      SlotNumber(x);
    }
  }

  lemma {:induction false} StopsThere(b: Blocks, start: U64, src: Source, i: nat, n: nat)
    requires Sized(b) && i < n && Covers(src, n)
    requires SetPages(b, start, src, i).done == i && Resolve(PageAddr(start, i)).None?
    ensures SetPages(b, start, src, n) == SetPages(b, start, src, i)
  {
    if i < n - 1 {
      StopsThere(b, start, src, i, n - 1);
    }
  }
}
