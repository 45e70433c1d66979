/** The firmware image parser: a header, then entries laid end to end, of which the
    interface entries describe the sections to load. */
module FwImage {
  type Byte = x: int | 0 <= x < 256
  type U32 = x: int | 0 <= x < 0x1_0000_0000

  const HEADER_MAGIC: U32 := 0xc3f13a6e
  const HEADER_BYTES: nat := 20
  const SECTION_HDR_BYTES: nat := 20
  const MAX_SECTIONS: nat := 24
  const SHARED_REGION_START: U32 := 0x0400_0000

  datatype Status = Success | InvalidParameter | InvalidImageFormat | InsufficientResources

  // ------------------------------------------------------------- little-endian words

  function U32At(b: seq<Byte>, off: nat): (r: U32)
    requires off + 4 <= |b|
  {
    var (b0: int, b1: int, b2: int, b3: int) := (b[off] as int, b[off + 1] as int, b[off + 2] as int, b[off + 3] as int);
    b0 + 0x100 * b1 + 0x1_0000 * b2 + 0x100_0000 * b3
  }

  function Bytes4(x: U32): (r: seq<Byte>)
    ensures |r| == 4
  {
    [x % 0x100, x / 0x100 % 0x100, x / 0x1_0000 % 0x100, x / 0x100_0000]
  }

  lemma {:induction false} WordRoundTrip(x: U32, b: seq<Byte>, off: nat)
    requires off + 4 <= |b| && b[off..off + 4] == Bytes4(x)
    ensures U32At(b, off) == x
  {
    assert b[off] == b[off..off + 4][0] && b[off + 1] == b[off..off + 4][1];
    assert b[off + 2] == b[off..off + 4][2] && b[off + 3] == b[off..off + 4][3];
    assert x / 0x1_0000 == x / 0x100 / 0x100 && x / 0x100_0000 == x / 0x100 / 0x100 / 0x100;
  }

  lemma {:induction false} LowByte(b0: nat, rest: nat)
    requires b0 < 0x100
    ensures (b0 + 0x100 * rest) % 0x100 == b0 && (b0 + 0x100 * rest) / 0x100 == rest
  {
  }

  lemma {:induction false} ByteByByte(x: nat)
    ensures x / 0x1_0000 == x / 0x100 / 0x100 && x / 0x100_0000 == x / 0x100 / 0x100 / 0x100
  {
  }

  lemma {:induction false} BytesOfWord(b: seq<Byte>, off: nat)
    requires off + 4 <= |b|
    ensures Bytes4(U32At(b, off)) == b[off..off + 4]
  {
    var b0: nat, b1: nat, b2: nat, b3: nat := b[off], b[off + 1], b[off + 2], b[off + 3];
    var x, y, z := U32At(b, off), b1 + 0x100 * (b2 + 0x100 * b3), b2 + 0x100 * b3;
    assert x == b0 + 0x100 * y;
    ByteByByte(x);
    LowByte(b0, y);
    LowByte(b1, z);
    LowByte(b2, b3);
  }

  // ------------------------------------------------------------- one entry

  /** Entry header: type in bits 7..0, size in bits 15..8, optional in bit 31. */
  function EntryType(word: U32): nat { word % 0x100 }
  function EntrySize(word: U32): nat { word / 0x100 % 0x100 }
  predicate Optional(word: U32) { word >= 0x8000_0000 }
  predicate IsIface(word: U32) { EntryType(word) == 0 }

  datatype SectionHdr = SectionHdr(flags: U32, vaStart: U32, vaEnd: U32, dataStart: U32, dataEnd: U32) {
    predicate Prot() { flags / 0x20 % 2 == 1 }
    predicate Shared() { flags / 0x4000_0000 % 2 == 1 }
    /** No bit outside 0xC000003F. */
    predicate Supported() { flags / 0x40 % 0x100_0000 == 0 }
  }

  /** contents is what the backing pages hold after loading; copied is how many bytes
      the copy of the initial data writes, counted from the start of the backing. */
  datatype Section = Section(flags: U32, vaStart: U32, vaEnd: U32, contents: seq<Byte>, copied: nat) {
    /** The copy runs past the end of the backing. */
    predicate Overruns() { copied > |contents| }
  }

  /** What the loader has recorded; grants counts the backing allocations the kernel
      will still serve. */
  datatype Loaded = Loaded(sections: seq<Section>, shared: int, grants: nat)

  const NO_SHARED: int := 0xFFFF_FFFF

  datatype Outcome = Outcome(status: Status, state: Loaded)

  function HdrOf(payload: seq<Byte>): SectionHdr
    requires |payload| >= SECTION_HDR_BYTES
  {
    SectionHdr(U32At(payload, 0), U32At(payload, 4), U32At(payload, 8), U32At(payload, 12), U32At(payload, 16))
  }

  /** The checks an interface entry must pass, in the image it came from. */
  predicate HdrOk(h: SectionHdr, imageSize: nat) {
    && h.dataStart <= h.dataEnd && h.vaStart <= h.vaEnd
    && h.dataEnd <= imageSize
    && h.vaStart % 0x1000 == 0 && h.vaEnd % 0x1000 == 0
    && h.Supported()
    && (h.Prot() || (h.vaStart == SHARED_REGION_START ==> h.Shared()))
  }

  /** The initial data fits the section. The loader does not check this. */
  predicate DataFits(h: SectionHdr) {
    h.vaStart < h.vaEnd ==> h.dataEnd - h.dataStart <= h.vaEnd - h.vaStart
  }

  /** Zeros overlaid with the initial data. */
  function Contents(image: seq<Byte>, h: SectionHdr): (r: seq<Byte>)
    requires HdrOk(h, |image|)
    ensures |r| == h.vaEnd - h.vaStart
  {
    var n := h.vaEnd - h.vaStart;
    var data := image[h.dataStart..h.dataEnd];
    if |data| >= n then data[..n] else data + seq(n - |data|, _ => 0)
  }

  function SectionOf(image: seq<Byte>, h: SectionHdr): Section
    requires HdrOk(h, |image|)
  {
    Section(h.flags, h.vaStart, h.vaEnd, Contents(image, h),
            if h.vaStart < h.vaEnd then h.dataEnd - h.dataStart else 0)
  }

  /** WinMaliFwLoadSectionEntry_ on the payload of one interface entry. */
  function LoadSection(image: seq<Byte>, s: Loaded, payload: seq<Byte>): Outcome {
    if |payload| < SECTION_HDR_BYTES then Outcome(InvalidParameter, s)
    else
      var h := HdrOf(payload);
      if !HdrOk(h, |image|) then Outcome(InvalidImageFormat, s)
      else if h.Prot() then Outcome(Success, s)
      else if |s.sections| >= MAX_SECTIONS then Outcome(InsufficientResources, s)
      else if h.vaStart < h.vaEnd && s.grants == 0 then Outcome(InsufficientResources, s)
      else
        Outcome(Success, Loaded(s.sections + [SectionOf(image, h)],
                                if h.vaStart == SHARED_REGION_START then |s.sections| else s.shared,
                                if h.vaStart < h.vaEnd then s.grants - 1 else s.grants))
  }

  // ------------------------------------------------------------- the parser

  /** The loop of WinMaliFwParseImage_ from an offset on. Every read is inside the image. */
  function ParseFrom(image: seq<Byte>, size: nat, off: nat, s: Loaded): (r: Outcome)
    requires size <= |image| && off <= size
    decreases size - off
  {
    if off == size then Outcome(Success, s)
    else if off + 4 > size then Outcome(InvalidParameter, s)
    else
      var word := U32At(image, off);
      var n := EntrySize(word);
      if n < 4 || n % 4 != 0 then Outcome(InvalidImageFormat, s)
      else if off + n > size then Outcome(if IsIface(word) then InvalidParameter else InvalidImageFormat, s)
      else
        var e := Accept(image, s, Entry(word, image[off + 4..off + n]));
        if e.status != Success then e else ParseFrom(image, size, off + n, e.state)
  }

  predicate HeaderOk(image: seq<Byte>) {
    && |image| >= HEADER_BYTES
    && U32At(image, 0) == HEADER_MAGIC
    && image[5] == 0
    && HEADER_BYTES <= U32At(image, 16) <= |image|
  }

  /** WinMaliFwParseImage_ on a fresh context. */
  function Parse(image: seq<Byte>, grants: nat): Outcome {
    var blank := Loaded([], NO_SHARED, grants);
    if |image| < HEADER_BYTES then Outcome(InvalidParameter, Loaded([], 0, grants))
    else if !HeaderOk(image) then Outcome(InvalidImageFormat, Loaded([], 0, grants))
    else
      var r := ParseFrom(image, U32At(image, 16), HEADER_BYTES, blank);
      if r.status == Success && (r.state.shared == NO_SHARED || r.state.sections == [])
      then Outcome(InvalidImageFormat, r.state) else r
  }

  // ------------------------------------------------------------- the grammar

  /** An entry as it lies in the file: its header word and the bytes after it. */
  datatype Entry = Entry(word: U32, payload: seq<Byte>)

  function Encode(e: Entry): seq<Byte> {
    Bytes4(e.word) + e.payload
  }

  function Flatten(es: seq<Entry>): seq<Byte> {
    if es == [] then [] else Encode(es[0]) + Flatten(es[1..])
  }

  /** The size field tells the truth, and it is a whole number of words. */
  predicate WellSized(e: Entry) {
    EntrySize(e.word) == 4 + |e.payload| && |e.payload| % 4 == 0
  }

  ghost predicate AllSized(es: seq<Entry>) {
    forall i | 0 <= i < |es| :: WellSized(es[i])
  }

  /** What one entry does to the loader. */
  function Accept(image: seq<Byte>, s: Loaded, e: Entry): Outcome {
    if IsIface(e.word) then LoadSection(image, s, e.payload)
    else if Optional(e.word) then Outcome(Success, s)
    else Outcome(InvalidImageFormat, s)
  }

  function AcceptAll(image: seq<Byte>, s: Loaded, es: seq<Entry>): Outcome
    decreases |es|
  {
    if es == [] then Outcome(Success, s)
    else
      var r := Accept(image, s, es[0]);
      if r.status != Success then r else AcceptAll(image, r.state, es[1..])
  }

  /** The entries a successful parse walks over. */
  function EntriesFrom(image: seq<Byte>, size: nat, off: nat): seq<Entry>
    requires size <= |image| && off <= size
    decreases size - off
  {
    if off + 4 > size then []
    else
      var n := EntrySize(U32At(image, off));
      if n < 4 || off + n > size then []
      else [Entry(U32At(image, off), image[off + 4..off + n])] + EntriesFrom(image, size, off + n)
  }

  lemma {:induction false} SliceOfSlice(b: seq<Byte>, lo: nat, hi: nat, i: nat, j: nat)
    requires i <= j && lo + j <= hi <= |b|
    ensures b[lo..hi][i..j] == b[lo + i..lo + j]
  {
    var x, y := b[lo..hi][i..j], b[lo + i..lo + j];
    forall k | 0 <= k < j - i ensures x[k] == y[k] {
      assert x[k] == b[lo..hi][i + k] == b[lo + i + k];
    }
  }

  /** Where the first of some tiles lies. */
  lemma {:induction false} FirstTile(image: seq<Byte>, size: nat, off: nat, es: seq<Entry>)
    requires size <= |image| && off <= size && es != [] && WellSized(es[0]) && image[off..size] == Flatten(es)
    ensures var n := EntrySize(es[0].word);
            && 4 <= n && n % 4 == 0 && off + n <= size
            && U32At(image, off) == es[0].word && image[off + 4..off + n] == es[0].payload
            && image[off + n..size] == Flatten(es[1..])
  {
    var e, f := es[0], image[off..size];
    var n := 4 + |e.payload|;
    var rest := Flatten(es[1..]);
    assert f == Encode(e) + rest && |Encode(e)| == n;
    assert f[0..4] == Bytes4(e.word) && f[4..n] == e.payload && f[n..|f|] == rest;
    hide Flatten;
    hide Encode;
    SliceOfSlice(image, off, size, 0, 4);
    SliceOfSlice(image, off, size, 4, n);
    SliceOfSlice(image, off, size, n, size - off);
    WordRoundTrip(e.word, image, off);
  }

  /** Any image whose bytes are well-sized entries laid end to end is handled entry by
      entry, whatever the outcome. */
  lemma {:induction false} ParsesTiles(image: seq<Byte>, size: nat, off: nat, s: Loaded, es: seq<Entry>)
    requires size <= |image| && off <= size
    requires AllSized(es) && image[off..size] == Flatten(es)
    ensures ParseFrom(image, size, off, s) == AcceptAll(image, s, es)
    decreases |es|
  {
    hide Accept;
    hide U32At;
    if es == [] {
      assert image[off..size] == [];
    } else {
      FirstTile(image, size, off, es);
      hide Flatten;
      var r := Accept(image, s, es[0]);
      if r.status == Success { ParsesTiles(image, size, off + EntrySize(es[0].word), r.state, es[1..]); }
    }
  }

  /** When the loop succeeds, the entries it saw tile the rest of the image exactly. */
  lemma {:induction false} SuccessTiles(image: seq<Byte>, size: nat, off: nat, s: Loaded)
    requires size <= |image| && off <= size
    requires ParseFrom(image, size, off, s).status == Success
    ensures var es := EntriesFrom(image, size, off);
            AllSized(es) && image[off..size] == Flatten(es)
    decreases size - off
  {
    hide Accept;
    hide ParseFrom;
    hide EntriesFrom;
    hide U32At;
    hide Encode;
    if off == size {
      NoEntries(image, size);
    } else {
      OneEntry(image, size, off, s);
      var n := EntrySize(U32At(image, off));
      var e := Entry(U32At(image, off), image[off + 4..off + n]);
      var rest := EntriesFrom(image, size, off + n);
      SuccessTiles(image, size, off + n, Accept(image, s, e).state);
      FirstEntry(image, off, n);
      assert image[off..size] == image[off..off + n] + image[off + n..size];
      assert ([e] + rest)[1..] == rest;
    }
  }

  lemma {:induction false} NoEntries(image: seq<Byte>, size: nat)
    requires size <= |image|
    ensures EntriesFrom(image, size, size) == []
  {
  }

  /** One turn of a successful loop. */
  lemma {:induction false} OneEntry(image: seq<Byte>, size: nat, off: nat, s: Loaded)
    requires size <= |image| && off < size && ParseFrom(image, size, off, s).status == Success
    ensures off + 4 <= size
    ensures var n := EntrySize(U32At(image, off));
            && 4 <= n && n % 4 == 0 && off + n <= size
            && var e := Entry(U32At(image, off), image[off + 4..off + n]);
            && ParseFrom(image, size, off + n, Accept(image, s, e).state).status == Success
            && EntriesFrom(image, size, off) == [e] + EntriesFrom(image, size, off + n)
  {
    hide Accept;
  }

  lemma {:induction false} FirstEntry(image: seq<Byte>, off: nat, n: nat)
    requires 4 <= n && off + n <= |image|
    ensures Encode(Entry(U32At(image, off), image[off + 4..off + n])) == image[off..off + n]
  {
    BytesOfWord(image, off);
    assert image[off..off + n] == image[off..off + 4] + image[off + 4..off + n];
  }

  // ------------------------------------------------------------- the verdicts, in bytes

  lemma {:induction false} LowBits(b0: nat, rest: nat)
    requires b0 < 0x100
    ensures (b0 + 0x100 * rest) % 0x100 == b0 && (b0 + 0x100 * rest) / 0x100 == rest
    ensures (b0 + 0x100 * rest) / 0x20 % 2 == b0 / 0x20 % 2
  {
    LowByte(b0, rest);
    var q := b0 / 0x20;
    assert (b0 + 0x100 * rest) / 0x20 == q + 2 * (4 * rest);
    EvenAdded(q, 4 * rest);
  }

  lemma {:induction false} EvenAdded(q: nat, k: nat)
    ensures (q + 2 * k) % 2 == q % 2
  {
  }

  /** The fields of an entry word: type, size, and the optional bit. */
  lemma {:induction false} EntryBytes(b: seq<Byte>, off: nat)
    requires off + 4 <= |b|
    ensures EntryType(U32At(b, off)) == b[off] && EntrySize(U32At(b, off)) == b[off + 1]
    ensures Optional(U32At(b, off)) <==> b[off + 3] >= 0x80
    ensures IsIface(U32At(b, off)) <==> b[off] == 0
  {
    var b0: nat, b1: nat, b2: nat, b3: nat := b[off], b[off + 1], b[off + 2], b[off + 3];
    assert U32At(b, off) == b0 + 0x100 * (b1 + 0x100 * (b2 + 0x100 * b3));
    hide U32At;
    LowBits(b0, b1 + 0x100 * (b2 + 0x100 * b3));
    LowBits(b1, b2 + 0x100 * b3);
  }

  /** The flag bits of a section header: protected is bit 5, shared is bit 30, and no bit
      but 0 to 5, 30 and 31 is supported. */
  lemma {:induction false} FlagBytes(payload: seq<Byte>)
    requires |payload| >= SECTION_HDR_BYTES
    ensures var h := HdrOf(payload);
            && (h.Prot() <==> payload[0] / 0x20 % 2 == 1)
            && (h.Shared() <==> payload[3] / 0x40 % 2 == 1)
            && (h.Supported() <==> payload[0] < 0x40 && payload[1] == 0 && payload[2] == 0 && payload[3] % 0x40 == 0)
  {
    var b0: nat, b1: nat, b2: nat, b3: nat := payload[0], payload[1], payload[2], payload[3];
    var x := U32At(payload, 0);
    assert x == b0 + 0x100 * (b1 + 0x100 * (b2 + 0x100 * b3));
    LowBits(b0, b1 + 0x100 * (b2 + 0x100 * b3));
    TopBits(b0, b1, b2, b3);
    hide U32At;
  }

  lemma {:induction false} TopBits(b0: nat, b1: nat, b2: nat, b3: nat)
    requires b0 < 0x100 && b1 < 0x100 && b2 < 0x100 && b3 < 0x100
    ensures var x := b0 + 0x100 * (b1 + 0x100 * (b2 + 0x100 * b3));
            && x / 0x4000_0000 == b3 / 0x40
            && (x / 0x40 % 0x100_0000 == 0 <==> b0 < 0x40 && b1 == 0 && b2 == 0 && b3 % 0x40 == 0)
  {
    var x := b0 + 0x100 * (b1 + 0x100 * (b2 + 0x100 * b3));
    var low := b0 + 0x100 * b1 + 0x1_0000 * b2 + 0x100_0000 * (b3 % 0x40);
    assert x == 0x4000_0000 * (b3 / 0x40) + low && low < 0x4000_0000;
    assert x / 0x4000_0000 == b3 / 0x40;
    var y := b0 / 0x40 + 4 * b1 + 0x400 * b2 + 0x4_0000 * (b3 % 0x40);
    assert x / 0x40 == 0x100_0000 * (b3 / 0x40) + y && y < 0x100_0000;
    assert x / 0x40 % 0x100_0000 == y;
  }

  /** What an entry of a type other than 0 does: skipped when its optional bit is set, an
      error otherwise. */
  lemma {:induction false} OtherEntries(image: seq<Byte>, s: Loaded, off: nat, payload: seq<Byte>)
    requires off + 4 <= |image| && image[off] != 0
    ensures Accept(image, s, Entry(U32At(image, off), payload)) ==
            Outcome(if image[off + 3] >= 0x80 then Success else InvalidImageFormat, s)
  {
    EntryBytes(image, off);
    hide U32At, EntryType, Optional;
  }

  /** What a section entry does, with each limit spelled out. */
  lemma {:induction false} SectionVerdict(image: seq<Byte>, s: Loaded, payload: seq<Byte>)
    ensures |payload| < 20 ==> LoadSection(image, s, payload) == Outcome(InvalidParameter, s)
    ensures |payload| >= 20 ==>
              var h := SectionHdr(U32At(payload, 0), U32At(payload, 4), U32At(payload, 8),
                                  U32At(payload, 12), U32At(payload, 16));
              var r := LoadSection(image, s, payload);
              var prot := payload[0] / 0x20 % 2 == 1;
              var ok := && h.dataStart <= h.dataEnd <= |image| && h.vaStart <= h.vaEnd
                        && h.vaStart % 4096 == 0 && h.vaEnd % 4096 == 0
                        && payload[0] < 0x40 && payload[1] == 0 && payload[2] == 0 && payload[3] % 0x40 == 0
                        && (prot || h.vaStart != 0x0400_0000 || payload[3] / 0x40 % 2 == 1);
              && (!ok ==> r == Outcome(InvalidImageFormat, s))
              && (ok && prot ==> r == Outcome(Success, s))
              && (ok && !prot && |s.sections| >= 24 ==> r == Outcome(InsufficientResources, s))
              && (ok && !prot && |s.sections| < 24 && h.vaStart < h.vaEnd && s.grants == 0 ==>
                    r == Outcome(InsufficientResources, s))
              && (ok && !prot && |s.sections| < 24 && (h.vaStart == h.vaEnd || s.grants > 0) ==>
                    && r.status == Success && |r.state.sections| == |s.sections| + 1
                    && r.state.sections[..|s.sections|] == s.sections
                    && r.state.sections[|s.sections|].vaStart == h.vaStart
                    && r.state.sections[|s.sections|].vaEnd == h.vaEnd
                    && r.state.sections[|s.sections|].flags == h.flags
                    && r.state.shared == if h.vaStart == 0x0400_0000 then |s.sections| else s.shared)
  {
    if |payload| >= 20 { FlagBytes(payload); }
    hide U32At, SectionHdr.Prot, SectionHdr.Shared, SectionHdr.Supported, Contents;
  }

  /** What the loop does at an offset, from the bytes there. */
  lemma {:induction false} LoopVerdict(image: seq<Byte>, size: nat, off: nat, s: Loaded)
    requires size <= |image| && off <= size
    ensures off == size ==> ParseFrom(image, size, off, s) == Outcome(Success, s)
    ensures off < size < off + 4 ==> ParseFrom(image, size, off, s) == Outcome(InvalidParameter, s)
    ensures off + 4 <= size && (image[off + 1] < 4 || image[off + 1] % 4 != 0) ==>
              ParseFrom(image, size, off, s) == Outcome(InvalidImageFormat, s)
    ensures off + 4 <= size < off + image[off + 1] && image[off + 1] >= 4 && image[off + 1] % 4 == 0 ==>
              ParseFrom(image, size, off, s) == Outcome(if image[off] == 0 then InvalidParameter else InvalidImageFormat, s)
  {
    if off + 4 <= size { EntryBytes(image, off); }
    hide U32At, EntrySize, EntryType, Accept;
  }

  /** The image header: magic, major version 0, and a size between the header and the file. */
  lemma {:induction false} HeaderBytes(image: seq<Byte>)
    ensures HeaderOk(image) <==>
              && |image| >= 20 && image[0] == 0x6e && image[1] == 0x3a && image[2] == 0xf1 && image[3] == 0xc3
              && image[5] == 0 && 20 <= U32At(image, 16) <= |image|
  {
    if |image| >= 20 {
      BytesOfWord(image, 0);
      assert Bytes4(HEADER_MAGIC) == [0x6e, 0x3a, 0xf1, 0xc3];
      if image[..4] == [0x6e, 0x3a, 0xf1, 0xc3] { WordRoundTrip(HEADER_MAGIC, image, 0); }
      assert image[0..4] == image[..4];
      assert image[..4] == [image[0], image[1], image[2], image[3]];
      hide U32At;
    }
  }

  // ------------------------------------------------------------- what success means

  predicate AcceptOk(image: seq<Byte>, e: Entry) {
    if IsIface(e.word) then |e.payload| >= SECTION_HDR_BYTES && HdrOk(HdrOf(e.payload), |image|) else Optional(e.word)
  }

  ghost predicate AllOk(image: seq<Byte>, es: seq<Entry>) {
    forall i | 0 <= i < |es| :: AcceptOk(image, es[i])
  }

  predicate Records(image: seq<Byte>, e: Entry) {
    IsIface(e.word) && AcceptOk(image, e) && !HdrOf(e.payload).Prot()
  }

  /** The sections of the non-protected interface entries, in file order. */
  function Recorded(image: seq<Byte>, es: seq<Entry>): seq<Section>
    decreases |es|
  {
    if es == [] then []
    else (if Records(image, es[0]) then [SectionOf(image, HdrOf(es[0].payload))] else []) + Recorded(image, es[1..])
  }

  /** How many of them need backing pages. */
  function Backed(secs: seq<Section>): nat {
    if secs == [] then 0 else (if secs[0].vaStart < secs[0].vaEnd then 1 else 0) + Backed(secs[1..])
  }

  /** Position of the last section at the shared region, counting from base; prev if there is none. */
  function LastShared(secs: seq<Section>, base: nat, prev: int): int
    decreases |secs|
  {
    if secs == [] then prev
    else LastShared(secs[1..], base + 1, if secs[0].vaStart == SHARED_REGION_START then base else prev)
  }

  lemma {:induction false} OneAccept(image: seq<Byte>, s: Loaded, e: Entry)
    requires |s.sections| <= MAX_SECTIONS
    ensures var r, now := Accept(image, s, e), Recorded(image, [e]);
            && (r.status == Success <==>
                  AcceptOk(image, e) && |s.sections| + |now| <= MAX_SECTIONS && Backed(now) <= s.grants)
            && (r.status == Success ==>
                  && r.state.sections == s.sections + now
                  && r.state.grants == s.grants - Backed(now)
                  && r.state.shared == LastShared(now, |s.sections|, s.shared))
  {
    hide HdrOk;
    hide Contents;
    assert Recorded(image, []) == [];
    assert [e][1..] == [];
    if Records(image, e) {
      var one := SectionOf(image, HdrOf(e.payload));
      assert [one][1..] == [];
      assert Recorded(image, [e]) == [one];
    } else {
      assert Recorded(image, [e]) == [];
    }
  }

  lemma {:induction false} Concatenations(a: seq<Section>, b: seq<Section>, base: nat, prev: int)
    ensures Backed(a + b) == Backed(a) + Backed(b)
    ensures LastShared(a + b, base, prev) == LastShared(b, base + |a|, LastShared(a, base, prev))
    decreases |a|
  {
    if a == [] {
      assert a + b == b;
    } else {
      assert (a + b)[1..] == a[1..] + b;
      Concatenations(a[1..], b, base + 1, if a[0].vaStart == SHARED_REGION_START then base else prev);
    }
  }

  /** Entries are all accepted exactly when each passes its checks and there is room
      and memory for the sections they describe; what is recorded is those sections. */
  lemma {:induction false} AcceptAllIff(image: seq<Byte>, s: Loaded, es: seq<Entry>)
    requires |s.sections| <= MAX_SECTIONS
    ensures var r, now := AcceptAll(image, s, es), Recorded(image, es);
            && (r.status == Success <==>
                  AllOk(image, es) && |s.sections| + |now| <= MAX_SECTIONS && Backed(now) <= s.grants)
            && (r.status == Success ==>
                  r.state.sections == s.sections + now && r.state.shared == LastShared(now, |s.sections|, s.shared))
    decreases |es|
  {
    hide Accept;
    hide AllOk;
    hide AcceptOk;
    hide Recorded;
    hide Backed;
    hide LastShared;
    if es == [] {
      NothingRecorded(image, |s.sections|, s.shared);
      assert s.sections + [] == s.sections;
    } else {
      var one, rest := Recorded(image, [es[0]]), Recorded(image, es[1..]);
      var r := Accept(image, s, es[0]);
      OneAccept(image, s, es[0]);
      RecordedSplits(image, es);
      Concatenations(one, rest, |s.sections|, s.shared);
      AllOkSplits(image, es);
      if r.status == Success {
        AcceptAllIff(image, r.state, es[1..]);
        assert s.sections + one + rest == s.sections + (one + rest);
      }
    }
  }

  lemma {:induction false} NothingRecorded(image: seq<Byte>, base: nat, prev: int)
    ensures Recorded(image, []) == [] && AllOk(image, []) && Backed([]) == 0 && LastShared([], base, prev) == prev
  {
  }

  lemma {:induction false} RecordedSplits(image: seq<Byte>, es: seq<Entry>)
    requires es != []
    ensures Recorded(image, es) == Recorded(image, [es[0]]) + Recorded(image, es[1..])
  {
  }

  lemma {:induction false} AllOkSplits(image: seq<Byte>, es: seq<Entry>)
    requires es != []
    ensures AllOk(image, es) <==> AcceptOk(image, es[0]) && AllOk(image, es[1..])
  {
  }

  lemma {:induction false} LastSharedIs(secs: seq<Section>, base: nat, prev: int)
    ensures var r := LastShared(secs, base, prev);
            || (base <= r < base + |secs| && secs[r - base].vaStart == SHARED_REGION_START
                && forall k | r - base < k < |secs| :: secs[k].vaStart != SHARED_REGION_START)
            || (r == prev && forall k | 0 <= k < |secs| :: secs[k].vaStart != SHARED_REGION_START)
    decreases |secs|
  {
    if secs != [] {
      LastSharedIs(secs[1..], base + 1, if secs[0].vaStart == SHARED_REGION_START then base else prev);
    }
  }

  /** A well-formed image: a good header, then these entries and nothing else up to the
      size it gives, with room and memory for the sections, one of them the shared one. */
  ghost predicate Describes(image: seq<Byte>, grants: nat, es: seq<Entry>) {
    && HeaderOk(image)
    && AllSized(es) && image[HEADER_BYTES..U32At(image, 16)] == Flatten(es)
    && AllOk(image, es)
    && |Recorded(image, es)| <= MAX_SECTIONS && Backed(Recorded(image, es)) <= grants
    && exists k :: 0 <= k < |Recorded(image, es)| && Recorded(image, es)[k].vaStart == SHARED_REGION_START
  }

  /** SharedIndex names the last section at the shared region. */
  ghost predicate IsSharedIndex(secs: seq<Section>, r: int) {
    && 0 <= r < |secs| && secs[r].vaStart == SHARED_REGION_START
    && forall k | r < k < |secs| :: secs[k].vaStart != SHARED_REGION_START
  }

  lemma {:induction false} NamesSharedSection(secs: seq<Section>)
    requires |secs| <= MAX_SECTIONS
    ensures var r := LastShared(secs, 0, NO_SHARED);
            if exists k :: 0 <= k < |secs| && secs[k].vaStart == SHARED_REGION_START then IsSharedIndex(secs, r)
            else r == NO_SHARED
    ensures LastShared(secs, 0, NO_SHARED) != NO_SHARED ==> secs != []
  {
    LastSharedIs(secs, 0, NO_SHARED);
  }

  lemma {:induction false} SharedIsInRange(secs: seq<Section>)
    requires |secs| <= MAX_SECTIONS
    ensures forall r | IsSharedIndex(secs, r) :: r != NO_SHARED && secs != []
  {
  }

  /** A described image parses, to exactly the sections its entries describe. */
  lemma {:induction false} DescribedParses(image: seq<Byte>, grants: nat, es: seq<Entry>)
    requires Describes(image, grants, es)
    ensures var r := Parse(image, grants);
            && r.status == Success && r.state.sections == Recorded(image, es)
            && IsSharedIndex(r.state.sections, r.state.shared)
  {
    SharedIsInRange(Recorded(image, es));
    hide AcceptAll;
    hide ParseFrom;
    hide U32At;
    hide AllOk;
    hide AllSized;
    hide Flatten;
    hide Recorded;
    hide LastShared;
    var s, size, secs := Loaded([], NO_SHARED, grants), U32At(image, 16), Recorded(image, es);
    ParsesTiles(image, size, HEADER_BYTES, s, es);
    AcceptAllIff(image, s, es);
    NamesSharedSection(secs);
    hide IsSharedIndex;
    assert [] + secs == secs;
  }

  /** The parser accepts an image exactly when it is well formed, and then records
      exactly its non-protected interface entries in file order. */
  lemma {:induction false} ParseIff(image: seq<Byte>, grants: nat)
    ensures Parse(image, grants).status == Success <==> exists es :: Describes(image, grants, es)
  {
    hide Describes;
    if Parse(image, grants).status == Success {
      SuccessDescribes(image, grants);
    }
    if es :| Describes(image, grants, es) { DescribedParses(image, grants, es); }
  }

  lemma {:induction false} SuccessDescribes(image: seq<Byte>, grants: nat)
    requires Parse(image, grants).status == Success
    ensures HeaderOk(image) && Describes(image, grants, EntriesFrom(image, U32At(image, 16), HEADER_BYTES))
  {
    hide AcceptAll;
    hide ParseFrom;
    hide U32At;
    hide AllOk;
    hide Recorded;
    hide LastShared;
    hide EntriesFrom;
    hide AllSized;
    hide Flatten;
    var s, size := Loaded([], NO_SHARED, grants), U32At(image, 16);
    var es := EntriesFrom(image, size, HEADER_BYTES);
    SuccessTiles(image, size, HEADER_BYTES, s);
    ParsesTiles(image, size, HEADER_BYTES, s, es);
    AcceptAllIff(image, s, es);
    NamesSharedSection(Recorded(image, es));
    hide IsSharedIndex;
  }

  // ------------------------------------------------------------- a serializer

  datatype Spec = Spec(hdr: SectionHdr, name: seq<Byte>)

  function EncodeHdr(h: SectionHdr): (r: seq<Byte>)
    ensures |r| == SECTION_HDR_BYTES
  {
    Bytes4(h.flags) + Bytes4(h.vaStart) + Bytes4(h.vaEnd) + Bytes4(h.dataStart) + Bytes4(h.dataEnd)
  }

  /** Its size must fit the 8-bit field. */
  predicate SpecFits(p: Spec) {
    |p.name| % 4 == 0 && |p.name| <= 228
  }

  function EntryOf(p: Spec): (e: Entry)
    requires SpecFits(p)
    ensures WellSized(e) && IsIface(e.word)
  {
    Entry((24 + |p.name|) * 0x100, EncodeHdr(p.hdr) + p.name)
  }

  function EntriesOf(ps: seq<Spec>): (es: seq<Entry>)
    requires forall i | 0 <= i < |ps| :: SpecFits(ps[i])
    ensures |es| == |ps| && forall i | 0 <= i < |ps| :: es[i] == EntryOf(ps[i])
  {
    seq(|ps|, i requires 0 <= i < |ps| => EntryOf(ps[i]))
  }

  /** An image with these sections and the bytes they load from after them. */
  function Serialize(ps: seq<Spec>, tail: seq<Byte>): seq<Byte>
    requires forall i | 0 <= i < |ps| :: SpecFits(ps[i])
    requires HEADER_BYTES + |Flatten(EntriesOf(ps))| < 0x1_0000_0000
  {
    var body := Flatten(EntriesOf(ps));
    Bytes4(HEADER_MAGIC) + Bytes4(0) + Bytes4(0) + Bytes4(0) + Bytes4(HEADER_BYTES + |body|) + body + tail
  }

  lemma {:induction false} HdrRoundTrip(p: Spec)
    requires SpecFits(p)
    ensures |EntryOf(p).payload| >= SECTION_HDR_BYTES && HdrOf(EntryOf(p).payload) == p.hdr
  {
    var b, h := EntryOf(p).payload, p.hdr;
    assert b[0..4] == Bytes4(h.flags) && b[4..8] == Bytes4(h.vaStart) && b[8..12] == Bytes4(h.vaEnd);
    assert b[12..16] == Bytes4(h.dataStart) && b[16..20] == Bytes4(h.dataEnd);
    hide EntryOf;
    hide U32At;
    hide Bytes4;
    WordRoundTrip(h.flags, b, 0);
    WordRoundTrip(h.vaStart, b, 4);
    WordRoundTrip(h.vaEnd, b, 8);
    WordRoundTrip(h.dataStart, b, 12);
    WordRoundTrip(h.dataEnd, b, 16);
  }

  lemma {:induction false} SerializedHeader(ps: seq<Spec>, tail: seq<Byte>)
    requires forall i | 0 <= i < |ps| :: SpecFits(ps[i])
    requires HEADER_BYTES + |Flatten(EntriesOf(ps))| < 0x1_0000_0000
    ensures var image, body := Serialize(ps, tail), Flatten(EntriesOf(ps));
            && HeaderOk(image) && U32At(image, 16) == HEADER_BYTES + |body|
            && image[HEADER_BYTES..HEADER_BYTES + |body|] == body
  {
    var image, body := Serialize(ps, tail), Flatten(EntriesOf(ps));
    assert image[0..4] == Bytes4(HEADER_MAGIC) && image[4..8] == Bytes4(0);
    assert image[16..20] == Bytes4(HEADER_BYTES + |body|);
    assert image[4..8][1] == image[5];
    hide Serialize;
    WordRoundTrip(HEADER_MAGIC, image, 0);
    WordRoundTrip(HEADER_BYTES + |body|, image, 16);
    hide U32At;
    assert image[HEADER_BYTES..HEADER_BYTES + |body|] == body by { SerializedBody(ps, tail); }
  }

  lemma {:induction false} SerializedBody(ps: seq<Spec>, tail: seq<Byte>)
    requires forall i | 0 <= i < |ps| :: SpecFits(ps[i])
    requires HEADER_BYTES + |Flatten(EntriesOf(ps))| < 0x1_0000_0000
    ensures var body := Flatten(EntriesOf(ps));
            && |Serialize(ps, tail)| == HEADER_BYTES + |body| + |tail|
            && Serialize(ps, tail)[HEADER_BYTES..HEADER_BYTES + |body|] == body
  {
  }

  /** The sections the specifications ask for, protected ones left out. */
  function SectionsOf(image: seq<Byte>, ps: seq<Spec>): seq<Section>
    requires forall i | 0 <= i < |ps| :: HdrOk(ps[i].hdr, |image|)
  {
    if ps == [] then []
    else (if ps[0].hdr.Prot() then [] else [SectionOf(image, ps[0].hdr)]) + SectionsOf(image, ps[1..])
  }

  lemma {:induction false} RecordedIsSpecified(image: seq<Byte>, ps: seq<Spec>)
    requires forall i | 0 <= i < |ps| :: SpecFits(ps[i]) && HdrOk(ps[i].hdr, |image|)
    ensures Recorded(image, EntriesOf(ps)) == SectionsOf(image, ps) && AllOk(image, EntriesOf(ps))
    decreases |ps|
  {
    hide EntryOf;
    hide HdrOk;
    forall i | 0 <= i < |ps|
      ensures AcceptOk(image, EntriesOf(ps)[i])
    {
      HdrRoundTrip(ps[i]);
    }
    if ps != [] {
      HdrRoundTrip(ps[0]);
      assert EntriesOf(ps)[1..] == EntriesOf(ps[1..]);
      RecordedIsSpecified(image, ps[1..]);
    }
  }

  /** Parsing inverts serializing: every list of sections that passes the checks, fits the
      limits and names the shared region comes back as it was written. */
  lemma {:induction false} ParseInvertsSerialize(ps: seq<Spec>, tail: seq<Byte>, grants: nat)
    requires forall i | 0 <= i < |ps| :: SpecFits(ps[i])
    requires HEADER_BYTES + |Flatten(EntriesOf(ps))| < 0x1_0000_0000
    requires forall i | 0 <= i < |ps| :: HdrOk(ps[i].hdr, |Serialize(ps, tail)|)
    requires var secs := SectionsOf(Serialize(ps, tail), ps);
             && |secs| <= MAX_SECTIONS && Backed(secs) <= grants
             && exists k :: 0 <= k < |secs| && secs[k].vaStart == SHARED_REGION_START
    ensures var r := Parse(Serialize(ps, tail), grants);
            && r.status == Success && r.state.sections == SectionsOf(Serialize(ps, tail), ps)
            && IsSharedIndex(r.state.sections, r.state.shared)
  {
    hide Parse;
    hide HdrOk;
    hide SectionsOf;
    hide Serialize;
    hide Flatten;
    hide Recorded;
    hide AllOk;
    hide HeaderOk;
    hide U32At;
    var image := Serialize(ps, tail);
    SerializedHeader(ps, tail);
    RecordedIsSpecified(image, ps);
    DescribedParses(image, grants, EntriesOf(ps));
  }

  /** The copy of a section's initial data stays inside the backing exactly when the
      data fits, and then the backing holds the data followed by zeros. The loader
      does not check this. */
  lemma {:induction false} CopyStaysInside(image: seq<Byte>, h: SectionHdr)
    requires HdrOk(h, |image|)
    ensures !SectionOf(image, h).Overruns() <==> DataFits(h)
    ensures h.vaStart < h.vaEnd ==>
              (image[h.dataStart..h.dataEnd] <= SectionOf(image, h).contents <==> DataFits(h))
    ensures h.vaStart < h.vaEnd ==>
              forall k | h.dataEnd - h.dataStart <= k < h.vaEnd - h.vaStart :: SectionOf(image, h).contents[k] == 0
  {
    var data, c := image[h.dataStart..h.dataEnd], Contents(image, h);
    if DataFits(h) && h.vaStart < h.vaEnd { assert c[..|data|] == data; }
  }

  /** Entry i describes a section to record whose data is longer than the section. */
  predicate Oversized(image: seq<Byte>, e: Entry) {
    Records(image, e) && !DataFits(HdrOf(e.payload))
  }

  ghost predicate SomeOverrun(secs: seq<Section>) {
    exists i :: 0 <= i < |secs| && secs[i].Overruns()
  }

  ghost predicate SomeOversized(image: seq<Byte>, es: seq<Entry>) {
    exists i :: 0 <= i < |es| && Oversized(image, es[i])
  }

  lemma {:induction false} SomeOverrunSplits(a: seq<Section>, b: seq<Section>)
    ensures SomeOverrun(a + b) <==> SomeOverrun(a) || SomeOverrun(b)
  {
    if i :| 0 <= i < |a| && a[i].Overruns() { assert (a + b)[i].Overruns(); }
    if i :| 0 <= i < |b| && b[i].Overruns() { assert (a + b)[|a| + i].Overruns(); }
  }

  lemma {:induction false} SomeOversizedSplits(image: seq<Byte>, es: seq<Entry>)
    requires es != []
    ensures SomeOversized(image, es) <==> Oversized(image, es[0]) || SomeOversized(image, es[1..])
  {
    hide Oversized;
    if Oversized(image, es[0]) { assert SomeOversized(image, es); }
    if i :| 0 <= i < |es[1..]| && Oversized(image, es[1..][i]) { assert Oversized(image, es[i + 1]); }
    if i :| 0 < i < |es| && Oversized(image, es[i]) { assert Oversized(image, es[1..][i - 1]); }
  }

  /** Loading an image writes outside some section's backing exactly when one of the
      entries recorded has data longer than its section. */
  lemma {:induction false} LoadingOverrunsIff(image: seq<Byte>, es: seq<Entry>)
    ensures SomeOverrun(Recorded(image, es)) <==> SomeOversized(image, es)
    decreases |es|
  {
    hide HdrOk, Contents, SomeOverrun, SomeOversized;
    if es == [] {
      NoneOversized(image);
    } else {
      var one, rest := Recorded(image, [es[0]]), Recorded(image, es[1..]);
      RecordedSplits(image, es);
      SomeOverrunSplits(one, rest);
      SomeOversizedSplits(image, es);
      LoadingOverrunsIff(image, es[1..]);
      OneOverruns(image, es[0]);
    }
  }

  /** An image of one section, the shared one. */
  lemma {:induction false} OneSectionParses(p: Spec, tail: seq<Byte>)
    requires SpecFits(p) && p.name == [] && p.hdr.vaStart == SHARED_REGION_START && !p.hdr.Prot()
    requires HdrOk(p.hdr, 44 + |tail|)
    ensures HEADER_BYTES + |Flatten(EntriesOf([p]))| < 0x1_0000_0000 && |Serialize([p], tail)| == 44 + |tail|
    ensures var image := Serialize([p], tail);
            && Parse(image, 1).status == Success
            && Parse(image, 1).state.sections == [SectionOf(image, p.hdr)]
  {
    var es := EntriesOf([p]);
    assert es == [EntryOf(p)] && es[1..] == [] && |Encode(es[0])| == 24;
    assert |Flatten(es)| == 24;
    SerializedBody([p], tail);
    hide Serialize, Flatten, EntriesOf, Parse, HdrOk, SectionOf, EntryOf, SpecFits, SectionHdr.Prot;
    var image := Serialize([p], tail);
    OneSection(image, p);
    ParseInvertsSerialize([p], tail, 1);
  }

  lemma {:induction false} OneSection(image: seq<Byte>, p: Spec)
    requires HdrOk(p.hdr, |image|) && !p.hdr.Prot() && p.hdr.vaStart == SHARED_REGION_START
    ensures SectionsOf(image, [p]) == [SectionOf(image, p.hdr)] && Backed([SectionOf(image, p.hdr)]) <= 1
    ensures SectionsOf(image, [p])[0].vaStart == SHARED_REGION_START
  {
    hide HdrOk, Contents;
    assert [p][1..] == [] && SectionsOf(image, []) == [];
    var secs := [SectionOf(image, p.hdr)];
    assert secs[1..] == [];
  }

  lemma {:induction false} OversizedParses(p: Spec, tail: seq<Byte>) returns (image: seq<Byte>)
    requires SpecFits(p) && p.name == [] && p.hdr.vaStart == SHARED_REGION_START && !p.hdr.Prot()
    requires HdrOk(p.hdr, 44 + |tail|) && !DataFits(p.hdr)
    ensures Parse(image, 1).status == Success && SomeOverrun(Parse(image, 1).state.sections)
  {
    hide HdrOk, SpecFits, DataFits, Parse, Serialize, Contents, SectionHdr.Prot;
    OneSectionParses(p, tail);
    image := Serialize([p], tail);
    CopyStaysInside(image, p.hdr);
    assert Parse(image, 1).state.sections[0].Overruns();
  }

  /** Such an image is accepted: one page of section, two pages of data. */
  lemma {:induction false} OversizedIsAccepted() returns (image: seq<Byte>)
    ensures Parse(image, 1).status == Success && SomeOverrun(Parse(image, 1).state.sections)
  {
    hide Parse, SomeOverrun;
    var h := SectionHdr(0x4000_0000, SHARED_REGION_START, SHARED_REGION_START + 0x1000, 44, 44 + 0x2000);
    var tail: seq<Byte> := seq(0x2000, _ => 7);
    image := OversizedParses(Spec(h, []), tail);
  }

  lemma {:induction false} NoneOversized(image: seq<Byte>)
    ensures !SomeOverrun([]) && !SomeOversized(image, [])
  {
  }

  lemma {:induction false} OneOverruns(image: seq<Byte>, e: Entry)
    ensures SomeOverrun(Recorded(image, [e])) <==> Oversized(image, e)
  {
    hide HdrOk, Contents;
    assert [e][1..] == [] && Recorded(image, []) == [];
    if Records(image, e) {
      CopyStaysInside(image, HdrOf(e.payload));
      assert Recorded(image, [e]) == [SectionOf(image, HdrOf(e.payload))];
      assert Recorded(image, [e])[0].Overruns() <==> Oversized(image, e);
    }
  }

  // ------------------------------------------------------------- in place

  class FwCtx {
    const image: seq<Byte>
    var sections: seq<Section>
    var sharedIndex: int
    var grants: nat

    constructor (image: seq<Byte>, grants: nat)
      ensures this.image == image && sections == [] && sharedIndex == 0 && this.grants == grants
    {
      this.image, this.grants := image, grants;
      sections, sharedIndex := [], 0;
    }

    function State(): Loaded
      reads this
    {
      Loaded(sections, sharedIndex, grants)
    }

    method LoadSectionEntry(payload: seq<Byte>) returns (status: Status)
      modifies this
      ensures Outcome(status, State()) == LoadSection(image, old(State()), payload)
    {
      hide Contents;
      if |payload| < SECTION_HDR_BYTES { return InvalidParameter; }
      var h := HdrOf(payload);
      if h.dataEnd < h.dataStart || h.vaEnd < h.vaStart { return InvalidImageFormat; }
      if h.dataEnd > |image| { return InvalidImageFormat; }
      if h.vaStart % 0x1000 != 0 || h.vaEnd % 0x1000 != 0 { return InvalidImageFormat; }
      if !h.Supported() { return InvalidImageFormat; }
      if h.Prot() { return Success; }
      if h.vaStart == SHARED_REGION_START && !h.Shared() { return InvalidImageFormat; }
      if |sections| >= MAX_SECTIONS { return InsufficientResources; }
      if h.vaStart < h.vaEnd {
        if grants == 0 { return InsufficientResources; }
        grants := grants - 1;
      }
      if h.vaStart == SHARED_REGION_START { sharedIndex := |sections|; }
      sections := sections + [SectionOf(image, h)];
      return Success;
    }

    method ParseImage() returns (status: Status)
      requires sections == [] && sharedIndex == 0
      modifies this
      ensures Outcome(status, State()) == Parse(image, old(grants))
    {
      hide LoadSection;
      hide U32At;
      if |image| < HEADER_BYTES { return InvalidParameter; }
      if U32At(image, 0) != HEADER_MAGIC { return InvalidImageFormat; }
      if image[5] != 0 { return InvalidImageFormat; }
      var size := U32At(image, 16);
      if size > |image| || size < HEADER_BYTES { return InvalidImageFormat; }
      sharedIndex := NO_SHARED;
      ghost var whole := ParseFrom(image, size, HEADER_BYTES, State());
      var offset := HEADER_BYTES;
      while offset < size
        invariant HEADER_BYTES <= offset <= size
        invariant ParseFrom(image, size, offset, State()) == whole
      {
        if offset + 4 > size { return InvalidParameter; }
        var word := U32At(image, offset);
        var n := EntrySize(word);
        if n < 4 || n % 4 != 0 { return InvalidImageFormat; }
        if IsIface(word) {
          if offset + n > size { return InvalidParameter; }
          var st := LoadSectionEntry(image[offset + 4..offset + n]);
          if st != Success { return st; }
        } else {
          if offset + n > size { return InvalidImageFormat; }
          if !Optional(word) { return InvalidImageFormat; }
        }
        offset := offset + n;
      }
      if sharedIndex == NO_SHARED || sections == [] { return InvalidImageFormat; }
      return Success;
    }
  }
}
