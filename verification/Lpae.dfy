/** Vocabulary of the Arm VMSAv8-64 stage 1 translation with a 4 KiB granule
    (section D5.3 of the Arm Architecture Reference Manual, DDI 0487), as the
    driver uses it: 48-bit input addresses, four levels of 512 descriptors.

    A 64-bit descriptor is kept as its three bit fields. That is exact: every
    UINT64 is one Word (see WordOf), and masking with WINMALI_LPAE_PA_MASK,
    testing bits [1:0] and or-ing disjoint fields become selections. */
module Lpae {
  const TWO_36: int := 0x10_0000_0000
  const TWO_48: int := 0x1_0000_0000_0000
  const TWO_64: int := 0x1_0000_0000_0000_0000

  type Index = i: int | 0 <= i < 512
  type Low = i: int | 0 <= i < 4096
  type High = i: int | 0 <= i < 65536
  /** A 4 KiB frame below 2^48: what bits [47:12] of a descriptor can name. */
  type Frame = f: int | 0 <= f < 0x10_0000_0000
  type U64 = x: int | 0 <= x < 0x1_0000_0000_0000_0000

  datatype Word = Word(high: High, frame: Frame, low: Low)

  const ZERO: Word := Word(0, 0, 0)

  function Value(w: Word): U64 {
    w.high * 0x1_0000_0000_0000 + w.frame * 4096 + w.low
  }

  function WordOf(x: U64): Word {
    Word(x / 0x1_0000_0000_0000, x / 4096 % 0x10_0000_0000, x % 4096)
  }

  /** The field view loses nothing: words and 64-bit numbers correspond one to one. */
  lemma {:induction false} WordsAreNumbers(x: U64, w: Word)
    ensures Value(WordOf(x)) == x
    ensures WordOf(Value(w)) == w
  {
    assert x / 4096 / 0x10_0000_0000 == x / 0x1_0000_0000_0000;
    var v := Value(w);
    assert v % 4096 == w.low && v / 4096 == w.high * 0x10_0000_0000 + w.frame;
  }

  /** Leaf permissions: the four WINMALI_LPAE_L3_PAGE_ATTR_* variants, the only
      attribute masks any caller passes. */
  datatype Attrs = Attrs(readOnly: bool, noExecute: bool)

  /** bits [1:0] == 0b11 */
  predicate IsValid(e: Word) { e.low % 4 == 3 }

  function TableDesc(f: Frame): Word { Word(0, f, 3) }

  function PageDesc(f: Frame, a: Attrs): Word {
    Word(if a.noExecute then 0x60 else 0, f, if a.readOnly then 0x7c3 else 0x743)
  }

  /** Decoding a leaf: AP[2] is bit 7, PXN and UXN are bits 53 and 54. */
  function AttrsOf(e: Word): Attrs {
    Attrs(e.low / 128 % 2 == 1, e.high / 32 % 4 == 3)
  }

  /** Descriptors as the numbers the driver stores. */
  lemma {:induction false} DescriptorValues(f: Frame, a: Attrs)
    ensures Value(TableDesc(f)) == f * 4096 + 3
    ensures Value(PageDesc(f, a)) ==
            f * 4096 + 0x743 + (if a.readOnly then 0x80 else 0)
            + (if a.noExecute then 0x20_0000_0000_0000 + 0x40_0000_0000_0000 else 0)
    ensures IsValid(PageDesc(f, a)) && PageDesc(f, a).frame == f && AttrsOf(PageDesc(f, a)) == a
  {
  }

  /** A page of the 48-bit input space, as its four table indices. */
  datatype VPage = VPage(i0: Index, i1: Index, i2: Index, i3: Index)

  function PageOf(va: U64): VPage {
    VPage(va / 0x80_0000_0000 % 512, va / 0x4000_0000 % 512, va / 0x20_0000 % 512, va / 4096 % 512)
  }

  function Vpn(p: VPage): int {
    ((p.i0 * 512 + p.i1) * 512 + p.i2) * 512 + p.i3
  }

  /** Only bits [47:12] of an address choose the page. */
  lemma {:induction false} VpnOfPage(va: U64)
    ensures Vpn(PageOf(va)) == va / 4096 % 0x10_0000_0000
  {
    var n := va / 4096;
    assert va / 0x20_0000 == n / 512;
    assert va / 0x4000_0000 == n / 512 / 512;
    assert va / 0x80_0000_0000 == n / 512 / 512 / 512;
    var a, b, c := n / 512, n / 512 / 512, n / 512 / 512 / 512;
    assert n == 512 * a + n % 512 && a == 512 * b + a % 512 && b == 512 * c + b % 512;
    assert c == 512 * (c / 512) + c % 512;
    assert n == 0x10_0000_0000 * (c / 512) + Vpn(PageOf(va));
  }

  lemma {:induction false} VpnInjective(p: VPage, q: VPage)
    requires Vpn(p) == Vpn(q)
    ensures p == q
  {
  }

  /** Two addresses pick the same page exactly when they agree modulo 2^48, page offset aside. */
  lemma {:induction false} SamePage(x: U64, y: U64)
    ensures PageOf(x) == PageOf(y) <==> x / 4096 % 0x10_0000_0000 == y / 4096 % 0x10_0000_0000
  {
    VpnOfPage(x);
    VpnOfPage(y);
    if x / 4096 % 0x10_0000_0000 == y / 4096 % 0x10_0000_0000 {
      VpnInjective(PageOf(x), PageOf(y));
    }
  }
}
