/** The present blit: a rectangle of 32-bit pixels copied row by row from one linear
    surface to another, each row checked against both surfaces. LONG arithmetic wraps. */
module PresentBlt {
  type Byte = x: int | 0 <= x < 256
  type Long = x: int | -0x8000_0000 <= x < 0x8000_0000
  type Ulong = x: int | 0 <= x < 0x1_0000_0000

  const BPP: nat := 4

  /** WINMALI_BLT_DESC with the pitches of its two allocations. */
  datatype Desc = Desc(srcLeft: Long, srcTop: Long, dstLeft: Long, dstTop: Long, dstRight: Long, dstBottom: Long,
                       srcPitch: Ulong, dstPitch: Ulong)

  function Wrap(x: int): Long {
    (x + 0x8000_0000) % 0x1_0000_0000 - 0x8000_0000
  }

  /** An extent cut back to what the source holds from an origin on. */
  function Clamp(extent: Long, origin: Long, limit: Long): Long {
    if Wrap(origin + extent) > limit then Wrap(limit - origin) else extent
  }

  function Width(d: Desc): Long {
    Clamp(Wrap(d.dstRight - d.dstLeft), d.srcLeft, Wrap(d.srcPitch / BPP))
  }

  function Height(d: Desc, srcBytes: nat): Long
    requires d.srcPitch > 0
  {
    Clamp(Wrap(d.dstBottom - d.dstTop), d.srcTop, Wrap(srcBytes / d.srcPitch))
  }

  /** The blit is not dropped as a whole. */
  predicate Runs(d: Desc, srcBytes: nat) {
    && d.srcPitch > 0 && d.dstPitch > 0
    && Wrap(d.dstRight - d.dstLeft) > 0 && Wrap(d.dstBottom - d.dstTop) > 0
    && d.srcLeft >= 0 && d.srcTop >= 0 && d.dstLeft >= 0 && d.dstTop >= 0
    && Width(d) > 0 && Height(d, srcBytes) > 0
  }

  /** As long as nothing wraps, the clamp is an intersection with the source. */
  lemma {:induction false} ClampIsIntersection(extent: Long, origin: Long, limit: Long)
    requires extent > 0 && origin >= 0 && limit >= 0 && origin + extent < 0x8000_0000
    ensures Clamp(extent, origin, limit) == if extent <= limit - origin then extent else limit - origin
  {
  }

  // ------------------------------------------------------------- rows

  function Offset(top: nat, left: nat, pitch: nat, r: nat): nat {
    (top + r) * pitch + left * BPP
  }

  function SrcOff(d: Desc, r: nat): nat
    requires d.srcTop >= 0 && d.srcLeft >= 0
  {
    Offset(d.srcTop, d.srcLeft, d.srcPitch, r)
  }

  function DstOff(d: Desc, r: nat): nat
    requires d.dstTop >= 0 && d.dstLeft >= 0
  {
    Offset(d.dstTop, d.dstLeft, d.dstPitch, r)
  }

  /** Row r of the rectangle lies inside both surfaces. */
  predicate Fits(d: Desc, rowBytes: nat, srcBytes: nat, dstBytes: nat, r: nat)
    requires d.srcTop >= 0 && d.srcLeft >= 0 && d.dstTop >= 0 && d.dstLeft >= 0
  {
    SrcOff(d, r) + rowBytes <= srcBytes && DstOff(d, r) + rowBytes <= dstBytes
  }

  lemma {:induction false} NextRow(top: nat, left: nat, pitch: nat, r: nat)
    ensures Offset(top, left, pitch, r + 1) == Offset(top, left, pitch, r) + pitch
  {
  }

  /** The rows that fit form a prefix, so stopping at the first that does not loses none. */
  lemma {:induction false} FittingRowsAreAPrefix(d: Desc, rowBytes: nat, srcBytes: nat, dstBytes: nat, q: nat, r: nat)
    requires d.srcTop >= 0 && d.srcLeft >= 0 && d.dstTop >= 0 && d.dstLeft >= 0
    requires q <= r && Fits(d, rowBytes, srcBytes, dstBytes, r)
    ensures Fits(d, rowBytes, srcBytes, dstBytes, q)
    decreases r - q
  {
    if q < r {
      FittingRowsAreAPrefix(d, rowBytes, srcBytes, dstBytes, q + 1, r);
      NextRow(d.srcTop, d.srcLeft, d.srcPitch, q);
      NextRow(d.dstTop, d.dstLeft, d.dstPitch, q);
    }
  }

  function WriteAt(b: seq<Byte>, off: nat, row: seq<Byte>): (r: seq<Byte>)
    requires off + |row| <= |b|
    ensures |r| == |b|
  {
    b[..off] + row + b[off + |row|..]
  }

  /** The destination after the first n rows. */
  function Copied(dst: seq<Byte>, src: seq<Byte>, d: Desc, rowBytes: nat, n: nat): (r: seq<Byte>)
    requires d.srcTop >= 0 && d.srcLeft >= 0 && d.dstTop >= 0 && d.dstLeft >= 0
    requires forall r | 0 <= r < n :: Fits(d, rowBytes, |src|, |dst|, r)
    ensures |r| == |dst|
  {
    if n == 0 then dst
    else
      assert Fits(d, rowBytes, |src|, |dst|, n - 1);
      WriteAt(Copied(dst, src, d, rowBytes, n - 1), DstOff(d, n - 1), src[SrcOff(d, n - 1)..SrcOff(d, n - 1) + rowBytes])
  }

  predicate InRow(d: Desc, rowBytes: nat, r: nat, k: nat)
    requires d.dstTop >= 0 && d.dstLeft >= 0
  {
    DstOff(d, r) <= k < DstOff(d, r) + rowBytes
  }

  /** The last copied row that covers a byte decides it; a byte no row covers is as before. */
  lemma {:induction false} LastRowWins(dst: seq<Byte>, src: seq<Byte>, d: Desc, rowBytes: nat, n: nat, r: nat, k: nat)
    requires d.srcTop >= 0 && d.srcLeft >= 0 && d.dstTop >= 0 && d.dstLeft >= 0
    requires forall q | 0 <= q < n :: Fits(d, rowBytes, |src|, |dst|, q)
    requires k < |dst|
    ensures r < n && InRow(d, rowBytes, r, k) && (forall q | r < q < n :: !InRow(d, rowBytes, q, k)) ==>
              SrcOff(d, r) + (k - DstOff(d, r)) < |src| &&
              Copied(dst, src, d, rowBytes, n)[k] == src[SrcOff(d, r) + (k - DstOff(d, r))]
    ensures (forall q | 0 <= q < n :: !InRow(d, rowBytes, q, k)) ==> Copied(dst, src, d, rowBytes, n)[k] == dst[k]
  {
    hide SrcOff;
    hide DstOff;
    if n > 0 {
      var last := n - 1;
      assert Fits(d, rowBytes, |src|, |dst|, last);
      LastRowWins(dst, src, d, rowBytes, last, r, k);
      if r < n { assert Fits(d, rowBytes, |src|, |dst|, r); }
      assert Copied(dst, src, d, rowBytes, n)[k] ==
             if InRow(d, rowBytes, last, k) then src[SrcOff(d, last) + (k - DstOff(d, last))]
             else Copied(dst, src, d, rowBytes, last)[k];
    }
  }

  /** Where source and destination rows are in step, a byte comes from the same place
      whichever row brings it. */
  lemma {:induction false} SameStep(d: Desc, q: nat, r: nat)
    requires d.srcTop >= 0 && d.srcLeft >= 0 && d.dstTop >= 0 && d.dstLeft >= 0
    requires q <= r
    ensures SrcOff(d, r) - SrcOff(d, q) == (r - q) * d.srcPitch
    ensures DstOff(d, r) - DstOff(d, q) == (r - q) * d.dstPitch
    decreases r - q
  {
    if q < r {
      SameStep(d, q, r - 1);
      NextRow(d.srcTop, d.srcLeft, d.srcPitch, r - 1);
      NextRow(d.dstTop, d.dstLeft, d.dstPitch, r - 1);
      assert (r - q) * d.srcPitch == (r - 1 - q) * d.srcPitch + d.srcPitch;
      assert (r - q) * d.dstPitch == (r - 1 - q) * d.dstPitch + d.dstPitch;
    }
  }

  /** Each of the first n rows in the destination is its source row. */
  ghost predicate ExactRows(dst: seq<Byte>, src: seq<Byte>, d: Desc, rowBytes: nat, n: nat)
    requires d.srcTop >= 0 && d.srcLeft >= 0 && d.dstTop >= 0 && d.dstLeft >= 0
    requires forall q | 0 <= q < n :: Fits(d, rowBytes, |src|, |dst|, q)
  {
    forall r: nat, k: nat | r < n && k < |dst| && InRow(d, rowBytes, r, k) :: ExactByte(dst, src, d, rowBytes, n, r, k)
  }

  ghost predicate ExactByte(dst: seq<Byte>, src: seq<Byte>, d: Desc, rowBytes: nat, n: nat, r: nat, k: nat)
    requires d.srcTop >= 0 && d.srcLeft >= 0 && d.dstTop >= 0 && d.dstLeft >= 0
    requires forall q | 0 <= q < n :: Fits(d, rowBytes, |src|, |dst|, q)
    requires k < |dst| && InRow(d, rowBytes, r, k)
  {
    var at := SrcOff(d, r) + (k - DstOff(d, r));
    at < |src| && Copied(dst, src, d, rowBytes, n)[k] == src[at]
  }

  lemma {:induction false} LastCover(d: Desc, rowBytes: nat, n: nat, r: nat, k: nat) returns (q: nat)
    requires d.dstTop >= 0 && d.dstLeft >= 0 && r < n && InRow(d, rowBytes, r, k)
    ensures r <= q < n && InRow(d, rowBytes, q, k) && forall i | q < i < n :: !InRow(d, rowBytes, i, k)
    decreases n
  {
    if InRow(d, rowBytes, n - 1, k) { q := n - 1; } else { q := LastCover(d, rowBytes, n - 1, r, k); }
  }

  lemma {:induction false} CoveredIsExact(dst: seq<Byte>, src: seq<Byte>, d: Desc, rowBytes: nat, n: nat, r: nat, k: nat)
    requires d.srcTop >= 0 && d.srcLeft >= 0 && d.dstTop >= 0 && d.dstLeft >= 0
    requires forall q | 0 <= q < n :: Fits(d, rowBytes, |src|, |dst|, q)
    requires n <= 1 || rowBytes <= d.dstPitch || d.srcPitch == d.dstPitch
    requires r < n && k < |dst| && InRow(d, rowBytes, r, k)
    ensures ExactByte(dst, src, d, rowBytes, n, r, k)
  {
    hide SrcOff;
    hide DstOff;
    hide Copied;
    var q := LastCover(d, rowBytes, n, r, k);
    LastRowWins(dst, src, d, rowBytes, n, q, k);
    SameStep(d, r, q);
    if q > r && rowBytes <= d.dstPitch {
      StepBack(q - r, d.dstPitch);
    }
  }

  lemma {:induction false} StepBack(i: nat, pitch: nat)
    requires i > 0
    ensures i * pitch >= pitch
  {
  }

  /** One byte of 1 at a position of the source, nothing else. */
  function OneHot(size: nat, at: nat): (r: seq<Byte>)
    ensures |r| == size && forall i | 0 <= i < size :: r[i] == if i == at then 1 else 0
  {
    seq(size, i => if i == at then 1 else 0)
  }

  /** Two or more rows wider than the destination pitch, out of step with the source:
      some picture is not copied exactly. */
  lemma {:induction false} OverlapLosesData(d: Desc, srcBytes: nat, dstBytes: nat, rowBytes: nat, n: nat)
    returns (dst: seq<Byte>, src: seq<Byte>)
    requires d.srcTop >= 0 && d.srcLeft >= 0 && d.dstTop >= 0 && d.dstLeft >= 0
    requires forall q | 0 <= q < n :: Fits(d, rowBytes, srcBytes, dstBytes, q)
    requires n > 1 && rowBytes > d.dstPitch && d.srcPitch != d.dstPitch
    ensures |src| == srcBytes && |dst| == dstBytes && !ExactRows(dst, src, d, rowBytes, n)
  {
    hide SrcOff;
    hide DstOff;
    hide Copied;
    var r, k := n - 2, DstOff(d, n - 1);
    assert Fits(d, rowBytes, srcBytes, dstBytes, n - 1) && Fits(d, rowBytes, srcBytes, dstBytes, r);
    src, dst := OneHot(srcBytes, SrcOff(d, n - 1)), OneHot(dstBytes, dstBytes);
    SameStep(d, r, n - 1);
    LastRowWins(dst, src, d, rowBytes, n, n - 1, k);
    assert InRow(d, rowBytes, r, k);
    assert !ExactByte(dst, src, d, rowBytes, n, r, k);
  }

  /** Rows arrive exactly, for every content of surfaces of these sizes, exactly when
      there is at most one, or they are no wider than the destination pitch, or the two
      pitches agree. */
  lemma {:induction false} ExactIffRowsApart(d: Desc, srcBytes: nat, dstBytes: nat, rowBytes: nat, n: nat)
    requires d.srcTop >= 0 && d.srcLeft >= 0 && d.dstTop >= 0 && d.dstLeft >= 0
    requires forall q | 0 <= q < n :: Fits(d, rowBytes, srcBytes, dstBytes, q)
    ensures (forall dst: seq<Byte>, src: seq<Byte> | |dst| == dstBytes && |src| == srcBytes ::
               ExactRows(dst, src, d, rowBytes, n))
            <==> n <= 1 || rowBytes <= d.dstPitch || d.srcPitch == d.dstPitch
  {
    hide Fits;
    if n <= 1 || rowBytes <= d.dstPitch || d.srcPitch == d.dstPitch {
      forall dst: seq<Byte>, src: seq<Byte> | |dst| == dstBytes && |src| == srcBytes
        ensures ExactRows(dst, src, d, rowBytes, n)
      {
        forall r: nat, k: nat | r < n && k < |dst| && InRow(d, rowBytes, r, k)
          ensures ExactByte(dst, src, d, rowBytes, n, r, k)
        {
          CoveredIsExact(dst, src, d, rowBytes, n, r, k);
        }
      }
    } else {
      var dst, src := OverlapLosesData(d, srcBytes, dstBytes, rowBytes, n);
    }
  }

  // ------------------------------------------------------------- pixel by pixel

  /** Byte b of pixel c of row r of the rectangle, in the source and in the destination. */
  function SrcByte(d: Desc, r: nat, c: nat, b: nat): int {
    (d.srcTop + r) * d.srcPitch + (d.srcLeft + c) * 4 + b
  }

  function DstByte(d: Desc, r: nat, c: nat, b: nat): int {
    (d.dstTop + r) * d.dstPitch + (d.dstLeft + c) * 4 + b
  }

  ghost predicate ByteMoved(after: seq<Byte>, src: seq<Byte>, d: Desc, r: nat, c: nat, b: nat) {
    && 0 <= DstByte(d, r, c, b) < |after| && 0 <= SrcByte(d, r, c, b) < |src|
    && after[DstByte(d, r, c, b)] == src[SrcByte(d, r, c, b)]
  }

  /** k is a byte of a pixel of the first n rows, of width pixels each. */
  ghost predicate InRectangle(d: Desc, width: nat, n: nat, k: nat) {
    exists r: nat, c: nat, b: nat :: r < n && c < width && b < 4 && k == DstByte(d, r, c, b)
  }

  /** Every pixel of the rectangle has been brought over and nothing else has changed. */
  ghost predicate RectangleMoved(before: seq<Byte>, after: seq<Byte>, src: seq<Byte>, d: Desc, width: nat, n: nat) {
    && |after| == |before|
    && (forall r: nat, c: nat, b: nat | r < n && c < width && b < 4 :: ByteMoved(after, src, d, r, c, b))
    && (forall k: nat | k < |after| && !InRectangle(d, width, n, k) :: after[k] == before[k])
  }

  /** How the row offsets name bytes of pixels. */
  lemma {:induction false} PixelOfRow(d: Desc, width: nat, r: nat, c: nat, b: nat)
    requires d.srcTop >= 0 && d.srcLeft >= 0 && d.dstTop >= 0 && d.dstLeft >= 0
    requires c < width && b < 4
    ensures DstByte(d, r, c, b) == DstOff(d, r) + c * 4 + b && SrcByte(d, r, c, b) == SrcOff(d, r) + c * 4 + b
    ensures c * 4 + b < width * 4
  {
  }

  lemma {:induction false} RowOfByte(d: Desc, width: nat, n: nat, r: nat, k: nat)
    requires d.srcTop >= 0 && d.srcLeft >= 0 && d.dstTop >= 0 && d.dstLeft >= 0
    requires r < n && InRow(d, width * 4, r, k)
    ensures InRectangle(d, width, n, k)
  {
    hide DstOff, SrcOff;
    var i := k - DstOff(d, r);
    PixelOfRow(d, width, r, i / 4, i % 4);
    hide DstByte;
    assert k == DstByte(d, r, i / 4, i % 4);
  }

  /** With rows apart or in step, copying the first n rows moves exactly the rectangle. */
  lemma {:induction false} CopyMovesRectangle(dst: seq<Byte>, src: seq<Byte>, d: Desc, width: nat, n: nat)
    requires d.srcTop >= 0 && d.srcLeft >= 0 && d.dstTop >= 0 && d.dstLeft >= 0
    requires forall q | 0 <= q < n :: Fits(d, width * 4, |src|, |dst|, q)
    requires n <= 1 || width * 4 <= d.dstPitch || d.srcPitch == d.dstPitch
    ensures RectangleMoved(dst, Copied(dst, src, d, width * 4, n), src, d, width, n)
  {
    hide DstOff, SrcOff, Copied, DstByte, SrcByte, InRectangle;
    var after := Copied(dst, src, d, width * 4, n);
    forall r: nat, c: nat, b: nat | r < n && c < width && b < 4
      ensures ByteMoved(after, src, d, r, c, b)
    {
      PixelOfRow(d, width, r, c, b);
      assert Fits(d, width * 4, |src|, |dst|, r);
      CoveredIsExact(dst, src, d, width * 4, n, r, DstByte(d, r, c, b));
      assert ExactByte(dst, src, d, width * 4, n, r, DstByte(d, r, c, b));
    }
    forall k: nat | k < |after| && !InRectangle(d, width, n, k)
      ensures after[k] == dst[k]
    {
      forall q: nat | q < n ensures !InRow(d, width * 4, q, k) {
        if InRow(d, width * 4, q, k) { RowOfByte(d, width, n, q, k); }
      }
      LastRowWins(dst, src, d, width * 4, n, 0, k);
    }
  }

  /** The rectangle itself, as long as no LONG wraps: what was asked for, cut back to what
      the source holds from its origin on. */
  lemma {:induction false} Extent(d: Desc, srcBytes: nat)
    requires d.srcPitch > 0 && d.srcLeft >= 0 && d.srcTop >= 0
    requires 0 < d.dstRight - d.dstLeft && d.srcLeft + (d.dstRight - d.dstLeft) < 0x8000_0000
    requires 0 < d.dstBottom - d.dstTop && d.srcTop + (d.dstBottom - d.dstTop) < 0x8000_0000
    requires d.srcPitch / 4 < 0x8000_0000 && srcBytes / d.srcPitch < 0x8000_0000
    ensures Width(d) == (if d.srcLeft + (d.dstRight - d.dstLeft) <= d.srcPitch / 4 then d.dstRight - d.dstLeft
                         else d.srcPitch / 4 - d.srcLeft)
    ensures Height(d, srcBytes) == (if d.srcTop + (d.dstBottom - d.dstTop) <= srcBytes / d.srcPitch
                                    then d.dstBottom - d.dstTop else srcBytes / d.srcPitch - d.srcTop)
  {
    ClampedTo(d.dstRight - d.dstLeft, d.srcLeft, d.srcPitch / BPP);
    ClampedTo(d.dstBottom - d.dstTop, d.srcTop, srcBytes / d.srcPitch);
    hide Wrap, Clamp;
  }

  lemma {:induction false} ClampedTo(extent: int, origin: Long, limit: nat)
    requires 0 < extent < 0x8000_0000 && origin >= 0 && origin + extent < 0x8000_0000 && limit < 0x8000_0000
    ensures Clamp(Wrap(extent), origin, Wrap(limit)) == if origin + extent <= limit then extent else limit - origin
  {
    NoWrap(extent);
    NoWrap(limit);
    hide Wrap, Clamp;
    ClampIsIntersection(extent, origin, limit);
  }

  /** LONG arithmetic: the value modulo 2^32 in the signed range. */
  lemma {:induction false} WrapIs(x: int, q: int)
    requires -0x8000_0000 <= x + q * 0x1_0000_0000 < 0x8000_0000
    ensures Wrap(x) == x + q * 0x1_0000_0000
  {
  }

  lemma {:induction false} NoWrap(x: int)
    requires -0x8000_0000 <= x < 0x8000_0000
    ensures Wrap(x) == x
  {
    WrapIs(x, 0);
  }

  // ------------------------------------------------------------- in place

  /** How many of height rows fit. */
  ghost predicate IsRowCount(d: Desc, rowBytes: nat, srcBytes: nat, dstBytes: nat, height: nat, n: nat)
    requires d.srcTop >= 0 && d.srcLeft >= 0 && d.dstTop >= 0 && d.dstLeft >= 0
  {
    && n <= height
    && forall r: nat | r < height :: Fits(d, rowBytes, srcBytes, dstBytes, r) <==> r < n
  }

  lemma {:induction false} RowsCounted(d: Desc, rowBytes: nat, srcBytes: nat, dstBytes: nat, height: nat, n: nat)
    requires d.srcTop >= 0 && d.srcLeft >= 0 && d.dstTop >= 0 && d.dstLeft >= 0
    requires IsRowCount(d, rowBytes, srcBytes, dstBytes, height, n)
    ensures forall q | 0 <= q < n :: Fits(d, rowBytes, srcBytes, dstBytes, q)
  {
  }

  /** Unless the horizontal clamp wraps, a row is no wider than the source pitch. */
  lemma {:induction false} WidthWithinPitch(d: Desc)
    requires d.srcLeft >= 0 && Width(d) > 0 && Wrap(d.dstRight - d.dstLeft) > 0
    requires d.srcLeft + Wrap(d.dstRight - d.dstLeft) < 0x8000_0000
    ensures Width(d) * BPP <= d.srcPitch
  {
  }

  /** What ExecuteBlt does to two surfaces of given sizes is exact, whatever they hold,
      exactly when it copies at most one row, or its rows are no wider than the
      destination pitch, or the pitches agree; and the last case is the second one
      unless the horizontal clamp wraps. */
  lemma {:induction false} BltIsExactIff(d: Desc, srcBytes: nat, dstBytes: nat, n: nat)
    requires Runs(d, srcBytes)
    requires IsRowCount(d, Width(d) * BPP, srcBytes, dstBytes, Height(d, srcBytes), n)
    ensures forall q | 0 <= q < n :: Fits(d, Width(d) * BPP, srcBytes, dstBytes, q)
    ensures (forall dst: seq<Byte>, src: seq<Byte> | |dst| == dstBytes && |src| == srcBytes ::
               ExactRows(dst, src, d, Width(d) * BPP, n))
            <==> n <= 1 || Width(d) * BPP <= d.dstPitch || d.srcPitch == d.dstPitch
    ensures d.srcLeft + Wrap(d.dstRight - d.dstLeft) < 0x8000_0000 && d.srcPitch == d.dstPitch ==>
              Width(d) * BPP <= d.dstPitch
  {
    RowsCounted(d, Width(d) * BPP, srcBytes, dstBytes, Height(d, srcBytes), n);
    if d.srcLeft + Wrap(d.dstRight - d.dstLeft) < 0x8000_0000 { WidthWithinPitch(d); }
    hide Wrap, Fits, ExactRows, Clamp, IsRowCount;
    ExactIffRowsApart(d, srcBytes, dstBytes, Width(d) * BPP, n);
  }

  /** A request that arrives and is not exact: two rows of 128 pixels between two
      one-page surfaces, the destination pitch half a row. */
  const NARROW: Desc := Desc(0, 0, 0, 0, 128, 2, 512, 256)

  lemma {:induction false} NarrowArrives()
    ensures Runs(NARROW, 4096) && Width(NARROW) == 128 && Height(NARROW, 4096) == 2
  {
    assert Wrap(128) == 128 && Wrap(2) == 2 && Wrap(8) == 8;
    hide Wrap;
    assert Width(NARROW) == 128;
    assert Height(NARROW, 4096) == 2;
  }

  lemma {:induction false} NarrowRows()
    ensures IsRowCount(NARROW, 512, 4096, 4096, 2, 2)
  {
    assert Fits(NARROW, 512, 4096, 4096, 0) && Fits(NARROW, 512, 4096, 4096, 1);
  }

  lemma {:induction false} NarrowPitchLosesData()
    ensures Runs(NARROW, 4096) && Width(NARROW) == 128 && Height(NARROW, 4096) == 2
    ensures IsRowCount(NARROW, 512, 4096, 4096, 2, 2)
    ensures forall q | 0 <= q < 2 :: Fits(NARROW, 512, 4096, 4096, q)
    ensures exists dst: seq<Byte>, src: seq<Byte> ::
              |dst| == 4096 && |src| == 4096 && !ExactRows(dst, src, NARROW, 512, 2)
  {
    NarrowArrives();
    NarrowRows();
    RowsCounted(NARROW, 512, 4096, 4096, 2, 2);
    hide Wrap, Fits, ExactRows, Clamp, IsRowCount, Runs, Width, Height;
    var dst, src := OverlapLosesData(NARROW, 4096, 4096, 512, 2);
  }

  /** SIZE_T of a LONG sum, and the product with a pitch, modulo 2^64 */
  function SizeT(x: int): nat {
    x % 0x1_0000_0000_0000_0000
  }

  /** The offset of row r as the driver computes it. */
  function RowOffset(top: Long, left: Long, pitch: Ulong, r: nat): nat {
    SizeT(SizeT(SizeT(Wrap(top + r)) * pitch) + SizeT(SizeT(left) * BPP))
  }

  lemma {:induction false} Small(x: nat)
    ensures x < 0x1_0000_0000_0000_0000 ==> SizeT(x) == x
    ensures x < 0x8000_0000 ==> Wrap(x) == x
  {
  }

  lemma {:induction false} Times(a: nat, b: nat, c: nat)
    requires a <= b
    ensures a * c <= b * c
  {
  }

  lemma {:induction false} Smaller(a: nat, b: nat, c: nat)
    requires a * c < b * c
    ensures a < b
  {
  }

  /** No row number of the loop wraps: the surface has fewer than 2^31 rows, so the loop stops
      before, or the rectangle ends below row 2^31. */
  predicate Numbered(top: Long, pitch: Ulong, bytes: nat, height: int) {
    bytes <= 0x7FFF_FFFF * pitch || top + height <= 0x8000_0000
  }

  /** While row r - 1 fits and row numbers do not wrap, nothing wraps for row r. */
  lemma {:induction false} RowArithmetic(top: Long, left: Long, pitch: Ulong, bytes: nat, r: nat, rowBytes: nat)
    requires top >= 0 && left >= 0 && 0 < rowBytes < 0x2_0000_0000
    requires bytes <= 0x7FFF_FFFF * pitch || top + r <= 0x7FFF_FFFF
    requires r > 0 ==> Offset(top, left, pitch, r - 1) + rowBytes <= bytes
    ensures RowOffset(top, left, pitch, r) == Offset(top, left, pitch, r)
    ensures SizeT(Offset(top, left, pitch, r) + rowBytes) == Offset(top, left, pitch, r) + rowBytes
  {
    hide SizeT;
    hide Wrap;
    var row := top + r;
    if r > 0 && bytes <= 0x7FFF_FFFF * pitch { Smaller(top + (r - 1), 0x7FFF_FFFF, pitch); }
    assert row <= 0x7FFF_FFFF;
    Times(row, 0x7FFF_FFFF, pitch);
    Times(pitch, 0xFFFF_FFFF, 0x7FFF_FFFF);
    var p := row * pitch;
    assert p <= 0x7FFF_FFFF * 0xFFFF_FFFF;
    Small(row);
    Small(p);
    Small(left);
    Small(left * BPP);
    Small(p + left * BPP);
    Small(p + left * BPP + rowBytes);
  }

  /** n is the number of rows, of height, that lie inside both surfaces to their end. */
  ghost predicate RowsThatFit(d: Desc, width: nat, srcBytes: nat, dstBytes: nat, height: nat, n: nat) {
    && n <= height
    && forall r: nat | r < height ::
         r < n <==> SrcByte(d, r, width, 0) <= srcBytes && DstByte(d, r, width, 0) <= dstBytes
  }

  lemma {:induction false} LiteralRows(d: Desc, width: nat, srcBytes: nat, dstBytes: nat, height: nat, n: nat)
    requires d.srcTop >= 0 && d.srcLeft >= 0 && d.dstTop >= 0 && d.dstLeft >= 0
    requires IsRowCount(d, width * BPP, srcBytes, dstBytes, height, n)
    ensures RowsThatFit(d, width, srcBytes, dstBytes, height, n)
  {
    forall r: nat | r < height
      ensures r < n <==> SrcByte(d, r, width, 0) <= srcBytes && DstByte(d, r, width, 0) <= dstBytes
    {
      assert Fits(d, width * BPP, srcBytes, dstBytes, r) <==> r < n;
    }
  }

  /** WinMaliPresentExecuteBlt_ on two resident allocations, no row number wrapping. */
  method ExecuteBlt(src: array<Byte>, dst: array<Byte>, d: Desc) returns (ghost rows: nat)
    requires src != dst
    requires Runs(d, src.Length) ==> Numbered(d.srcTop, d.srcPitch, src.Length, Height(d, src.Length))
    requires Runs(d, src.Length) ==> Numbered(d.dstTop, d.dstPitch, dst.Length, Height(d, src.Length))
    modifies dst
    ensures !Runs(d, src.Length) ==> dst[..] == old(dst[..])
    ensures Runs(d, src.Length) ==>
              && IsRowCount(d, Width(d) * BPP, src.Length, dst.Length, Height(d, src.Length), rows)
              && dst[..] == Copied(old(dst[..]), src[..], d, Width(d) * BPP, rows)
              && RowsThatFit(d, Width(d), src.Length, dst.Length, Height(d, src.Length), rows)
              && (rows <= 1 || Width(d) * 4 <= d.dstPitch || d.srcPitch == d.dstPitch ==>
                    RectangleMoved(old(dst[..]), dst[..], src[..], d, Width(d), rows))
  {
    hide RowsThatFit, RectangleMoved;
    hide Copied;
    hide Fits;
    hide IsRowCount;
    hide Wrap, Numbered;
    rows := 0;
    if d.srcPitch == 0 || d.dstPitch == 0 { return; }
    var width: Long, height: Long := Wrap(d.dstRight - d.dstLeft), Wrap(d.dstBottom - d.dstTop);
    if width <= 0 || height <= 0 || d.srcLeft < 0 || d.srcTop < 0 || d.dstLeft < 0 || d.dstTop < 0 { return; }
    var srcRows, srcCols := Wrap(src.Length / d.srcPitch), Wrap(d.srcPitch / BPP);
    if Wrap(d.srcTop + height) > srcRows { height := Wrap(srcRows - d.srcTop); }
    if Wrap(d.srcLeft + width) > srcCols { width := Wrap(srcCols - d.srcLeft); }
    if width <= 0 || height <= 0 { return; }
    assert Runs(d, src.Length) && width == Width(d) && height == Height(d, src.Length);
    rows := CopyRows(src, dst, d, width, height);
  }

  /** The row loop. */
  method CopyRows(src: array<Byte>, dst: array<Byte>, d: Desc, width: Long, height: Long) returns (ghost rows: nat)
    requires src != dst && width > 0 && height > 0
    requires d.srcTop >= 0 && d.srcLeft >= 0 && d.dstTop >= 0 && d.dstLeft >= 0
    requires Numbered(d.srcTop, d.srcPitch, src.Length, height) && Numbered(d.dstTop, d.dstPitch, dst.Length, height)
    modifies dst
    ensures IsRowCount(d, width * BPP, src.Length, dst.Length, height, rows)
    ensures dst[..] == Copied(old(dst[..]), src[..], d, width * BPP, rows)
    ensures RowsThatFit(d, width, src.Length, dst.Length, height, rows)
    ensures rows <= 1 || width * 4 <= d.dstPitch || d.srcPitch == d.dstPitch ==>
              RectangleMoved(old(dst[..]), dst[..], src[..], d, width, rows)
  {
    hide RowsThatFit, RectangleMoved;
    hide Offset;
    hide SizeT;
    hide RowOffset;
    hide WriteAt;
    ghost var before := dst[..];
    var rowBytes := width * BPP;
    var r := 0;
    while r < height
      invariant 0 <= r <= height
      invariant forall q | 0 <= q < r :: Fits(d, rowBytes, src.Length, dst.Length, q)
      invariant dst[..] == Copied(before, src[..], d, rowBytes, r)
    {
      assert r > 0 ==> Fits(d, rowBytes, src.Length, dst.Length, r - 1);
      RowArithmetic(d.srcTop, d.srcLeft, d.srcPitch, src.Length, r, rowBytes);
      RowArithmetic(d.dstTop, d.dstLeft, d.dstPitch, dst.Length, r, rowBytes);
      var srcOff, dstOff := RowOffset(d.srcTop, d.srcLeft, d.srcPitch, r), RowOffset(d.dstTop, d.dstLeft, d.dstPitch, r);
      if SizeT(srcOff + rowBytes) > src.Length || SizeT(dstOff + rowBytes) > dst.Length {
        break;
      }
      assert Fits(d, rowBytes, src.Length, dst.Length, r);
      CopyRow(src, srcOff, dst, dstOff, rowBytes);
      r := r + 1;
    }
    rows := r;
    forall q: nat | q < height
      ensures Fits(d, rowBytes, src.Length, dst.Length, q) <==> q < rows
    {
      if q >= rows && Fits(d, rowBytes, src.Length, dst.Length, q) {
        FittingRowsAreAPrefix(d, rowBytes, src.Length, dst.Length, rows, q);
      }
    }
    hide Copied, Fits;
    LiteralRows(d, width, src.Length, dst.Length, height, rows);
    if rows <= 1 || width * 4 <= d.dstPitch || d.srcPitch == d.dstPitch {
      CopyMovesRectangle(before, src[..], d, width, rows);
    }
  }

  method CopyRow(src: array<Byte>, srcOff: nat, dst: array<Byte>, dstOff: nat, n: nat)
    requires src != dst && srcOff + n <= src.Length && dstOff + n <= dst.Length
    modifies dst
    ensures dst[..] == WriteAt(old(dst[..]), dstOff, src[srcOff..srcOff + n])
  {
    forall i | 0 <= i < n { dst[dstOff + i] := src[srcOff + i]; }
  }
}
