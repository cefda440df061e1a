/** YCrCb_420_SP: a luma plane, and rows in which Cr and Cb take turns behind it. When its
    samples share bytes, and when all lie within the luma rows and half as many again. */
module SemiPlanarNV21 {
  import opened Bytes
  import opened Formats
  import opened Geometry
  import opened YCbCr

  /** YCrCb_420_SP: Cr and Cb take turns in rows behind the luma plane. For every size, no two
      samples share a byte if and only if the luma plane fits 32 bits. */
  lemma SemiPlanarSamples(w: UInt32, h: UInt32)
    requires 0 < w && 0 < h
    ensures LockPlanes(YCrCb_420_SP, w, h).Lockable?
    ensures NoAliasing(LockPlanes(YCrCb_420_SP, w, h).planes, w, h) <==> SemiPlanarStride(w) * h < TWO32
  {
    hide LockPlanes, SemiPlanar, SemiPlanarWide, SemiPlanarStride, NoAliasing;
    if w + 15 >= TWO31 {
      SemiPlanarWideLayout(w, h);
      WideLumaFits(w, h);
      if h == 1 && w + 15 < TWO32 {
        SemiPlanarWideNoAliasing(w);
      } else {
        SemiPlanarWideAliasing(w, h);
      }
    } else {
      SemiPlanarLayout(w, h);
      if SemiPlanarStride(w) * h < TWO32 {
        SemiPlanarNoAliasing(w, h);
      } else {
        SemiPlanarAliasing(w, h);
      }
    }
  }

  /** Every sample lies between the mapped address and `size` bytes behind it. */
  ghost predicate AllInside(l: Planes, w: nat, h: nat, size: nat)
  {
    forall p, x: nat, y: nat :: InPlane(p, w, h, x, y) ==> 0 <= Offset(l, p, x, y) < size
  }

  /** All samples lie within the luma rows and half as many again, even where the chroma
      offset wraps, if and only if the rows do not run backwards: the stride, as an `int`, is
      not negative, or there is only one row. */
  lemma SemiPlanarInBounds(w: UInt32, h: UInt32)
    requires 0 < w && 0 < h
    ensures LockPlanes(YCrCb_420_SP, w, h).Lockable?
    ensures AllInside(LockPlanes(YCrCb_420_SP, w, h).planes, w, h, SemiPlanarSize(w, h))
            <==> w + 15 < TWO31 || h == 1 || w + 15 >= TWO32
  {
    hide LockPlanes, SemiPlanar, SemiPlanarWide, SemiPlanarSize, AllInside;
    if w + 15 < TWO31 {
      SemiPlanarLayout(w, h);
      SemiPlanarAllInside(w, h);
    } else {
      SemiPlanarWideLayout(w, h);
      SemiPlanarWideInside(w, h);
    }
  }

  lemma SemiPlanarAllInside(w: UInt32, h: UInt32)
    ensures AllInside(SemiPlanar(w, h), w, h, SemiPlanarSize(w, h))
  {
    hide Offset, SemiPlanar, SemiPlanarStride, InPlane;
    forall p, x: nat, y: nat | InPlane(p, w, h, x, y)
      ensures 0 <= Offset(SemiPlanar(w, h), p, x, y) < SemiPlanarSize(w, h)
    {
      SemiPlanarRegion(w, h, p, x, y);
      ProductMono(h, h + (h + 1) / 2, SemiPlanarStride(w));
      NonNegative(SemiPlanarStride(w), h);
      NonNegative(y, SemiPlanarStride(w));
    }
  }

  /** A stride that is negative as an `int`, or wraps to zero. */
  function SemiPlanarWide(w: UInt32, h: UInt32): Planes
  {
    if w + 15 >= TWO32 then Planes(0, 0, 1, 0, 0, 2)
    else
      var stride := SemiPlanarStride(w);
      var chroma := Wrap32(stride * h);
      Planes(0, chroma, chroma + 1, stride - TWO32, stride - TWO32, 2)
  }

  lemma SemiPlanarWideLayout(w: UInt32, h: UInt32)
    requires w + 15 >= TWO31
    ensures LockPlanes(YCrCb_420_SP, w, h) == Lockable(SemiPlanarWide(w, h))
  {
    hide Align, Wrap32;
    if w + 15 >= TWO32 {
      Align16Overflows(w);
      WrapShrinks(0);
    } else {
      Align16(w);
      assert Signed32(Align(w, 16)) == SemiPlanarStride(w) - TWO32;
    }
  }

  lemma WideLumaFits(w: UInt32, h: UInt32)
    requires w + 15 >= TWO31 && h > 0
    ensures SemiPlanarStride(w) * h < TWO32 <==> h == 1 && w + 15 < TWO32
  {
    var stride := SemiPlanarStride(w);
    assert TWO31 <= stride && (stride < TWO32 <==> w + 15 < TWO32);
    if h >= 2 {
      ProductMono(TWO31, stride, h);
    }
  }

  lemma SemiPlanarWideNoAliasing(w: UInt32)
    requires TWO31 <= w + 15 < TWO32
    ensures NoAliasing(SemiPlanarWide(w, 1), w, 1)
  {
    var stride := SemiPlanarStride(w);
    assert w <= stride < TWO32;
    assert SemiPlanarWide(w, 1) == Planes(0, stride, stride + 1, stride - TWO32, stride - TWO32, 2);
  }

  lemma SemiPlanarWideAliasing(w: UInt32, h: UInt32)
    requires TWO31 <= w + 15 && h > 0 && !(h == 1 && w + 15 < TWO32)
    ensures !NoAliasing(SemiPlanarWide(w, h), w, h)
  {
    hide NoAliasing;
    var l, back := SemiPlanarWide(w, h), TWO32 - SemiPlanarStride(w);
    if w + 15 >= TWO32 {
      Meet(l, w, h, Cr, 0, 0, Y, 0, 0);
    } else if w > back {
      Meet(l, w, h, Y, back, 1, Y, 0, 0);
    } else {
      assert back == TWO31;
      HalfTurns(h);
      Meet(l, w, h, Cr, 0, if h % 2 == 0 then 0 else 1, Y, 0, 0);
    }
  }

  lemma SemiPlanarWideInside(w: UInt32, h: UInt32)
    requires TWO31 <= w + 15 && h > 0
    ensures AllInside(SemiPlanarWide(w, h), w, h, SemiPlanarSize(w, h))
            <==> h == 1 || w + 15 >= TWO32
  {
    hide AllInside, SemiPlanarSize;
    if h > 1 && w + 15 < TWO32 {
      SemiPlanarWideOutside(w, h);
    } else {
      TwoRowsFit(w, h);
      var half := HalfStride(w);
      WideOneRow(SemiPlanarWide(w, h), w, h, SemiPlanarSize(w, h));
    }
  }

  lemma HalfStride(w: UInt32) returns (half: nat)
    ensures SemiPlanarStride(w) == 2 * half && (w + 1) / 2 <= half
  {
    half := 8 * ((w + 15) / 16);
  }

  lemma TwoRowsFit(w: UInt32, h: UInt32)
    requires h > 0
    ensures 2 * SemiPlanarStride(w) <= SemiPlanarSize(w, h)
  {
    hide SemiPlanarStride;
    ProductMono(2, h + (h + 1) / 2, SemiPlanarStride(w));
  }

  lemma SemiPlanarWideOutside(w: UInt32, h: UInt32)
    requires TWO31 <= w + 15 < TWO32 && h > 1
    ensures !AllInside(SemiPlanarWide(w, h), w, h, SemiPlanarSize(w, h))
  {
    hide SemiPlanarSize, Wrap32;
    assert SemiPlanarWide(w, h).ystride < 0;
    assert Offset(SemiPlanarWide(w, h), Y, 0, 1) < 0;
    assert InPlane(Y, w, h, 0, 1);
  }

  lemma WideOneRow(l: Planes, w: UInt32, h: UInt32, size: nat)
    requires 0 < w && (h == 1 || (l.ystride == 0 && l.cstride == 0)) && h > 0
    requires l.y == 0 && l.cb == l.cr + 1 && l.chromaStep == 2
    requires l.cr + (w + 1) / 2 * 2 <= size
    ensures AllInside(l, w, h, size)
  {
  }

  /** ALIGN(w, 16) */
  function SemiPlanarStride(w: nat): nat { (w + 15) / 16 * 16 }

  /** The luma rows and half as many again. */
  function SemiPlanarSize(w: nat, h: nat): nat { SemiPlanarStride(w) * (h + (h + 1) / 2) }

  function SemiPlanar(w: UInt32, h: UInt32): Planes
  {
    var stride := SemiPlanarStride(w);
    var chroma := Wrap32(stride * h);
    Planes(0, chroma, chroma + 1, stride, stride, 2)
  }

  lemma SemiPlanarLayout(w: UInt32, h: UInt32)
    requires w + 15 < TWO31
    ensures LockPlanes(YCrCb_420_SP, w, h) == Lockable(SemiPlanar(w, h))
  {
    hide Align, Wrap32;
    Align16(w);
  }

  /** The luma plane, and behind it Cr first in each pair of bytes, by number. */
  lemma SemiPlanarPlanesInOrder(w: UInt32, h: UInt32)
    requires w + 15 < TWO31 && (w + 15) / 16 * 16 * h < TWO32
    ensures var stride := (w + 15) / 16 * 16;
            LockPlanes(0x11, w, h) ==
              Lockable(Planes(y := 0, cr := stride * h, cb := stride * h + 1, ystride := stride, cstride := stride, chromaStep := 2))
  {
    hide LockPlanes, Wrap32;
    SemiPlanarLayout(w, h);
    NonNegative((w + 15) / 16 * 16, h);
    WrapShrinks((w + 15) / 16 * 16 * h);
  }

  lemma SemiPlanarNoAliasing(w: UInt32, h: UInt32)
    requires SemiPlanarStride(w) * h < TWO32
    ensures NoAliasing(SemiPlanar(w, h), w, h)
  {
    hide Offset, SemiPlanar, InPlane, SemiPlanarStride;
    var l, stride := SemiPlanar(w, h), SemiPlanarStride(w);
    forall p, x: nat, y: nat, p', x': nat, y': nat |
      InPlane(p, w, h, x, y) && InPlane(p', w, h, x', y') && Offset(l, p, x, y) == Offset(l, p', x', y')
      ensures p == p' && x == x' && y == y'
    {
      SemiPlanarRegion(w, h, p, x, y);
      SemiPlanarRegion(w, h, p', x', y');
      NonNegative(y, stride);
      NonNegative(y', stride);
      RowsInjective(stride, Column(p, x), y, Column(p', x'), y');
    }
  }

  /** The wrapped offset of the first Cr sample is that of a luma sample. */
  lemma SemiPlanarAliasing(w: UInt32, h: UInt32)
    requires 0 < w && h > 0 && SemiPlanarStride(w) * h >= TWO32
    ensures !NoAliasing(SemiPlanar(w, h), w, h)
  {
    var l, stride := SemiPlanar(w, h), SemiPlanarStride(w);
    assert w + 15 >= stride >= w && stride == (w + 15) / 16 * 16;
    hide SemiPlanarStride, Wrap32;
    WrappedInside(stride, h, (w + 15) / 16);
    var row, column := RowAndColumn(l.cr, stride, h);
    assert InPlane(Y, w, h, column, row) && InPlane(Cr, w, h, 0, 0);
    assert Offset(l, Y, column, row) == Offset(l, Cr, 0, 0);
  }

  lemma WrappedInside(stride: nat, h: nat, units: nat)
    requires stride == units * 16 && stride > 0 && stride * h >= TWO32
    ensures Wrap32(stride * h) < stride * h && Wrap32(stride * h) % stride <= stride - 16
  {
    var n, lost := units * h, stride * h / TWO32;
    assert stride * h == 16 * n;
    var c := Wrap32(stride * h);
    assert c == 16 * (n - lost * 0x1000_0000);
    MultipleOf16(n - lost * 0x1000_0000, units);
  }

  lemma MultipleOf16(n: nat, units: nat)
    requires units > 0
    ensures 16 * n % (units * 16) <= units * 16 - 16
  {
    var d := 16 * n / (units * 16);
    assert d * (units * 16) == 16 * (d * units);
    assert 16 * n % (units * 16) == 16 * (n - d * units);
  }

  function Column(p: Plane, x: nat): nat
  {
    match p
    case Y => x
    case Cr => 2 * x
    case Cb => 2 * x + 1
  }

  lemma ColumnFits(w: UInt32, h: UInt32, p: Plane, x: nat, y: nat)
    requires InPlane(p, w, h, x, y)
    ensures Column(p, x) < SemiPlanarStride(w)
  {
  }

  lemma ChromaRows(stride: nat, column: nat, y: nat, h: nat, rows: nat)
    requires column < stride && y < rows
    ensures stride * h + (y * stride + column) < stride * (h + rows)
  {
    RowsBounded(stride, column, y, rows);
    assert stride * (h + rows) == stride * h + rows * stride;
  }

  /** Luma samples come first; the chroma rows are half as many again. */
  lemma SemiPlanarRegion(w: UInt32, h: UInt32, p: Plane, x: nat, y: nat)
    requires InPlane(p, w, h, x, y)
    ensures var stride := SemiPlanarStride(w);
            var l := SemiPlanar(w, h);
            var at := Offset(l, p, x, y);
            && Column(p, x) < stride
            && l.cr <= stride * h && (stride * h < TWO32 ==> l.cr == stride * h)
            && (p == Y ==> at == y * stride + Column(p, x) < stride * h)
            && (p != Y ==> at == l.cr + (y * stride + Column(p, x)) < stride * (h + (h + 1) / 2))
  {
    var stride := SemiPlanarStride(w);
    hide SemiPlanarStride, Wrap32;
    ColumnFits(w, h, p, x, y);
    NonNegative(stride, h);
    WrapShrinks(stride * h);
    if p == Y {
      RowsBounded(stride, x, y, h);
      assert h * stride == stride * h;
    } else {
      ChromaRows(stride, Column(p, x), y, h, (h + 1) / 2);
    }
  }
}
