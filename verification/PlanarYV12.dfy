/** YV12: three planes behind one another, whose offsets `lock_ycbcr` computes in 32 bits. When
    its samples share bytes, and that all lie inside what allocation asked for. */
module PlanarYV12 {
  import opened Bytes
  import opened Formats
  import opened Geometry
  import opened YCbCr

  function ChromaStride(w: UInt32): nat { (w / 2 + 15) / 16 * 16 }

  /** The layout without wrap-around. */
  function YV12Planes(w: nat, h: nat): Planes
    requires w < TWO31
  {
    Planes(0, w * h, w * h + ChromaStride(w) * h / 2, w, ChromaStride(w), 1)
  }

  /** The bytes of a row that allocation asks for: ALIGN(w, 32). */
  function RowBytes(w: nat): nat { (w + 31) / 32 * 32 }

  /** The bytes that allocation asks for: so many rows, and half as many again. */
  function YV12Size(w: nat, h: nat): nat { RowBytes(w) * (h + (h + 1) / 2) }

  lemma ChromaStrideIs(w: UInt32)
    requires w < TWO31
    ensures Signed32(w) == w && Signed32(Align(Wrap32(Half(w)), 16)) == ChromaStride(w)
  {
    hide Align;
    Align16(w / 2);
  }

  lemma YV12NoOverflow(w: UInt32, h: UInt32)
    requires w < TWO31 && YV12Size(w, h) < TWO32
    ensures LockPlanes(YV12, w, h) == Lockable(YV12Planes(w, h))
  {
    hide Align, ChromaStride, Wrap32, Half, Signed32, YV12Size;
    ChromaStrideIs(w);
    YV12ProductsFit(w, h);
    WrapShrinks(w * h);
    assert ChromaStride(w) * h >= 0;
    WrapShrinks(ChromaStride(w) * h);
  }

  /** The three planes in their order, Cr before Cb, and their strides, by number. */
  lemma YV12PlanesInOrder(w: UInt32, h: UInt32)
    requires w < TWO31 && YV12Size(w, h) < TWO32
    ensures var cstride := (w / 2 + 15) / 16 * 16;
            LockPlanes(0x32315659, w, h) ==
              Lockable(Planes(y := 0, cr := w * h, cb := w * h + cstride * h / 2, ystride := w, cstride := cstride, chromaStep := 1))
  {
    hide YV12Size, LockPlanes;
    YV12NoOverflow(w, h);
  }

  lemma YV12ProductsFit(w: UInt32, h: UInt32)
    requires w < TWO31 && YV12Size(w, h) < TWO32
    ensures w * h < TWO32 && ChromaStride(w) * h < TWO32
  {
    hide ChromaStride, YV12Size, RowBytes;
    YV12End(w, h);
    assert ChromaStride(w) * h >= 0;
    StrideRelations(w);
    ProductMono(2 * ChromaStride(w), RowBytes(w), h);
    ProductMono(h, h + (h + 1) / 2, RowBytes(w));
    YV12SizeIs(w, h);
  }

  lemma YV12SizeIs(w: nat, h: nat)
    ensures YV12Size(w, h) == (h + (h + 1) / 2) * (RowBytes(w))
  {
  }

  /** What the caller can check: a chroma row fits the chroma stride, or half of it when
      the plane has an odd number of luma rows. */
  predicate YV12Tiles(w: UInt32, h: UInt32)
  {
    (w + 1) / 2 <= if h % 2 == 0 then ChromaStride(w) else ChromaStride(w) / 2
  }

  lemma EvenSizesTile(w: UInt32, h: UInt32)
    requires w % 2 == 0 && h % 2 == 0
    ensures YV12Tiles(w, h)
  {
  }

  lemma YV12ChromaSize(w: UInt32, h: UInt32)
    ensures h % 2 == 0 ==> ChromaStride(w) * h / 2 == (h + 1) / 2 * ChromaStride(w)
    ensures h % 2 == 1 ==> ChromaStride(w) * h / 2 == (h + 1) / 2 * ChromaStride(w) - ChromaStride(w) / 2
  {
    assert ChromaStride(w) % 2 == 0;
    hide ChromaStride;
    HalfProduct(ChromaStride(w) / 2, h / 2);
  }

  lemma HalfProduct(half: nat, pairs: nat)
    ensures 2 * half * (2 * pairs) / 2 == pairs * (2 * half)
    ensures 2 * half * (2 * pairs + 1) / 2 == (pairs + 1) * (2 * half) - half
  {
    var p := half * pairs;
    assert 2 * half * (2 * pairs) == 4 * p;
    assert 2 * half * (2 * pairs + 1) == 4 * p + 2 * half;
    assert pairs * (2 * half) == 2 * p;
    assert (pairs + 1) * (2 * half) == 2 * p + 2 * half;
  }

  lemma LastRow(w: UInt32, h: UInt32)
    requires h > 0
    ensures var cs, rows := ChromaStride(w), (h + 1) / 2;
            (rows - 1) * cs + (if h % 2 == 0 then cs else cs / 2) == cs * h / 2
  {
    assert ChromaStride(w) % 2 == 0;
    hide ChromaStride;
    YV12ChromaSize(w, h);
    var cs, rows := ChromaStride(w), (h + 1) / 2;
    assert (rows - 1) * cs + cs == rows * cs;
  }

  /** Two planes of `rows` rows, `width` bytes used of every `stride`, the second one `gap`
      bytes behind the first: a row is no longer than the stride, and the first row of the
      second plane touches neither of the rows of the first one that it starts between. */
  predicate RowsApart(stride: nat, width: nat, rows: nat, gap: nat)
  {
    0 < width <= stride && StartsApart(stride, width, rows, gap / stride, gap % stride)
  }

  /** The second plane starts in row `r` of the first one, at column `c`. */
  predicate StartsApart(stride: nat, width: nat, rows: nat, r: nat, c: nat)
  {
    (width <= c || rows <= r) && (c + width <= stride || rows <= r + 1)
  }

  lemma StartsApartNeverMeet(stride: nat, width: nat, rows: nat, r: nat, c: nat, x: nat, y: nat, x': nat, y': nat)
    requires width <= stride && c < stride && StartsApart(stride, width, rows, r, c)
    requires x < width && y < rows && x' < width
    ensures y * stride + x != r * stride + c + y' * stride + x'
  {
    if y * stride + x == r * stride + c + y' * stride + x' {
      if c + x' < stride {
        assert (r + y') * stride == r * stride + y' * stride;
        RowsInjective(stride, x, y, c + x', r + y');
      } else {
        assert (r + y' + 1) * stride == r * stride + y' * stride + stride;
        RowsInjective(stride, x, y, c + x' - stride, r + y' + 1);
      }
      assert false;
    }
  }

  lemma ApartNeverMeet(stride: nat, width: nat, rows: nat, gap: nat, x: nat, y: nat, x': nat, y': nat)
    requires RowsApart(stride, width, rows, gap) && x < width && y < rows && x' < width
    ensures y * stride + x != gap + y' * stride + x'
  {
    hide StartsApart;
    var r, c := gap / stride, gap % stride;
    assert gap == r * stride + c;
    StartsApartNeverMeet(stride, width, rows, r, c, x, y, x', y');
  }

  /** Planes that are not apart share a byte; `gap` is at most a stride where there is only
      one row. */
  lemma NotApartMeet(l: Planes, w: UInt32, h: UInt32, gap: nat)
    requires w > 0 && h > 0 && l.chromaStep == 1 && l.cstride >= 0 && l.cb == l.cr + gap
    requires h <= 2 ==> gap <= l.cstride
    requires !RowsApart(l.cstride, (w + 1) / 2, (h + 1) / 2, gap)
    ensures !NoAliasing(l, w, h)
  {
    hide NoAliasing;
    if (w + 1) / 2 > l.cstride {
      hide RowsApart;
      if (h + 1) / 2 > 1 {
        Meet(l, w, h, Cr, l.cstride, 0, Cr, 0, 1);
      } else {
        Meet(l, w, h, Cr, gap, 0, Cb, 0, 0);
      }
    } else {
      var r, c := gap / l.cstride, gap % l.cstride;
      assert !StartsApart(l.cstride, (w + 1) / 2, (h + 1) / 2, r, c);
      hide RowsApart, StartsApart, Offset, InPlane;
      assert gap == r * l.cstride + c && c < l.cstride;
      RowMeets(l, w, h, r, c);
    }
  }

  lemma RowMeets(l: Planes, w: UInt32, h: UInt32, r: nat, c: nat)
    requires w > 0 && h > 0 && l.chromaStep == 1 && 0 <= c < l.cstride && l.cb == l.cr + r * l.cstride + c
    requires !StartsApart(l.cstride, (w + 1) / 2, (h + 1) / 2, r, c)
    ensures !NoAliasing(l, w, h)
  {
    hide NoAliasing;
    if c < (w + 1) / 2 && r < (h + 1) / 2 {
      Meet(l, w, h, Cr, c, r, Cb, 0, 0);
    } else {
      assert (r + 1) * l.cstride == r * l.cstride + l.cstride;
      Meet(l, w, h, Cr, 0, r + 1, Cb, l.cstride - c, 0);
    }
  }

  /** What the caller can check. In a width that fits `int`, the luma plane must not overflow
      its 32-bit size, and the chroma planes must lie apart at the distance that is left of
      theirs; a wider one leaves room for a single row. */
  predicate YV12Distinct(w: UInt32, h: UInt32)
  {
    if w < TWO31
    then w * h < TWO32 && RowsApart(ChromaStride(w), (w + 1) / 2, (h + 1) / 2, Wrap32(ChromaStride(w) * h) / 2)
    else h == 1 && w + 32 <= TWO32
  }

  /** No two of the Y, Cr and Cb samples that `lock_ycbcr` hands out share a byte if and only
      if this holds, for every size. */
  lemma YV12SamplesDistinct(w: UInt32, h: UInt32)
    requires 0 < w && 0 < h
    ensures LockPlanes(YV12, w, h).Lockable?
    ensures NoAliasing(LockPlanes(YV12, w, h).planes, w, h) <==> YV12Distinct(w, h)
  {
    hide LockPlanes, RowsApart, ChromaStride, Wrap32, NoAliasing;
    if w < TWO31 {
      YV12Layout(w, h);
      if YV12Distinct(w, h) {
        YV12NoAliasing(w, h);
      } else {
        YV12Aliasing(w, h);
      }
    } else {
      YV12WideLayout(w, h);
      if YV12Distinct(w, h) {
        YV12WideNoAliasing(w);
      } else {
        YV12WideAliasing(w, h);
      }
    }
  }

  /** The layout with its wrap-around, where the width fits `int`. */
  function YV12Wrapped(w: UInt32, h: UInt32): Planes
  {
    var cr := Wrap32(w * h);
    Planes(0, cr, cr + Wrap32(ChromaStride(w) * h) / 2, w, ChromaStride(w), 1)
  }

  lemma YV12Layout(w: UInt32, h: UInt32)
    requires w < TWO31
    ensures LockPlanes(YV12, w, h) == Lockable(YV12Wrapped(w, h))
  {
    hide Align, ChromaStride, Wrap32, Half, Signed32;
    ChromaStrideIs(w);
  }

  lemma YV12NoAliasing(w: UInt32, h: UInt32)
    requires 0 < w < TWO31 && YV12Distinct(w, h)
    ensures NoAliasing(YV12Wrapped(w, h), w, h)
  {
    hide RowsApart, ChromaStride;
    var l, stride := YV12Wrapped(w, h), ChromaStride(w);
    forall p, x: nat, y: nat, p', x': nat, y': nat |
      InPlane(p, w, h, x, y) && InPlane(p', w, h, x', y') && Offset(l, p, x, y) == Offset(l, p', x', y')
      ensures p == p' && x == x' && y == y'
    {
      YV12Region(w, h, p, x, y);
      YV12Region(w, h, p', x', y');
      if p == p' {
        RowFits(w, h);
        RowsInjective(if p == Y then w else stride, x, y, x', y');
      } else if p == Cr && p' == Cb {
        ApartNeverMeet(stride, (w + 1) / 2, (h + 1) / 2, l.cb - l.cr, x, y, x', y');
      } else if p == Cb && p' == Cr {
        ApartNeverMeet(stride, (w + 1) / 2, (h + 1) / 2, l.cb - l.cr, x', y', x, y);
      }
    }
  }

  lemma RowFits(w: UInt32, h: UInt32)
    requires w < TWO31 && YV12Distinct(w, h)
    ensures (w + 1) / 2 <= ChromaStride(w)
  {
  }

  /** Luma lies before chroma. */
  lemma YV12Region(w: UInt32, h: UInt32, p: Plane, x: nat, y: nat)
    requires w < TWO31 && w * h < TWO32 && InPlane(p, w, h, x, y)
    ensures var l := YV12Wrapped(w, h);
            if p == Y then Offset(l, p, x, y) == y * w + x < l.cr
            else Offset(l, p, x, y) == (if p == Cr then l.cr else l.cb) + y * ChromaStride(w) + x >= l.cr
  {
    hide ChromaStride, Wrap32;
    NonNegative(w, h);
    WrapShrinks(w * h);
    if p == Y {
      RowsBounded(w, x, y, h);
      assert h * w == w * h;
    } else {
      NonNegative(y, ChromaStride(w));
    }
  }

  lemma YV12Aliasing(w: UInt32, h: UInt32)
    requires 0 < w < TWO31 && h > 0 && !YV12Distinct(w, h)
    ensures !NoAliasing(YV12Wrapped(w, h), w, h)
  {
    hide ChromaStride, RowsApart, NoAliasing, Wrap32;
    var l := YV12Wrapped(w, h);
    if w * h >= TWO32 {
      WrapDrops(w * h);
      var row, column := RowAndColumn(l.cr, w, h);
      Meet(l, w, h, Y, column, row, Cr, 0, 0);
    } else {
      GapOfOneRow(w, h);
      NotApartMeet(l, w, h, l.cb - l.cr);
    }
  }

  lemma WrapDrops(x: nat)
    requires x >= TWO32
    ensures Wrap32(x) < x
  {
  }

  lemma GapOfOneRow(w: UInt32, h: UInt32)
    requires w < TWO31 && 0 < h
    ensures h <= 2 ==> Wrap32(ChromaStride(w) * h) / 2 <= ChromaStride(w)
  {
    hide ChromaStride, Wrap32;
    if h == 1 {
      WrapShrinks(ChromaStride(w));
    } else if h == 2 {
      WrapShrinks(ChromaStride(w) * 2);
    }
  }

  /** The layout of a width that is negative as an `int`: rows run backwards. */
  function YV12Wide(w: UInt32, h: UInt32): Planes
  {
    var back := 16 * ((TWO32 - w) / 32);
    var cr := Wrap32((w - TWO32) * h);
    Planes(0, cr, cr + Wrap32(-back * h) / 2, w - TWO32, -back, 1)
  }

  lemma YV12WideLayout(w: UInt32, h: UInt32)
    requires w >= TWO31
    ensures LockPlanes(YV12, w, h) == Lockable(YV12Wide(w, h))
  {
    hide Align, Wrap32, Half;
    WideChromaStride(w);
    assert Signed32(w) == w - TWO32;
    hide Signed32;
  }

  lemma WideChromaStride(w: UInt32)
    requires w >= TWO31
    ensures Signed32(Align(Wrap32(Half(Signed32(w))), 16)) == -(16 * ((TWO32 - w) / 32))
  {
    hide Align;
    var half := (TWO32 - w) / 2;
    assert half / 16 == (TWO32 - w) / 32;
    assert Half(Signed32(w)) == -half;
    if half == 0 {
      Align16(0);
    } else {
      assert Wrap32(-half) == TWO32 - half;
      if half < 16 {
        Align16Overflows(TWO32 - half);
      } else {
        Align16(TWO32 - half);
      }
    }
  }

  lemma YV12WideNoAliasing(w: UInt32)
    requires TWO31 <= w && w + 32 <= TWO32
    ensures NoAliasing(YV12Wide(w, 1), w, 1)
  {
    hide NoAliasing, Wrap32;
    var units: nat := (TWO32 - w) / 32;
    assert 1 <= units && 32 * units <= TWO32 - w <= TWO31;
    WrapNegative(TWO32 - w);
    WrapNegative(16 * units);
    assert (TWO32 - 16 * units) / 2 == TWO31 - 8 * units;
    OneRowApart(w, w + TWO31 - 8 * units, w - TWO32, -(16 * units));
  }

  lemma WrapNegative(x: int)
    requires 0 < x <= TWO32
    ensures Wrap32(-x) == TWO32 - x
  {
  }

  lemma OneRowApart(w: UInt32, cb: nat, ystride: int, cstride: int)
    requires w + (w + 1) / 2 <= cb
    ensures NoAliasing(Planes(0, w, cb, ystride, cstride, 1), w, 1)
  {
  }

  lemma YV12WideAliasing(w: UInt32, h: UInt32)
    requires TWO31 <= w && h > 0 && !YV12Distinct(w, h)
    ensures !NoAliasing(YV12Wide(w, h), w, h)
  {
    hide NoAliasing;
    var l := YV12Wide(w, h);
    if h == 1 {
      Meet(l, w, h, Cr, 0, 0, Cb, 0, 0);
    } else if w > TWO31 {
      Meet(l, w, h, Y, TWO32 - w, 1, Y, 0, 0);
    } else {
      HalfTurns(h);
      if h % 2 == 0 {
        Meet(l, w, h, Cr, 0, 0, Y, 0, 0);
      } else {
        Meet(l, w, h, Cr, 0, 1, Y, 0x4000_0000, 0);
      }
    }
  }

  /** While the chroma planes do not overflow 32 bits, all there is to check of them is that
      a row fits its stride, or half of it. */
  lemma YV12DistinctIsTiles(w: UInt32, h: UInt32)
    requires 0 < w < TWO31 && h > 0 && ChromaStride(w) * h < TWO32
    ensures YV12Distinct(w, h) <==> YV12Tiles(w, h) && w * h < TWO32
  {
    var stride, rows := ChromaStride(w), (h + 1) / 2;
    LastRow(w, h);
    hide ChromaStride, Wrap32, RowsApart;
    NonNegative(stride, h);
    WrapShrinks(stride * h);
    if h % 2 == 0 {
      ApartBehindRows(stride, (w + 1) / 2, rows);
    } else {
      ApartInLastRow(stride, (w + 1) / 2, rows);
    }
  }

  lemma ApartBehindRows(stride: nat, width: nat, rows: nat)
    requires width > 0 && rows > 0
    ensures RowsApart(stride, width, rows, (rows - 1) * stride + stride) <==> width <= stride
  {
    if stride > 0 {
      assert (rows - 1) * stride + stride == rows * stride;
      DivMod(rows, stride, 0);
    }
  }

  lemma ApartInLastRow(stride: nat, width: nat, rows: nat)
    requires width > 0 && rows > 0
    ensures RowsApart(stride, width, rows, (rows - 1) * stride + stride / 2) <==> width <= stride / 2
  {
    if stride > 0 {
      DivMod(rows - 1, stride, stride / 2);
    }
  }

  lemma DivMod(q: nat, d: nat, r: nat)
    requires r < d
    ensures (q * d + r) / d == q && (q * d + r) % d == r
  {
    var at := q * d + r;
    assert at / d * d + at % d == at;
    RowsInjective(d, r, q, at % d, at / d);
  }

  /** For every size whose request fits 32 bits, the samples handed out are distinct if and
      only if a chroma row fits. */
  lemma YV12FittingDistinct(w: UInt32, h: UInt32)
    requires 0 < w && 0 < h && YV12Size(w, h) < TWO32
    ensures LockPlanes(YV12, w, h).Lockable?
    ensures NoAliasing(LockPlanes(YV12, w, h).planes, w, h) <==> YV12Tiles(w, h)
  {
    hide LockPlanes, NoAliasing, YV12Size, YV12Distinct, YV12Tiles, ChromaStride;
    YV12WidthSmall(w, h);
    YV12ProductsFit(w, h);
    YV12SamplesDistinct(w, h);
    YV12DistinctIsTiles(w, h);
  }

  /** An even size whose chroma rows fit and whose request reaches GBM unwrapped, but whose
      first Cr sample is the first Y sample. */
  lemma YV12LargeAliases()
    ensures YV12Tiles(65536, 65536)
    ensures AllocateRequest(65536, 65536, YV12, 0) == Request(32768, 98304, GR88)
    ensures LockPlanes(YV12, 65536, 65536).Lockable?
    ensures !NoAliasing(LockPlanes(YV12, 65536, 65536).planes, 65536, 65536)
  {
    hide NoAliasing, LockPlanes, RowsApart, Align, GbmFlags;
    YV12SamplesDistinct(65536, 65536);
    CursorFlag(0, YV12);
    Align32(65536);
    Align2(65536);
  }

  lemma StrideRelations(w: UInt32)
    ensures w <= RowBytes(w) && 2 * ChromaStride(w) <= RowBytes(w) && (w > 0 ==> RowBytes(w) >= 32)
  {
    var units, chromaUnits := (w + 31) / 32, (w / 2 + 15) / 16;
    assert 32 * units + 31 >= w + 31 >= 32 * units;
    assert 16 * chromaUnits <= w / 2 + 15;
  }

  /** Half a row holds a row of chroma samples. */
  lemma HalfRow(w: UInt32) returns (room: nat)
    ensures RowBytes(w) == 2 * room && (w + 1) / 2 <= room
  {
    room := 16 * ((w + 31) / 32);
  }

  lemma SumOfPlanes(w: nat, cs: nat, aligned: nat, h: nat, half: nat)
    requires w <= aligned && 2 * cs <= aligned && h <= 2 * half
    ensures w * h + 2 * (cs * h / 2) <= aligned * (h + half)
  {
    ProductMono(w, aligned, h);
    ProductMono(h, 2 * half, cs);
    ProductMono(2 * cs, aligned, half);
    var a, b, c := aligned * h, aligned * half, cs * half;
    assert aligned * (h + half) == a + b;
    assert h * cs == cs * h && 2 * half * cs == 2 * c && 2 * cs * half == 2 * c;
  }

  lemma RowsSmall(aligned: nat, rows: nat)
    requires aligned >= 32 && aligned * rows < TWO32
    ensures 32 * rows < TWO32
  {
    ProductMono(32, aligned, rows);
  }

  /** All three planes together are no larger than what allocation asks for. */
  lemma YV12End(w: UInt32, h: UInt32)
    ensures w * h + 2 * (ChromaStride(w) * h / 2) <= YV12Size(w, h)
  {
    hide ChromaStride, RowBytes;
    StrideRelations(w);
    SumOfPlanes(w, ChromaStride(w), RowBytes(w), h, (h + 1) / 2);
  }

  lemma YV12RowsSmall(w: UInt32, h: UInt32)
    requires w > 0 && YV12Size(w, h) < TWO32
    ensures 32 * (h + (h + 1) / 2) < TWO32
  {
    hide RowBytes;
    StrideRelations(w);
    RowsSmall(RowBytes(w), h + (h + 1) / 2);
  }

  lemma YV12Allocation(w: UInt32, h: UInt32, usage: bv32)
    requires 0 < w < TWO31 && YV12Size(w, h) < TWO32
    ensures 2 * AllocateRequest(w, h, YV12, usage).width == RowBytes(w)
    ensures AllocateRequest(w, h, YV12, usage).height == h + (h + 1) / 2
  {
    hide YV12Size, AllocateRequest;
    YV12RowsSmall(w, h);
    YV12AllocationSize(w, h, usage);
  }

  /** Every sample, of any size whose request does not overflow, lies inside the buffer that
      allocation requested, whether or not the planes overlap. */
  lemma YV12InBounds(w: UInt32, h: UInt32, usage: bv32, stride: nat, p: Plane, x: nat, y: nat)
    requires YV12Size(w, h) < TWO32 && InPlane(p, w, h, x, y)
    requires stride >= BytesPerPixel(YV12) * AllocateRequest(w, h, YV12, usage).width
    ensures LockPlanes(YV12, w, h).Lockable?
    ensures 0 <= Offset(LockPlanes(YV12, w, h).planes, p, x, y) < stride * AllocateRequest(w, h, YV12, usage).height
  {
    hide Align, LockPlanes, Offset, AllocateRequest, YV12Planes, ChromaStride, YV12Size, RowBytes;
    YV12WidthSmall(w, h);
    YV12NoOverflow(w, h);
    YV12BelowSize(w, h, p, x, y);
    YV12Allocation(w, h, usage);
    YV12SizeIs(w, h);
    ProductMono(RowBytes(w), stride, h + (h + 1) / 2);
  }

  lemma YV12WidthSmall(w: UInt32, h: UInt32)
    requires h > 0 && YV12Size(w, h) < TWO32
    ensures w < TWO31
  {
    hide YV12Size, RowBytes;
    YV12SizeIs(w, h);
    ProductMono(2, h + (h + 1) / 2, RowBytes(w));
    StrideRelations(w);
  }

  lemma YV12BelowSize(w: UInt32, h: UInt32, p: Plane, x: nat, y: nat)
    requires w < TWO31 && InPlane(p, w, h, x, y)
    ensures 0 <= Offset(YV12Planes(w, h), p, x, y) < YV12Size(w, h)
  {
    hide ChromaStride, RowBytes;
    StrideRelations(w);
    if p == Y {
      LumaBelow(w, RowBytes(w), h, (h + 1) / 2, x, y);
    } else {
      var room := HalfRow(w);
      YV12ChromaOffsets(w, h, x, y);
      hide Offset, YV12Planes;
      YV12ChromaBelow(w, ChromaStride(w), room, h, (h + 1) / 2, x, y);
    }
  }

  lemma YV12ChromaOffsets(w: UInt32, h: UInt32, x: nat, y: nat)
    requires w < TWO31
    ensures Offset(YV12Planes(w, h), Cr, x, y) == w * h + y * ChromaStride(w) + x
    ensures Offset(YV12Planes(w, h), Cb, x, y) == w * h + ChromaStride(w) * h / 2 + y * ChromaStride(w) + x
  {
    hide ChromaStride;
  }

  lemma LumaBelow(w: nat, aligned: nat, h: nat, half: nat, x: nat, y: nat)
    requires x < w <= aligned && y < h
    ensures 0 <= y * w + x < aligned * (h + half)
  {
    NonNegative(y, w);
    RowsBounded(w, x, y, h);
    ProductMono(w, aligned, h);
    ProductMono(h, h + half, aligned);
    assert h * w == w * h && (h + half) * aligned == aligned * (h + half) && h * aligned == aligned * h;
  }

  lemma YV12ChromaBelow(w: nat, cs: nat, room: nat, h: nat, half: nat, x: nat, y: nat)
    requires w <= 2 * room && cs <= room && x < room && y < half && h <= 2 * half
    ensures 0 <= w * h + y * cs + x <= w * h + cs * h / 2 + y * cs + x < 2 * room * (h + half)
  {
    NonNegative(w, h);
    NonNegative(cs, h);
    NonNegative(y, cs);
    ProductMono(w, 2 * room, h);
    HalfPlane(cs, room, h, half);
    RowEnd(cs, room, half, x, y);
    var a, b := 2 * room * h, room * half;
    assert 2 * room * (h + half) == a + 2 * b;
  }

  lemma HalfPlane(cs: nat, room: nat, h: nat, half: nat)
    requires cs <= room && h <= 2 * half
    ensures cs * h / 2 <= room * half
  {
    ProductMono(cs, room, h);
    ProductMono(h, 2 * half, room);
    var a, b := room * h, room * half;
    assert h * room == a && 2 * half * room == 2 * b;
  }

  lemma RowEnd(cs: nat, room: nat, half: nat, x: nat, y: nat)
    requires cs <= room && x < room && y < half
    ensures y * cs + x < room * half
  {
    ProductMono(cs, room, y);
    RowsBounded(room, x, y, half);
    var a, b, c := y * cs, y * room, room * half;
    assert cs * y == a && room * y == b && half * room == c;
  }
}
