/** Image geometry: the bit-mask ALIGN, the sizes requested from GBM on allocation and on
    import, and the plane pointers handed out by `lock_ycbcr`. */
module Geometry {
  import opened Bytes
  import opened Formats

  // ---- ALIGN ----

  function Pow2(k: nat): (p: nat)
    ensures p >= 1
  {
    if k == 0 then 1 else 2 * Pow2(k - 1)
  }

  /** `a & b`, bit by bit. */
  function BitAnd(a: nat, b: nat): (r: nat)
    ensures r <= a
  {
    if a == 0 || b == 0 then 0
    else 2 * BitAnd(a / 2, b / 2) + (if a % 2 == 1 && b % 2 == 1 then 1 else 0)
  }

  /** `~x` on 32 bits. */
  function BitNot32(x: UInt32): UInt32 { TWO32 - 1 - x }

  /** `(((A) + (B)-1) & ~((B)-1))` on `uint32_t`. */
  function Align(a: UInt32, b: UInt32): UInt32
    requires b > 0
  {
    BitAnd(Wrap32(a + b - 1), BitNot32(b - 1))
  }

  ghost predicate IsMultiple(m: int, b: int) { exists j: int :: m == j * b }

  lemma {:induction false} AndOnes(x: nat, n: nat)
    requires x < Pow2(n)
    ensures BitAnd(x, Pow2(n) - 1) == x
  {
    if x != 0 {
      AndOnes(x / 2, n - 1);
    }
  }

  /** `x >> k` */
  function Shifted(x: nat, k: nat): nat { if k == 0 then x else Shifted(x / 2, k - 1) }

  lemma {:induction false} ShiftedBounds(x: nat, k: nat)
    ensures Shifted(x, k) * Pow2(k) <= x < Shifted(x, k) * Pow2(k) + Pow2(k)
  {
    if k > 0 {
      ShiftedBounds(x / 2, k - 1);
      ShiftedStep(x, k);
    }
  }

  lemma ShiftedStep(x: nat, k: nat)
    requires k > 0
    ensures Shifted(x, k) * Pow2(k) == 2 * (Shifted(x / 2, k - 1) * Pow2(k - 1))
  {
    var s, p := Shifted(x / 2, k - 1), Pow2(k - 1);
    assert s * (2 * p) == 2 * (s * p);
  }

  lemma AndEven(x: nat, half: nat)
    ensures BitAnd(x, 2 * half) == 2 * BitAnd(x / 2, half)
  {
    if x != 0 && half != 0 {
      assert 2 * half / 2 == half && 2 * half % 2 == 0;
    } else {
      assert BitAnd(x, 2 * half) == 0;
    }
  }

  /** Masking with n-k ones above k zeros clears the low k bits. */
  lemma {:induction false} MaskClearsLowBits(x: nat, k: nat, n: nat)
    requires k <= n && x < Pow2(n)
    ensures Pow2(k) <= Pow2(n)
    ensures BitAnd(x, Pow2(n) - Pow2(k)) == Shifted(x, k) * Pow2(k)
  {
    if k == 0 {
      AndOnes(x, n);
    } else {
      MaskClearsLowBits(x / 2, k - 1, n - 1);
      AndEven(x, Pow2(n - 1) - Pow2(k - 1));
      ShiftedStep(x, k);
    }
  }

  lemma Pow2Of32()
    ensures Pow2(32) == TWO32
  {
    assert Pow2(8) == 0x100;
    assert Pow2(16) == 0x1_0000;
    assert Pow2(24) == 0x100_0000;
    assert Pow2(32) == 0x1_0000_0000;
  }

  lemma {:induction false} Pow2Grows(j: nat, k: nat)
    requires j <= k
    ensures Pow2(j) <= Pow2(k)
    decreases k
  {
    if j < k {
      Pow2Grows(j, k - 1);
    }
  }

  lemma MulGrows(i: int, j: int, b: nat)
    requires i < j
    ensures i * b + b <= j * b
  {
    assert (j - 1 - i) * b >= 0;
    assert j * b == (j - 1 - i) * b + i * b + b;
  }

  /** Rounding up with the bit trick: `q` counts the units of the result. */
  lemma AlignedUnits(a: UInt32, k: nat, b: nat) returns (q: nat)
    requires k < 32 && b == Pow2(k) && a + b - 1 < TWO32
    ensures 0 < b < TWO32
    ensures Align(a, b) == q * b && a <= q * b < a + b
  {
    hide Shifted, BitAnd;
    Pow2Of32();
    Pow2Grows(k, 31);
    var x := a + b - 1;
    assert Wrap32(x) == x;
    MaskClearsLowBits(x, k, 32);
    ShiftedBounds(x, k);
    q := Shifted(x, k);
  }

  /** For every power of two B, while nothing overflows, ALIGN is the least multiple of B
      that is not below A. */
  lemma AlignIsLeastMultiple(a: UInt32, k: nat, m: nat)
    requires k < 32 && a + Pow2(k) - 1 < TWO32
    ensures 0 < Pow2(k) < TWO32
    ensures IsMultiple(Align(a, Pow2(k)), Pow2(k)) && a <= Align(a, Pow2(k)) < a + Pow2(k)
    ensures a <= m && IsMultiple(m, Pow2(k)) ==> Align(a, Pow2(k)) <= m
  {
    var q := AlignedUnits(a, k, Pow2(k));
    if a <= m && IsMultiple(m, Pow2(k)) {
      var j: int :| m == j * Pow2(k);
      if j < q {
        MulGrows(j, q, Pow2(k));
      } else if q < j {
        MulGrows(q, j, Pow2(k));
      }
    }
  }

  /** ... and when the sum overflows 32 bits, ALIGN gives zero. */
  lemma AlignOverflows(a: UInt32, k: nat, b: nat)
    requires k < 32 && b == Pow2(k) && a + b - 1 >= TWO32
    ensures 0 < b < TWO32
    ensures Align(a, b) == 0
  {
    hide Shifted, BitAnd;
    Pow2Of32();
    Pow2Grows(k, 31);
    var x := a + b - 1 - TWO32;
    assert Wrap32(a + b - 1) == x < b;
    MaskClearsLowBits(x, k, 32);
    ShiftedBounds(x, k);
    if Shifted(x, k) > 0 {
      MulGrows(0, Shifted(x, k), b);
    }
  }

  lemma Align2(a: UInt32)
    requires a + 1 < TWO32
    ensures Align(a, 2) == (a + 1) / 2 * 2
  {
    hide Align;
    assert Pow2(1) == 2;
    var q := AlignedUnits(a, 1, 2);
    assert (a + 1) / 2 == q;
  }

  lemma Align16(a: UInt32)
    requires a + 15 < TWO32
    ensures Align(a, 16) == (a + 15) / 16 * 16
  {
    hide Align;
    assert Pow2(4) == 16;
    var q := AlignedUnits(a, 4, 16);
    assert (a + 15) / 16 == q;
  }

  lemma Align16Overflows(a: UInt32)
    requires a + 15 >= TWO32
    ensures Align(a, 16) == 0
  {
    hide Align;
    assert Pow2(4) == 16;
    AlignOverflows(a, 4, 16);
  }

  lemma Align32(a: UInt32)
    requires a + 31 < TWO32
    ensures Align(a, 32) == (a + 31) / 32 * 32
  {
    hide Align;
    assert Pow2(5) == 32;
    var q := AlignedUnits(a, 5, 32);
    assert (a + 31) / 32 == q;
  }

  lemma Align32Overflows(a: UInt32)
    requires a + 31 >= TWO32
    ensures Align(a, 32) == 0
  {
    hide Align;
    assert Pow2(5) == 32;
    AlignOverflows(a, 5, 32);
  }

  /** A chroma row of YV12 is no longer than half an allocated row, if and only if the width
      does not overflow when it is aligned. */
  lemma ChromaRowFits(w: UInt32)
    ensures Align(w / 2, 16) <= Align(w, 32) / 2 <==> w + 31 < TWO32
  {
    hide Align;
    Align16(w / 2);
    if w + 31 < TWO32 {
      Align32(w);
    } else {
      Align32Overflows(w);
    }
  }

  // ---- what is asked of GBM ----

  datatype Request = Request(width: UInt32, height: UInt32, format: GbmFormat)

  function Max(a: UInt32, b: UInt32): UInt32 { if a > b then a else b }

  /** The size `gralloc_allocate` passes to `gbm_bo_create`. */
  function AllocateRequest(width: UInt32, height: UInt32, format: UInt32, usage: bv32): Request
  {
    var cursor := GbmFlags(usage, format) & USE_CURSOR != 0;
    var w := if cursor then Align(Max(width, 64), 16) else width;
    var h := if cursor then Align(Max(height, 64), 16) else height;
    if format == YV12
    then Request(Align(width, 32) / 2, Wrap32(h + Align(height, 2) / 2), GbmFormatOf(format))
    else Request(w, h, GbmFormatOf(format))
  }

  /** The size `gralloc_gm_buffer_import` passes to `gbm_bo_import`. */
  function ImportRequest(width: UInt32, height: UInt32, format: UInt32, usage: bv32): Request
  {
    var cursor := usage & CURSOR != 0;
    var w := if cursor then Align(Max(width, 64), 16) else width;
    var h := if cursor then Align(Max(height, 64), 16) else height;
    if format == YV12
    then Request(Align(width, 32) / 2, Wrap32(height + Align(height, 2) / 2), GbmFormatOf(format))
    else Request(w, h, GbmFormatOf(format))
  }

  predicate CursorSized(x: UInt32) { x >= 64 && x % 16 == 0 }

  lemma CursorPadding(x: UInt32)
    ensures Align(Max(x, 64), 16) == x <==> CursorSized(x)
  {
    hide Align;
    if Max(x, 64) + 15 < TWO32 {
      Align16(Max(x, 64));
    } else {
      Align16Overflows(x);
    }
  }

  /** What allocation asks for, apart from YV12: the size itself, or for a cursor the least
      multiples of 16 that cover the size and 64. */
  lemma AllocationSize(width: UInt32, height: UInt32, format: UInt32, usage: bv32, m: nat)
    requires format != YV12 && width + 15 < TWO32 && height + 15 < TWO32
    ensures var r := AllocateRequest(width, height, format, usage);
            if usage & 0x8000 == 0 || format != 0x5 then r.width == width && r.height == height
            else && CursorSized(r.width) && CursorSized(r.height) && r.width >= width && r.height >= height
                 && (m >= width && m >= 64 && m % 16 == 0 ==> m >= r.width)
                 && (m >= height && m >= 64 && m % 16 == 0 ==> m >= r.height)
  {
    hide Align, GbmFlags;
    CursorFlag(usage, format);
    Align16(Max(width, 64));
    Align16(Max(height, 64));
  }

  /** What import asks for, apart from YV12: the size itself, or for a cursor of any format the
      least multiples of 16 that cover the size and 64. */
  lemma ImportSize(width: UInt32, height: UInt32, format: UInt32, usage: bv32, m: nat)
    requires format != YV12 && width + 15 < TWO32 && height + 15 < TWO32
    ensures var r := ImportRequest(width, height, format, usage);
            if usage & 0x8000 == 0 then r.width == width && r.height == height
            else && CursorSized(r.width) && CursorSized(r.height) && r.width >= width && r.height >= height
                 && (m >= width && m >= 64 && m % 16 == 0 ==> m >= r.width)
                 && (m >= height && m >= 64 && m % 16 == 0 ==> m >= r.height)
  {
    hide Align;
    Align16(Max(width, 64));
    Align16(Max(height, 64));
  }

  /** The format of the request has the channels of the format asked for, in memory order, for
      every packed format but RGB_565. */
  lemma RequestKeepsChannels(width: UInt32, height: UInt32, format: UInt32, usage: bv32)
    ensures AllocateRequest(width, height, format, usage).format == GbmFormatOf(format)
    ensures ImportRequest(width, height, format, usage).format == GbmFormatOf(format)
    ensures Packed(format) ==>
              (Reversed(GbmChannels(AllocateRequest(width, height, format, usage).format)) == AndroidChannels(format)
               <==> format != 0x4)
  {
    hide Align, GbmFlags, Reversed, GbmChannels, AndroidChannels;
    if Packed(format) {
      ConversionKeepsChannels(format);
    }
  }

  /** What allocation asks for in YV12: pixels of two bytes, so half of the least multiple of 32
      that covers the width, and half as many rows again, rounded up. */
  lemma YV12AllocationSize(width: UInt32, height: UInt32, usage: bv32)
    requires width + 31 < TWO32 && height + (height + 1) / 2 < TWO32
    ensures var r := AllocateRequest(width, height, 0x32315659, usage);
            && 2 * r.width == (width + 31) / 32 * 32
            && r.height == height + (height + 1) / 2
            && GbmChannels(r.format) == [(G, 8), (R, 8)]
  {
    hide Align, GbmFlags;
    CursorFlag(usage, YV12);
    Align32(width);
    Align2(height);
  }

  /** The importer rebuilds the size the allocator asked for exactly when the cursor padding
      it adds for every format makes no difference. */
  lemma ImportRebuildsAllocation(width: UInt32, height: UInt32, format: UInt32, usage: bv32)
    ensures ImportRequest(width, height, format, usage) == AllocateRequest(width, height, format, usage)
            <==> usage & CURSOR == 0 || format == BGRA_8888 || format == YV12
                 || (CursorSized(width) && CursorSized(height))
  {
    hide Align;
    CursorFlag(usage, format);
    CursorPadding(width);
    CursorPadding(height);
  }

  /** The failing family, for instance a 100x100 RGBA_8888 cursor: allocated as 100x100,
      imported as 112x112. */
  lemma CursorOfOtherFormat()
    ensures AllocateRequest(100, 100, RGBA_8888, CURSOR) == Request(100, 100, ABGR8888)
    ensures ImportRequest(100, 100, RGBA_8888, CURSOR) == Request(112, 112, ABGR8888)
  {
    hide Align;
    CursorFlag(CURSOR, RGBA_8888);
    Align16(100);
  }
}
