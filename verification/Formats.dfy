/** Pixel formats and usage bits, and the conversions between Android's and GBM's. */
module Formats {
  import opened Bytes

  // HAL_PIXEL_FORMAT_*, from Android's system/graphics.h.
  const RGBA_8888: UInt32 := 1
  const RGBX_8888: UInt32 := 2
  const RGB_888: UInt32 := 3
  const RGB_565: UInt32 := 4
  const BGRA_8888: UInt32 := 5
  const YCbCr_422_SP: UInt32 := 0x10
  const YCrCb_420_SP: UInt32 := 0x11
  const RGBA_FP16: UInt32 := 0x16
  const RAW16: UInt32 := 0x20
  const BLOB: UInt32 := 0x21
  const IMPLEMENTATION_DEFINED: UInt32 := 0x22
  const YCbCr_420_888: UInt32 := 0x23
  const RGBA_1010102: UInt32 := 0x2B
  const YCBCR_P010: UInt32 := 0x36
  const Y8: UInt32 := 0x20203859
  const Y16: UInt32 := 0x20363159
  const YV12: UInt32 := 0x32315659

  /** The GBM formats that the conversion can produce. */
  datatype GbmFormat =
    | NoFormat | ABGR8888 | XBGR8888 | BGR888 | BGR565 | ARGB8888 | R16 | GR88 | R8
    | ABGR16161616F | ABGR2101010 | YUV422 | YUV420 | P010 | FourCC9998

  function GbmFormatOf(format: UInt32): GbmFormat
  {
    if format == RGBA_8888 then ABGR8888
    else if format == RGBX_8888 then XBGR8888
    else if format == RGB_888 then BGR888
    else if format == RGB_565 then BGR565
    else if format == BGRA_8888 then ARGB8888
    else if format == RAW16 || format == Y16 then R16
    else if format == YV12 then GR88
    else if format == Y8 || format == BLOB then R8
    else if format == RGBA_FP16 then ABGR16161616F
    else if format == RGBA_1010102 then ABGR2101010
    else if format == YCbCr_422_SP then YUV422
    else if format == YCbCr_420_888 || format == YCrCb_420_SP then YUV420
    else if format == YCBCR_P010 then P010
    else if format == IMPLEMENTATION_DEFINED then FourCC9998
    else NoFormat
  }

  /** Bits per pixel; formats the table does not list have none. */
  function BitsPerPixel(f: GbmFormat): nat
  {
    match f
    case YUV420 => 12
    case BGR565 | YUV422 | R16 | GR88 => 16
    case BGR888 => 24
    case XBGR8888 | ARGB8888 | ABGR8888 | ABGR2101010 => 32
    case ABGR16161616F => 64
    case NoFormat | R8 | P010 | FourCC9998 => 0
  }

  // ---- an account of the formats by their channels ----

  datatype Channel = R | G | B | A | X

  /** The channels that the name of an Android format lists, with their bits, by the numbers
      of the PixelFormat interface. Formats that are not packed RGB have none. */
  function NamedChannels(format: UInt32): seq<(Channel, nat)>
  {
    if format == 0x1 then [(R, 8), (G, 8), (B, 8), (A, 8)]            // RGBA_8888
    else if format == 0x2 then [(R, 8), (G, 8), (B, 8), (X, 8)]       // RGBX_8888
    else if format == 0x3 then [(R, 8), (G, 8), (B, 8)]               // RGB_888
    else if format == 0x4 then [(R, 5), (G, 6), (B, 5)]               // RGB_565
    else if format == 0x5 then [(B, 8), (G, 8), (R, 8), (A, 8)]       // BGRA_8888
    else if format == 0x16 then [(R, 16), (G, 16), (B, 16), (A, 16)]  // RGBA_FP16
    else if format == 0x2B then [(R, 10), (G, 10), (B, 10), (A, 2)]   // RGBA_1010102
    else []
  }

  /** The same from the least significant bit on, as they lie in memory. The interface defines
      RGB_565, alone among them, from the most significant bit. */
  function AndroidChannels(format: UInt32): seq<(Channel, nat)>
  {
    if format == 0x4 then Reversed(NamedChannels(format)) else NamedChannels(format)
  }

  /** The channels of a GBM format from the most significant bit on, as gbm.h describes it. */
  function GbmChannels(f: GbmFormat): seq<(Channel, nat)>
  {
    match f
    case ABGR8888 => [(A, 8), (B, 8), (G, 8), (R, 8)]
    case XBGR8888 => [(X, 8), (B, 8), (G, 8), (R, 8)]
    case BGR888 => [(B, 8), (G, 8), (R, 8)]
    case BGR565 => [(B, 5), (G, 6), (R, 5)]
    case ARGB8888 => [(A, 8), (R, 8), (G, 8), (B, 8)]
    case ABGR16161616F => [(A, 16), (B, 16), (G, 16), (R, 16)]
    case ABGR2101010 => [(A, 2), (B, 10), (G, 10), (R, 10)]
    case R8 => [(R, 8)]
    case R16 => [(R, 16)]
    case GR88 => [(G, 8), (R, 8)]
    case NoFormat | YUV422 | YUV420 | P010 | FourCC9998 => []
  }

  function Reversed<T>(s: seq<T>): seq<T>
  {
    if s == [] then [] else Reversed(s[1..]) + [s[0]]
  }

  function BitWidth(channels: seq<(Channel, nat)>): nat
  {
    if channels == [] then 0 else channels[0].1 + BitWidth(channels[1..])
  }

  predicate Packed(format: UInt32) { NamedChannels(format) != [] }

  /** The conversion reverses the name of every packed format, so that the channels in memory
      are the ones asked for, if and only if the format is not RGB_565; there they come in the
      opposite order, red and blue exchanged. */
  lemma ConversionKeepsChannels(format: UInt32)
    requires Packed(format)
    ensures GbmChannels(GbmFormatOf(format)) == Reversed(NamedChannels(format))
    ensures Reversed(GbmChannels(GbmFormatOf(format))) == AndroidChannels(format) <==> format != 0x4
    ensures format == 0x4 ==> GbmChannels(GbmFormatOf(format)) == AndroidChannels(format)
  {
    ConversionReverses(format);
    ReversedTwice(NamedChannels(format));
    hide Reversed, GbmChannels, GbmFormatOf;
    if format == 0x4 {
      Rgb565NotItsReverse();
    }
  }

  lemma ConversionReverses(format: UInt32)
    requires Packed(format)
    ensures GbmChannels(GbmFormatOf(format)) == Reversed(NamedChannels(format))
  {
    ReversedAt(NamedChannels(format));
    hide Reversed;
  }

  lemma ReversedTwice<T>(s: seq<T>)
    ensures Reversed(Reversed(s)) == s
  {
    ReversedAt(s);
    ReversedAt(Reversed(s));
  }

  lemma Rgb565NotItsReverse()
    ensures Reversed(NamedChannels(0x4)) != NamedChannels(0x4)
  {
    ReversedAt(NamedChannels(0x4));
    assert NamedChannels(0x4)[0] != NamedChannels(0x4)[2];
  }

  lemma {:induction false} ReversedAt<T>(s: seq<T>)
    ensures |Reversed(s)| == |s|
    ensures forall i :: 0 <= i < |s| ==> Reversed(s)[i] == s[|s| - 1 - i]
  {
    if s != [] {
      ReversedAt(s[1..]);
    }
  }

  /** Single-channel and planar formats: a sample of the GBM format is as wide as the Android
      format's, YV12 goes as pairs of bytes, and exactly the formats that are not listed have
      none. */
  lemma ConversionOfOthers(format: UInt32)
    ensures format == 0x20203859 || format == 0x21 ==> GbmChannels(GbmFormatOf(format)) == [(R, 8)]   // Y8, BLOB
    ensures format == 0x20 || format == 0x20363159 ==> GbmChannels(GbmFormatOf(format)) == [(R, 16)]  // RAW16, Y16
    ensures format == 0x32315659 ==> GbmChannels(GbmFormatOf(format)) == [(G, 8), (R, 8)]             // YV12
    ensures format == 0x23 || format == 0x11 <==> GbmFormatOf(format) == YUV420   // YCbCr_420_888, YCrCb_420_SP
    ensures format == 0x10 <==> GbmFormatOf(format) == YUV422                     // YCbCr_422_SP
    ensures format == 0x36 <==> GbmFormatOf(format) == P010                       // YCBCR_P010
    ensures format == 0x22 <==> GbmFormatOf(format) == FourCC9998                 // IMPLEMENTATION_DEFINED
    ensures GbmFormatOf(format) == NoFormat <==>
            !Packed(format) && format !in {0x10, 0x11, 0x20, 0x21, 0x22, 0x23, 0x36, 0x20203859, 0x20363159, 0x32315659}
  {
  }

  /** The pixel of a packed format, in whole bytes; two bytes for 16-bit samples and for what
      counts as 12 or 16 bits per pixel; four for everything else, Y8 and BLOB among it. */
  lemma PixelBytes(format: UInt32)
    ensures Packed(format) ==> BytesPerPixel(format) == (BitWidth(NamedChannels(format)) + 7) / 8
    ensures format in {0x20, 0x20363159, 0x32315659, 0x23, 0x11, 0x10} ==> BytesPerPixel(format) == 2
    ensures !Packed(format) && format !in {0x20, 0x20363159, 0x32315659, 0x23, 0x11, 0x10} ==> BytesPerPixel(format) == 4
  {
    if Packed(format) {
      TotalBits(format);
    }
  }

  lemma TotalBits(format: UInt32)
    requires Packed(format)
    ensures BitWidth(NamedChannels(format)) ==
            if format == 0x3 then 24 else if format == 0x4 then 16 else if format == 0x16 then 64 else 32
  {
    var s := NamedChannels(format);
    assert s[1..][1..] == s[2..] && s[2..][1..] == s[3..];
    assert BitWidth(s) == s[0].1 + BitWidth(s[1..]);
    assert BitWidth(s[1..]) == s[1].1 + BitWidth(s[2..]);
    assert BitWidth(s[2..]) == s[2].1 + BitWidth(s[3..]);
    if |s| == 4 {
      assert BitWidth(s[3..]) == s[3].1 + BitWidth(s[3..][1..]);
    }
  }

  function BytesPerPixel(format: UInt32): (n: nat)
    ensures n in {2, 3, 4, 8}
  {
    var bpp := BitsPerPixel(GbmFormatOf(format));
    if bpp > 0 then (bpp + 7) / 8 else 4
  }

  /** `DIV_ROUND_UP(stride, bytes_per_pixel)` on `uint32_t`. */
  function PixelStride(format: UInt32, stride: UInt32): UInt32
  {
    Wrap32(stride + BytesPerPixel(format) - 1) / BytesPerPixel(format)
  }

  /** The pixel stride covers the byte stride if and only if the rounding does not overflow 32
      bits, and no smaller number of whole pixels covers it. */
  lemma PixelStrideCovers(format: UInt32, stride: UInt32, pixels: nat)
    ensures PixelStride(format, stride) * BytesPerPixel(format) >= stride
            <==> stride + BytesPerPixel(format) - 1 < TWO32
    ensures pixels * BytesPerPixel(format) >= stride ==> pixels >= PixelStride(format, stride)
  {
    hide BytesPerPixel;
    var n := BytesPerPixel(format);
    if stride + n - 1 < TWO32 {
      DivRoundUp(stride, n, pixels);
    } else {
      DivSmall(stride + n - 1 - TWO32, n);
    }
  }

  lemma DivSmall(x: nat, d: nat)
    requires x < d
    ensures x / d == 0
  {
  }

  lemma DivRoundUp(n: nat, d: nat, q: nat)
    requires d in {2, 3, 4, 8}
    ensures (n + d - 1) / d * d >= n
    ensures q * d >= n ==> q >= (n + d - 1) / d
  {
    if d == 2 {} else if d == 3 {} else if d == 4 {} else {}
  }

  // GRALLOC_USAGE_*, from Android's hardware/gralloc.h.
  const SW_READ_OFTEN: bv32 := 0x3
  const SW_READ_MASK: bv32 := 0xF
  const SW_WRITE_OFTEN: bv32 := 0x30
  const SW_WRITE_MASK: bv32 := 0xF0
  const HW_TEXTURE: bv32 := 0x100
  const HW_RENDER: bv32 := 0x200
  const HW_COMPOSER: bv32 := 0x800
  const HW_FB: bv32 := 0x1000
  const PROTECTED: bv32 := 0x4000
  const CURSOR: bv32 := 0x8000

  // GBM_BO_USE_*
  const USE_SCANOUT: bv32 := 0x1
  const USE_CURSOR: bv32 := 0x2
  const USE_RENDERING: bv32 := 0x4
  const USE_LINEAR: bv32 := 0x10
  const USE_PROTECTED: bv32 := 0x20

  function When(c: bool, flags: bv32): bv32 { if c then flags else 0 }

  function GbmFlags(usage: bv32, format: UInt32): bv32
  {
    When(usage & (SW_READ_OFTEN | SW_WRITE_OFTEN) != 0, USE_LINEAR)
    | When(usage & CURSOR != 0 && GbmFormatOf(format) == ARGB8888, USE_CURSOR)
    | When(usage & (HW_RENDER | HW_TEXTURE) != 0, USE_RENDERING)
    | When(usage & HW_FB != 0, USE_SCANOUT)
    | When(usage & HW_COMPOSER != 0, USE_SCANOUT | USE_RENDERING)
    | When(usage & HW_RENDER != 0, USE_RENDERING)
    | When(usage & PROTECTED != 0, USE_PROTECTED)
  }

  /** A cursor buffer is asked of GBM only for the one format it supports. */
  lemma CursorFlag(usage: bv32, format: UInt32)
    ensures GbmFlags(usage, format) & 0x2 != 0 <==> usage & 0x8000 != 0 && format == 0x5
  {
    assert GbmFormatOf(format) == ARGB8888 <==> format == BGRA_8888;
  }

  /** The other flags follow from the usage alone: each is set for the uses that need it. */
  lemma UsageFlags(usage: bv32, format: UInt32)
    ensures GbmFlags(usage, format) & 0x10 != 0 <==> usage & 0x33 != 0
    ensures GbmFlags(usage, format) & 0x1 != 0 <==> usage & 0x1800 != 0
    ensures GbmFlags(usage, format) & 0x4 != 0 <==> usage & 0xb00 != 0
    ensures GbmFlags(usage, format) & 0x20 != 0 <==> usage & 0x4000 != 0
    ensures GbmFlags(usage, format) & 0xffff_ffc8 == 0
  {
  }
}
