/** The plane pointers of `gralloc_gbm_bo_lock_ycbcr`: where each sample of the two layouts
    it knows lies in the mapping. */
module YCbCr {
  import opened Bytes
  import opened Formats
  import opened Geometry

  /** Offsets from the mapped address. */
  datatype Planes = Planes(y: nat, cr: nat, cb: nat, ystride: int, cstride: int, chromaStep: nat)

  datatype Lockable = NotLockable | Lockable(planes: Planes)

  /** Division as C does it for `int`. */
  function Half(x: int): int { if x >= 0 then x / 2 else -(-x / 2) }

  /** The switch over the formats; sums and products of `uint32_t` wrap. */
  function LockPlanes(format: UInt32, width: UInt32, height: UInt32): Lockable
  {
    if format == YCrCb_420_SP then
      var stride := Align(width, 16);
      var chroma := Wrap32(stride * height);
      Lockable(Planes(0, chroma, chroma + 1, Signed32(stride), Signed32(stride), 2))
    else if format == YV12 then
      var ystride := Signed32(width);
      var cstride := Signed32(Align(Wrap32(Half(ystride)), 16));
      var cr := Wrap32(ystride * height);
      Lockable(Planes(0, cr, cr + Wrap32(cstride * height) / 2, ystride, cstride, 1))
    else
      NotLockable
  }

  /** It knows two formats. */
  lemma LockableFormats(format: UInt32, width: UInt32, height: UInt32)
    ensures LockPlanes(format, width, height).Lockable? <==> format == 0x11 || format == 0x32315659
  {
  }

  datatype Plane = Y | Cr | Cb

  /** 4:2:0 subsampling: chroma planes have half the columns and rows, rounded up. */
  predicate InPlane(p: Plane, w: nat, h: nat, x: nat, y: nat)
  {
    if p.Y? then x < w && y < h else x < (w + 1) / 2 && y < (h + 1) / 2
  }

  function Offset(l: Planes, p: Plane, x: nat, y: nat): int
  {
    match p
    case Y => l.y + y * l.ystride + x
    case Cr => l.cr + y * l.cstride + x * l.chromaStep
    case Cb => l.cb + y * l.cstride + x * l.chromaStep
  }

  /** No two samples share a byte. */
  ghost predicate NoAliasing(l: Planes, w: nat, h: nat)
  {
    forall p, x: nat, y: nat, p', x': nat, y': nat ::
      InPlane(p, w, h, x, y) && InPlane(p', w, h, x', y') && Offset(l, p, x, y) == Offset(l, p', x', y')
      ==> p == p' && x == x' && y == y'
  }

  lemma RowsOrder(y: nat, y': nat, stride: nat)
    requires y < y'
    ensures y * stride + stride <= y' * stride
  {
    MulGrows(y, y', stride);
  }

  lemma ProductMono(a: nat, b: nat, c: nat)
    requires a <= b
    ensures a * c <= b * c
  {
    assert (b - a) * c >= 0;
    assert b * c == (b - a) * c + a * c;
  }

  /** A position in a plane whose rows do not overlap determines row and column. */
  lemma RowsInjective(stride: nat, x: nat, y: nat, x': nat, y': nat)
    requires x < stride && x' < stride && y * stride + x == y' * stride + x'
    ensures x == x' && y == y'
  {
    if y < y' {
      RowsOrder(y, y', stride);
    } else if y' < y {
      RowsOrder(y', y, stride);
    }
  }

  lemma RowsBounded(stride: nat, x: nat, y: nat, rows: nat)
    requires x < stride && y < rows
    ensures y * stride + x < rows * stride
  {
    RowsOrder(y, rows, stride);
  }

  lemma WrapShrinks(x: nat)
    ensures Wrap32(x) <= x && (x < TWO32 ==> Wrap32(x) == x)
  {
  }

  lemma NonNegative(a: nat, b: nat)
    ensures a * b >= 0
  {
  }

  /** Two samples at one offset. */
  lemma Meet(l: Planes, w: nat, h: nat, p: Plane, x: nat, y: nat, p': Plane, x': nat, y': nat)
    requires InPlane(p, w, h, x, y) && InPlane(p', w, h, x', y') && Offset(l, p, x, y) == Offset(l, p', x', y')
    requires p != p' || x != x' || y != y'
    ensures !NoAliasing(l, w, h)
  {
  }

  lemma RowAndColumn(at: nat, stride: nat, h: nat) returns (row: nat, column: nat)
    requires stride > 0 && at < stride * h
    ensures row < h && column == at % stride && row * stride + column == at
  {
    row, column := at / stride, at % stride;
    if row >= h {
      ProductMono(h, row, stride);
      assert false;
    }
  }

  lemma HalfTurns(h: nat)
    ensures Wrap32(-0x8000_0000 * h) == Wrap32(0x8000_0000 * h) == if h % 2 == 0 then 0 else 0x8000_0000
  {
    assert -0x8000_0000 * h == if h % 2 == 0 then TWO32 * -(h / 2) else TWO32 * (-(h / 2) - 1) + 0x8000_0000;
    assert 0x8000_0000 * h == if h % 2 == 0 then TWO32 * (h / 2) else TWO32 * (h / 2) + 0x8000_0000;
  }
}
