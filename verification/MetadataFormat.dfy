/** The wire format of the standard metadata: what the encoders produce and the decoders
    accept, as functions on byte strings, and the laws that tie the two together. */
module MetadataFormat {
  import opened Bytes
  import opened Options
  import opened Parsing

  // ---- values ----

  datatype ExtendableType = ExtendableType(name: seq<Byte>, value: Int64)

  datatype PlaneLayoutComponent =
    PlaneLayoutComponent(kind: ExtendableType, offsetInBits: Int64, sizeInBits: Int64)

  datatype PlaneLayout = PlaneLayout(
    components: seq<PlaneLayoutComponent>,
    offsetInBytes: Int64, sampleIncrementInBits: Int64, strideInBytes: Int64,
    widthInSamples: Int64, heightInSamples: Int64, totalSizeInBytes: Int64,
    horizontalSubsampling: Int64, verticalSubsampling: Int64)

  datatype Rect = Rect(left: Int32, top: Int32, right: Int32, bottom: Int32)

  /** A float is carried as its four bytes. */
  type Float = UInt32

  datatype XyColor = XyColor(x: Float, y: Float)

  datatype Smpte2086 = Smpte2086(
    primaryRed: XyColor, primaryGreen: XyColor, primaryBlue: XyColor, whitePoint: XyColor,
    maxLuminance: Float, minLuminance: Float)

  datatype Cta861_3 = Cta861_3(maxContentLightLevel: Float, maxFrameAverageLightLevel: Float)

  datatype Value =
    | Number(n: int)
    | Text(text: seq<Byte>)
    | Extendable(extendable: ExtendableType)
    | Planes(planes: seq<PlaneLayout>)
    | Rects(rects: seq<Rect>)
    | Smpte(smpte: Option<Smpte2086>)
    | Cta(cta: Option<Cta861_3>)
    | Buffer(buffer: Option<seq<Byte>>)
  {
    /** An optional without a value, which is encoded as no bytes at all. */
    predicate Absent() {
      (Smpte? && smpte.None?) || (Cta? && cta.None?) || (Buffer? && buffer.None?)
    }
  }

  /** The C++ value types of the metadata table; enums travel as their underlying integers. */
  datatype Kind =
    | IntKind(of: IntType) | TextKind | ExtendableKind | PlanesKind | RectsKind
    | SmpteKind | CtaKind | BufferKind
  {
    predicate Optional() { SmpteKind? || CtaKind? || BufferKind? }

    predicate Has(v: Value) {
      match this
      case IntKind(t) => v.Number? && t.InRange(v.n)
      case TextKind => v.Text?
      case ExtendableKind => v.Extendable?
      case PlanesKind => v.Planes?
      case RectsKind => v.Rects?
      case SmpteKind => v.Smpte?
      case CtaKind => v.Cta?
      case BufferKind => v.Buffer?
    }

    function AbsentValue(): Value
      requires Optional()
    {
      match this
      case SmpteKind => Smpte(None)
      case CtaKind => Cta(None)
      case BufferKind => Buffer(None)
    }
  }

  // ---- encodings ----

  function PutI32(v: Int32): seq<Byte> { IntBytes(I32, v) }
  function PutI64(v: Int64): seq<Byte> { IntBytes(I64, v) }
  function PutFloat(v: Float): seq<Byte> { IntBytes(U32, v) }

  /** A `size_t` written with `write<int64_t>`. */
  function PutSize(n: nat): seq<Byte> { IntBytes(I64, n) }

  /** Strings and byte vectors: the length, then the bytes. */
  function PutBlob(s: seq<Byte>): seq<Byte> { PutSize(|s|) + s }

  function PutExtendable(e: ExtendableType): seq<Byte> { PutBlob(e.name) + PutI64(e.value) }

  function PutComponent(c: PlaneLayoutComponent): seq<Byte>
  {
    PutExtendable(c.kind) + (PutI64(c.offsetInBits) + PutI64(c.sizeInBits))
  }

  function PlaneFields(p: PlaneLayout): (fs: seq<Int64>)
    ensures |fs| == 8
  {
    [p.offsetInBytes, p.sampleIncrementInBits, p.strideInBytes, p.widthInSamples,
     p.heightInSamples, p.totalSizeInBytes, p.horizontalSubsampling, p.verticalSubsampling]
  }

  function PlaneOf(cs: seq<PlaneLayoutComponent>, fs: seq<Int64>): (p: PlaneLayout)
    requires |fs| == 8
    ensures p.components == cs && PlaneFields(p) == fs
  {
    PlaneLayout(cs, fs[0], fs[1], fs[2], fs[3], fs[4], fs[5], fs[6], fs[7])
  }

  function PutPlane(p: PlaneLayout): seq<Byte>
  {
    PutSize(|p.components|) + (WriteList(PutComponent, p.components) + WriteList(PutI64, PlaneFields(p)))
  }

  function RectFields(r: Rect): (fs: seq<Int32>)
    ensures |fs| == 4
  {
    [r.left, r.top, r.right, r.bottom]
  }

  function RectOf(fs: seq<Int32>): (r: Rect)
    requires |fs| == 4
    ensures RectFields(r) == fs
  {
    Rect(fs[0], fs[1], fs[2], fs[3])
  }

  function PutRect(r: Rect): seq<Byte> { WriteList(PutI32, RectFields(r)) }

  function SmpteFields(s: Smpte2086): (fs: seq<Float>)
    ensures |fs| == 10
  {
    [s.primaryRed.x, s.primaryRed.y, s.primaryGreen.x, s.primaryGreen.y,
     s.primaryBlue.x, s.primaryBlue.y, s.whitePoint.x, s.whitePoint.y,
     s.maxLuminance, s.minLuminance]
  }

  function SmpteOf(fs: seq<Float>): (s: Smpte2086)
    requires |fs| == 10
    ensures SmpteFields(s) == fs
  {
    Smpte2086(XyColor(fs[0], fs[1]), XyColor(fs[2], fs[3]), XyColor(fs[4], fs[5]), XyColor(fs[6], fs[7]),
              fs[8], fs[9])
  }

  function CtaFields(c: Cta861_3): (fs: seq<Float>)
    ensures |fs| == 2
  {
    [c.maxContentLightLevel, c.maxFrameAverageLightLevel]
  }

  function Payload(k: Kind, v: Value): seq<Byte>
    requires k.Has(v) && !v.Absent()
  {
    match v
    case Number(n) => IntBytes(k.of, n)
    case Text(s) => PutBlob(s)
    case Extendable(e) => PutExtendable(e)
    case Planes(ps) => PutSize(|ps|) + WriteList(PutPlane, ps)
    case Rects(rs) => PutSize(|rs|) + WriteList(PutRect, rs)
    case Smpte(o) => WriteList(PutFloat, SmpteFields(o.value))
    case Cta(o) => WriteList(PutFloat, CtaFields(o.value))
    case Buffer(o) => PutBlob(o.value)
  }

  // ---- decodings ----

  function GetI32(s: seq<Byte>): Parsed<Int32>
  {
    var (v, rest) :- ReadInt(I32, s);
    Parsed(v, rest)
  }

  function GetI64(s: seq<Byte>): Parsed<Int64>
  {
    var (v, rest) :- ReadInt(I64, s);
    Parsed(v, rest)
  }

  function GetFloat(s: seq<Byte>): Parsed<Float>
  {
    var (v, rest) :- ReadInt(U32, s);
    Parsed(v, rest)
  }

  function AsSize(v: Int64): nat { if v < 0 then v + TWO64 else v }

  /** The length is read as `int64_t` and used as `size_t`. */
  function GetBlob(s: seq<Byte>): Parsed<seq<Byte>>
  {
    var (length, rest) :- GetI64(s);
    Take(rest, AsSize(length))
  }

  function GetExtendable(s: seq<Byte>): Parsed<ExtendableType>
  {
    var (name, s1) :- GetBlob(s);
    var (value, s2) :- GetI64(s1);
    Parsed(ExtendableType(name, value), s2)
  }

  function GetComponent(s: seq<Byte>): Parsed<PlaneLayoutComponent>
  {
    var (kind, s1) :- GetExtendable(s);
    var (offset, s2) :- GetI64(s1);
    var (size, s3) :- GetI64(s2);
    Parsed(PlaneLayoutComponent(kind, offset, size), s3)
  }

  /** The count of a vector. `reserve` takes it as a `size_t` and throws for a negative one,
      so no value comes out of such a stream. */
  function GetCount(s: seq<Byte>): Parsed<nat>
  {
    var (n, rest) :- GetI64(s);
    if n < 0 then Fail else Parsed(n, rest)
  }

  function GetPlane(s: seq<Byte>): Parsed<PlaneLayout>
  {
    var (n, s1) :- GetCount(s);
    var (components, s2) :- ReadList(GetComponent, s1, n);
    var (fields, s3) :- ReadList(GetI64, s2, 8);
    Parsed(PlaneOf(components, fields), s3)
  }

  function GetRect(s: seq<Byte>): Parsed<Rect>
  {
    var (fs, s1) :- ReadList(GetI32, s, 4);
    Parsed(RectOf(fs), s1)
  }

  function GetPayload(k: Kind, s: seq<Byte>): (p: Parsed<Value>)
    ensures p.Parsed? ==> k.Has(p.value) && !p.value.Absent()
  {
    match k
    case IntKind(t) =>
      var (n, rest) :- ReadInt(t, s);
      Parsed(Number(n), rest)
    case TextKind =>
      var (text, rest) :- GetBlob(s);
      Parsed(Text(text), rest)
    case ExtendableKind =>
      var (e, rest) :- GetExtendable(s);
      Parsed(Extendable(e), rest)
    case PlanesKind =>
      var (n, s1) :- GetCount(s);
      var (ps, rest) :- ReadList(GetPlane, s1, n);
      Parsed(Planes(ps), rest)
    case RectsKind =>
      var (n, s1) :- GetCount(s);
      var (rs, rest) :- ReadList(GetRect, s1, n);
      Parsed(Rects(rs), rest)
    case SmpteKind =>
      var (fs, rest) :- ReadList(GetFloat, s, 10);
      Parsed(Smpte(Some(SmpteOf(fs))), rest)
    case CtaKind =>
      var (fs, rest) :- ReadList(GetFloat, s, 2);
      Parsed(Cta(Some(Cta861_3(fs[0], fs[1]))), rest)
    case BufferKind =>
      var (bytes, rest) :- GetBlob(s);
      Parsed(Buffer(Some(bytes)), rest)
  }

  // ---- the laws of the elements ----

  lemma IntInverts(t: IntType, v: int, rest: seq<Byte>)
    requires t.InRange(v)
    ensures ReadInt(t, IntBytes(t, v) + rest) == Parsed(v, rest)
  {
    IntRoundTrip(t, v);
    assert (IntBytes(t, v) + rest)[..t.Width()] == IntBytes(t, v);
  }

  lemma IntIsCanonical(t: IntType, s: seq<Byte>)
    requires ReadInt(t, s).Parsed?
    ensures s == IntBytes(t, ReadInt(t, s).value) + ReadInt(t, s).rest
  {
    IntCanonical(t, s[..t.Width()]);
  }

  lemma IntExtends(t: IntType, s: seq<Byte>, more: seq<Byte>)
    requires ReadInt(t, s).Parsed?
    ensures ReadInt(t, s + more) == Parsed(ReadInt(t, s).value, ReadInt(t, s).rest + more)
  {
    assert (s + more)[..t.Width()] == s[..t.Width()];
    assert (s + more)[t.Width()..] == s[t.Width()..] + more;
  }

  lemma IntLists()
    ensures Inverts(GetI32, PutI32) && Inverts(GetI64, PutI64) && Inverts(GetFloat, PutFloat)
    ensures Extends(GetI32) && Extends(GetI64) && Extends(GetFloat)
    ensures Canonical(GetI32, PutI32) && Canonical(GetI64, PutI64) && Canonical(GetFloat, PutFloat)
    ensures Consumes(GetI32, 4) && Consumes(GetI64, 8)
  {
    forall v: Int32, t ensures GetI32(PutI32(v) + t) == Parsed(v, t) { IntInverts(I32, v, t); }
    forall v: Int64, t ensures GetI64(PutI64(v) + t) == Parsed(v, t) { IntInverts(I64, v, t); }
    forall v: Float, t ensures GetFloat(PutFloat(v) + t) == Parsed(v, t) { IntInverts(U32, v, t); }
    forall s, t | GetI32(s).Parsed? ensures GetI32(s + t) == Parsed(GetI32(s).value, GetI32(s).rest + t) {
      IntExtends(I32, s, t);
    }
    forall s, t | GetI64(s).Parsed? ensures GetI64(s + t) == Parsed(GetI64(s).value, GetI64(s).rest + t) {
      IntExtends(I64, s, t);
    }
    forall s, t | GetFloat(s).Parsed? ensures GetFloat(s + t) == Parsed(GetFloat(s).value, GetFloat(s).rest + t) {
      IntExtends(U32, s, t);
    }
    forall s | GetI32(s).Parsed? ensures s == PutI32(GetI32(s).value) + GetI32(s).rest { IntIsCanonical(I32, s); }
    forall s | GetI64(s).Parsed? ensures s == PutI64(GetI64(s).value) + GetI64(s).rest { IntIsCanonical(I64, s); }
    forall s | GetFloat(s).Parsed? ensures s == PutFloat(GetFloat(s).value) + GetFloat(s).rest {
      IntIsCanonical(U32, s);
    }
  }

  lemma BlobInverts(v: seq<Byte>, t: seq<Byte>)
    requires |PutBlob(v)| < TWO63
    ensures GetBlob(PutBlob(v) + t) == Parsed(v, t)
  {
    IntInverts(I64, |v|, v + t);
    assert PutBlob(v) + t == PutSize(|v|) + (v + t);
  }

  lemma BlobExtends(s: seq<Byte>, t: seq<Byte>)
    requires GetBlob(s).Parsed?
    ensures GetBlob(s + t) == Parsed(GetBlob(s).value, GetBlob(s).rest + t)
  {
    IntExtends(I64, s, t);
    var length, rest := AsSize(GetI64(s).value), GetI64(s).rest;
    assert (rest + t)[..length] == rest[..length];
    assert (rest + t)[length..] == rest[length..] + t;
  }

  lemma SizeOfLength(v: Int64)
    ensures PutSize(AsSize(v)) == PutI64(v)
  {
    assert AsSize(v) % 0x1_0000_0000_0000_0000 == v % 0x1_0000_0000_0000_0000;
  }

  lemma BlobCanonical(s: seq<Byte>)
    requires GetBlob(s).Parsed?
    ensures s == PutBlob(GetBlob(s).value) + GetBlob(s).rest
  {
    IntIsCanonical(I64, s);
    var length, rest := GetI64(s).value, GetI64(s).rest;
    var v := rest[..AsSize(length)];
    assert PutSize(|v|) == PutI64(length) by { SizeOfLength(length); }
    Assoc(PutSize(|v|), v, rest[|v|..]);
  }

  lemma ExtendableInverts(e: ExtendableType, t: seq<Byte>)
    requires |PutExtendable(e)| < TWO63
    ensures GetExtendable(PutExtendable(e) + t) == Parsed(e, t)
  {
    hide PutBlob, GetBlob, IntBytes;
    BlobInverts(e.name, PutI64(e.value) + t);
    IntInverts(I64, e.value, t);
    Assoc(PutBlob(e.name), PutI64(e.value), t);
  }

  lemma ExtendableExtends(s: seq<Byte>, t: seq<Byte>)
    requires GetExtendable(s).Parsed?
    ensures GetExtendable(s + t) == Parsed(GetExtendable(s).value, GetExtendable(s).rest + t)
  {
    BlobExtends(s, t);
    IntExtends(I64, GetBlob(s).rest, t);
  }

  lemma ExtendableCanonical(s: seq<Byte>)
    requires GetExtendable(s).Parsed?
    ensures s == PutExtendable(GetExtendable(s).value) + GetExtendable(s).rest
    ensures |GetExtendable(s).rest| + 16 <= |s|
  {
    BlobCanonical(s);
    IntIsCanonical(I64, GetBlob(s).rest);
    var e, rest := GetExtendable(s).value, GetExtendable(s).rest;
    Assoc(PutBlob(e.name), PutI64(e.value), rest);
  }

  lemma IntPairInverts(a: Int64, b: Int64, t: seq<Byte>)
    ensures var first := GetI64((PutI64(a) + PutI64(b)) + t);
            first == Parsed(a, PutI64(b) + t) && GetI64(first.rest) == Parsed(b, t)
  {
    Assoc(PutI64(a), PutI64(b), t);
    IntInverts(I64, a, PutI64(b) + t);
    IntInverts(I64, b, t);
  }

  lemma ComponentInverts(c: PlaneLayoutComponent, t: seq<Byte>)
    requires |PutComponent(c)| < TWO63
    ensures GetComponent(PutComponent(c) + t) == Parsed(c, t)
  {
    var offset, size := PutI64(c.offsetInBits), PutI64(c.sizeInBits);
    ExtendableInverts(c.kind, (offset + size) + t);
    Assoc(PutExtendable(c.kind), offset + size, t);
    IntPairInverts(c.offsetInBits, c.sizeInBits, t);
  }

  lemma ComponentExtends(s: seq<Byte>, t: seq<Byte>)
    requires GetComponent(s).Parsed?
    ensures GetComponent(s + t) == Parsed(GetComponent(s).value, GetComponent(s).rest + t)
  {
    ExtendableExtends(s, t);
    IntExtends(I64, GetExtendable(s).rest, t);
    IntExtends(I64, GetI64(GetExtendable(s).rest).rest, t);
  }

  lemma ComponentCanonical(s: seq<Byte>)
    requires GetComponent(s).Parsed?
    ensures s == PutComponent(GetComponent(s).value) + GetComponent(s).rest
    ensures |GetComponent(s).rest| + 32 <= |s|
  {
    ExtendableCanonical(s);
    var s1 := GetExtendable(s).rest;
    IntIsCanonical(I64, s1);
    IntIsCanonical(I64, GetI64(s1).rest);
    hide PutExtendable, GetExtendable, GetI64, PutI64;
    var c, rest := GetComponent(s).value, GetComponent(s).rest;
    Assoc(PutI64(c.offsetInBits), PutI64(c.sizeInBits), rest);
    Assoc(PutExtendable(c.kind), PutI64(c.offsetInBits) + PutI64(c.sizeInBits), rest);
  }

  lemma ComponentLists()
    ensures Inverts(GetComponent, PutComponent) && Extends(GetComponent)
    ensures Canonical(GetComponent, PutComponent) && Consumes(GetComponent, 32)
  {
    forall c, t | |PutComponent(c)| < TWO63 ensures GetComponent(PutComponent(c) + t) == Parsed(c, t) {
      ComponentInverts(c, t);
    }
    forall s, t | GetComponent(s).Parsed?
      ensures GetComponent(s + t) == Parsed(GetComponent(s).value, GetComponent(s).rest + t)
    {
      ComponentExtends(s, t);
    }
    forall s | GetComponent(s).Parsed?
      ensures s == PutComponent(GetComponent(s).value) + GetComponent(s).rest
      ensures |GetComponent(s).rest| + 32 <= |s|
    {
      ComponentCanonical(s);
    }
  }

  lemma PlaneInverts(p: PlaneLayout, t: seq<Byte>)
    requires |PutPlane(p)| < TWO63
    ensures GetPlane(PutPlane(p) + t) == Parsed(p, t)
  {
    hide ReadList, WriteList, IntBytes, ReadInt, PlaneFields, PlaneOf;
    var components, fields := WriteList(PutComponent, p.components), WriteList(PutI64, PlaneFields(p));
    PlaneIsItsFields(p);
    ComponentCount(p.components);
    IntInverts(I64, |p.components|, (components + fields) + t);
    Assoc(PutSize(|p.components|), components + fields, t);
    Assoc(components, fields, t);
    ComponentLists();
    ListInverts(GetComponent, PutComponent, p.components, fields + t);
    IntLists();
    ListInverts(GetI64, PutI64, PlaneFields(p), t);
  }

  lemma PlaneIsItsFields(p: PlaneLayout)
    ensures PlaneOf(p.components, PlaneFields(p)) == p
  {
  }

  lemma ComponentCount(cs: seq<PlaneLayoutComponent>)
    ensures |cs| <= |WriteList(PutComponent, cs)|
  {
    ListLength(PutComponent, 1, cs);
  }

  lemma PlaneExtends(s: seq<Byte>, t: seq<Byte>)
    requires GetPlane(s).Parsed?
    ensures GetPlane(s + t) == Parsed(GetPlane(s).value, GetPlane(s).rest + t)
  {
    IntLists();
    ComponentLists();
    IntExtends(I64, s, t);
    var n, s1 := GetCount(s).value, GetCount(s).rest;
    ListExtends(GetComponent, s1, n, t);
    ListExtends(GetI64, ReadList(GetComponent, s1, n).rest, 8, t);
  }

  lemma PlaneCanonical(s: seq<Byte>)
    requires GetPlane(s).Parsed?
    ensures s == PutPlane(GetPlane(s).value) + GetPlane(s).rest
    ensures |GetPlane(s).rest| + 72 <= |s|
  {
    hide ReadList, WriteList, PlaneFields, PlaneOf;
    var n, s1 := GetCount(s).value, GetCount(s).rest;
    PlaneBodyCanonical(s1, n);
    IntIsCanonical(I64, s);
    var p, rest := GetPlane(s).value, GetPlane(s).rest;
    var body := WriteList(PutComponent, p.components) + WriteList(PutI64, PlaneFields(p));
    Assoc(PutSize(|p.components|), body, rest);
  }

  lemma PlaneBodyCanonical(s: seq<Byte>, n: int)
    requires var cs := ReadList(GetComponent, s, n); cs.Parsed? && ReadList(GetI64, cs.rest, 8).Parsed?
    ensures var cs := ReadList(GetComponent, s, n);
            var fs := ReadList(GetI64, cs.rest, 8);
            && s == (WriteList(PutComponent, cs.value) + WriteList(PutI64, fs.value)) + fs.rest
            && |fs.rest| + 64 <= |s|
  {
    var cs := ReadList(GetComponent, s, n);
    var fs := ReadList(GetI64, cs.rest, 8);
    ComponentLists();
    ListCanonical(GetComponent, PutComponent, s, n);
    IntLists();
    ListCanonical(GetI64, PutI64, cs.rest, 8);
    ListConsumes(GetI64, 8, cs.rest, 8);
    Assoc(WriteList(PutComponent, cs.value), WriteList(PutI64, fs.value), fs.rest);
  }

  lemma PlaneLists()
    ensures Inverts(GetPlane, PutPlane) && Extends(GetPlane)
    ensures Canonical(GetPlane, PutPlane) && Consumes(GetPlane, 72)
  {
    forall p, t | |PutPlane(p)| < TWO63 ensures GetPlane(PutPlane(p) + t) == Parsed(p, t) { PlaneInverts(p, t); }
    forall s, t | GetPlane(s).Parsed? ensures GetPlane(s + t) == Parsed(GetPlane(s).value, GetPlane(s).rest + t) {
      PlaneExtends(s, t);
    }
    forall s | GetPlane(s).Parsed?
      ensures s == PutPlane(GetPlane(s).value) + GetPlane(s).rest
      ensures |GetPlane(s).rest| + 72 <= |s|
    {
      PlaneCanonical(s);
    }
  }

  lemma RectInverts(r: Rect, t: seq<Byte>)
    ensures GetRect(PutRect(r) + t) == Parsed(r, t)
  {
    IntLists();
    FieldsLength(PutI32, 4, RectFields(r));
    ListInverts(GetI32, PutI32, RectFields(r), t);
  }

  lemma {:induction false} FieldsLength<T>(write: T -> seq<Byte>, width: nat, fs: seq<T>)
    requires forall f <- fs :: |write(f)| == width
    ensures |WriteList(write, fs)| == |fs| * width
  {
    if fs != [] {
      FieldsLength(write, width, fs[1..]);
      var n := |fs[1..]|;
      assert |fs| == n + 1 && (n + 1) * width == n * width + width;
      assert |write(fs[0])| == width;
    }
  }

  lemma RectExtends(s: seq<Byte>, t: seq<Byte>)
    requires GetRect(s).Parsed?
    ensures GetRect(s + t) == Parsed(GetRect(s).value, GetRect(s).rest + t)
  {
    IntLists();
    ListExtends(GetI32, s, 4, t);
  }

  lemma RectCanonical(s: seq<Byte>)
    requires GetRect(s).Parsed?
    ensures s == PutRect(GetRect(s).value) + GetRect(s).rest
    ensures |GetRect(s).rest| + 16 <= |s|
  {
    I32sCanonical(s, 4);
  }

  lemma I32sCanonical(s: seq<Byte>, n: nat)
    requires ReadList(GetI32, s, n).Parsed?
    ensures s == WriteList(PutI32, ReadList(GetI32, s, n).value) + ReadList(GetI32, s, n).rest
    ensures |ReadList(GetI32, s, n).rest| + 4 * n <= |s|
  {
    IntLists();
    ListCanonical(GetI32, PutI32, s, n);
    ListConsumes(GetI32, 4, s, n);
  }

  lemma RectLists()
    ensures Inverts(GetRect, PutRect) && Extends(GetRect)
    ensures Canonical(GetRect, PutRect) && Consumes(GetRect, 16)
  {
    forall r, t ensures GetRect(PutRect(r) + t) == Parsed(r, t) { RectInverts(r, t); }
    forall s, t | GetRect(s).Parsed? ensures GetRect(s + t) == Parsed(GetRect(s).value, GetRect(s).rest + t) {
      RectExtends(s, t);
    }
    forall s | GetRect(s).Parsed?
      ensures s == PutRect(GetRect(s).value) + GetRect(s).rest
      ensures |GetRect(s).rest| + 16 <= |s|
    {
      RectCanonical(s);
    }
  }
}
