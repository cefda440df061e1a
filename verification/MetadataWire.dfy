/** Where things lie in the encodings, by number and without the functions that make them: which
    field is at which byte, and which comes before which. */
module MetadataWire {
  import opened Bytes
  import opened Options
  import opened Parsing
  import opened MetadataFormat
  import opened MetadataCodec

  lemma {:induction false} WordOfList(fs: seq<Int64>, i: nat)
    requires i < |fs|
    ensures 8 * i + 8 <= |WriteList(PutI64, fs)|
    ensures WriteList(PutI64, fs)[8 * i..8 * i + 8] == PutI64(fs[i])
  {
    var tail := WriteList(PutI64, fs[1..]);
    if i > 0 {
      WordOfList(fs[1..], i - 1);
      assert WriteList(PutI64, fs)[8 * i..8 * i + 8] == tail[8 * (i - 1)..8 * (i - 1) + 8];
    }
  }

  /** On the wire a plane is its component count, the components, and then eight 64-bit
      words in this order. */
  lemma {:induction false} PlaneOnWire(p: PlaneLayout, i: nat)
    requires i < 8 && |PutPlane(p)| <= INT32_MAX
    ensures var at := 8 + ComponentsSize(p.components) + 8 * i;
            && |PutPlane(p)| == 72 + ComponentsSize(p.components)
            && IntOf(I64, PutPlane(p)[..8]) == |p.components|
            && IntOf(I64, PutPlane(p)[at..at + 8]) ==
                 match i
                 case 0 => p.offsetInBytes
                 case 1 => p.sampleIncrementInBits
                 case 2 => p.strideInBytes
                 case 3 => p.widthInSamples
                 case 4 => p.heightInSamples
                 case 5 => p.totalSizeInBytes
                 case 6 => p.horizontalSubsampling
                 case _ => p.verticalSubsampling
  {
    hide IntBytes, IntOf, WriteList;
    var fields := WriteList(PutI64, PlaneFields(p));
    var at := 8 + ComponentsSize(p.components) + 8 * i;
    ComponentsLength(p.components);
    FieldsLength(PutI64, 8, PlaneFields(p));
    ComponentCount(p.components);
    WordOfList(PlaneFields(p), i);
    assert PutPlane(p)[at..at + 8] == fields[8 * i..8 * i + 8];
    assert PutPlane(p)[..8] == PutSize(|p.components|);
    IntRoundTrip(I64, |p.components|);
    IntRoundTrip(I64, PlaneFields(p)[i]);
  }

  lemma {:induction false} ElementOfList<T>(write: T -> seq<Byte>, width: nat, fs: seq<T>, i: nat)
    requires i < |fs| && (forall f <- fs :: |write(f)| == width)
    ensures 0 <= width * i <= width * i + width <= |WriteList(write, fs)|
    ensures WriteList(write, fs)[width * i..width * i + width] == write(fs[i])
  {
    var tail := WriteList(write, fs[1..]);
    FieldsLength(write, width, fs);
    FieldsLength(write, width, fs[1..]);
    assert |write(fs[0])| == width;
    if i == 0 {
      assert width * i == 0;
    } else {
      ElementOfList(write, width, fs[1..], i - 1);
      assert width * i == width * (i - 1) + width;
      assert WriteList(write, fs)[width * i..width * i + width] == tail[width * (i - 1)..width * (i - 1) + width];
    }
  }

  /** A list lies in its order. */
  lemma {:induction false} ListInOrder<T>(write: T -> seq<Byte>, vs: seq<T>, i: nat)
    requires i < |vs|
    ensures WriteList(write, vs) == WriteList(write, vs[..i]) + write(vs[i]) + WriteList(write, vs[i + 1..])
  {
    if i == 0 {
      assert vs[..0] == [];
    } else {
      ListInOrder(write, vs[1..], i - 1);
      assert vs[1..][..i - 1] == vs[..i][1..] && vs[1..][i..] == vs[i + 1..];
    }
  }

  /** A header is the length of its name, the name, and the type's number. */
  lemma {:induction false} HeaderOnWire(t: Int64, i: nat)
    requires i < 53
    ensures |Header(t)| == 69 && IntOf(I64, Header(t)[..8]) == 53 && IntOf(I64, Header(t)[61..69]) == t
    ensures var name := "android.hardware.graphics.common.StandardMetadataType";
            |name| == 53 && Header(t)[8 + i] == name[i] as int % 0x100
  {
    hide IntBytes, IntOf;
    IntRoundTrip(I64, 53);
    IntRoundTrip(I64, t);
    assert Header(t)[..8] == PutSize(53);
    assert Header(t)[61..69] == PutI64(t);
    assert Header(t)[8 + i] == HEADER_NAME[i];
  }

  /** An encoding is its header and then its payload, and nothing for an absent optional. */
  lemma EncodingOnWire(t: Int64, k: Kind, v: Value)
    requires k.Has(v)
    ensures v.Absent() ==> Encode(t, k, v) == []
    ensures !v.Absent() ==>
              && |Encode(t, k, v)| >= 69
              && Encode(t, k, v)[..69] == Header(t) && Encode(t, k, v)[69..] == Payload(k, v)
  {
    HeaderInverts(t, []);
  }

  /** A rectangle is left, top, right, bottom. */
  lemma {:induction false} RectOnWire(r: Rect)
    ensures |PutRect(r)| == 16
    ensures IntOf(I32, PutRect(r)[0..4]) == r.left
    ensures IntOf(I32, PutRect(r)[4..8]) == r.top
    ensures IntOf(I32, PutRect(r)[8..12]) == r.right
    ensures IntOf(I32, PutRect(r)[12..16]) == r.bottom
  {
    hide IntBytes, IntOf, WriteList;
    var fs := RectFields(r);
    FieldsLength(PutI32, 4, fs);
    ElementOfList(PutI32, 4, fs, 0);
    ElementOfList(PutI32, 4, fs, 1);
    ElementOfList(PutI32, 4, fs, 2);
    ElementOfList(PutI32, 4, fs, 3);
    IntRoundTrip(I32, r.left);
    IntRoundTrip(I32, r.top);
    IntRoundTrip(I32, r.right);
    IntRoundTrip(I32, r.bottom);
  }

  /** A list of rectangles is their number and then each in turn. */
  lemma {:induction false} RectsOnWire(rs: seq<Rect>, i: nat)
    requires i < |rs| && |rs| < TWO63
    ensures var p := Payload(RectsKind, Rects(rs));
            && 8 + 16 * i + 16 <= |p|
            && IntOf(I64, p[..8]) == |rs| && p[8 + 16 * i..24 + 16 * i] == PutRect(rs[i])
  {
    hide IntBytes, IntOf;
    forall r: Rect ensures |PutRect(r)| == 16 { FieldsLength(PutI32, 4, RectFields(r)); }
    hide PutRect;
    ElementOfList(PutRect, 16, rs, i);
    IntRoundTrip(I64, |rs|);
    var p := Payload(RectsKind, Rects(rs));
    assert p[..8] == PutSize(|rs|);
    assert p[8 + 16 * i..24 + 16 * i] == WriteList(PutRect, rs)[16 * i..16 * i + 16];
  }

  /** A list of planes likewise: a plane lies behind the number of planes and the planes before
      it. */
  lemma {:induction false} PlanesOnWire(ps: seq<PlaneLayout>, i: nat)
    requires i < |ps| && |ps| < TWO63
    ensures var p := Payload(PlanesKind, Planes(ps));
            var at := 8 + PlanesSize(ps[..i]);
            && at + |PutPlane(ps[i])| <= |p|
            && IntOf(I64, p[..8]) == |ps| && p[at..at + |PutPlane(ps[i])|] == PutPlane(ps[i])
  {
    hide IntBytes, IntOf, PutPlane, WriteList;
    ListInOrder(PutPlane, ps, i);
    PlanesLength(ps[..i]);
    IntRoundTrip(I64, |ps|);
    var p := Payload(PlanesKind, Planes(ps));
    assert p[..8] == PutSize(|ps|);
    var before := WriteList(PutPlane, ps[..i]);
    assert p[8..] == before + PutPlane(ps[i]) + WriteList(PutPlane, ps[i + 1..]);
    assert p[8 + |before|..8 + |before| + |PutPlane(ps[i])|]
        == p[8..][|before|..|before| + |PutPlane(ps[i])|];
  }

  /** Within a plane, the components lie in their order between the count and the words. */
  lemma {:induction false} ComponentInPlane(p: PlaneLayout, i: nat)
    requires i < |p.components|
    ensures var at := 8 + ComponentsSize(p.components[..i]);
            && at + |PutComponent(p.components[i])| <= |PutPlane(p)|
            && PutPlane(p)[at..at + |PutComponent(p.components[i])|] == PutComponent(p.components[i])
  {
    hide IntBytes, PutComponent, WriteList;
    var cs := p.components;
    ListInOrder(PutComponent, cs, i);
    ComponentsLength(cs[..i]);
    var before, here := WriteList(PutComponent, cs[..i]), PutComponent(cs[i]);
    var after := WriteList(PutComponent, cs[i + 1..]) + WriteList(PutI64, PlaneFields(p));
    assert PutPlane(p)[8..] == before + here + after;
    assert PutPlane(p)[8 + |before|..8 + |before| + |here|] == PutPlane(p)[8..][|before|..|before| + |here|];
  }

  /** Numbers, strings, extendable types and byte vectors are their own payload. */
  lemma ScalarOnWire(n: int, t: IntType, text: seq<Byte>, e: ExtendableType)
    requires t.InRange(n)
    ensures IntOf(t, Payload(IntKind(t), Number(n))) == n
    ensures |Payload(IntKind(t), Number(n))| == if t == I32 || t == U32 then 4 else 8
    ensures Payload(TextKind, Text(text)) == PutBlob(text) == Payload(BufferKind, Buffer(Some(text)))
    ensures Payload(ExtendableKind, Extendable(e)) == PutExtendable(e)
  {
    IntRoundTrip(t, n);
  }

  /** A string or a byte vector is its length and then its bytes. */
  lemma BlobOnWire(s: seq<Byte>)
    requires |s| < TWO63
    ensures |PutBlob(s)| == 8 + |s| && IntOf(I64, PutBlob(s)[..8]) == |s| && PutBlob(s)[8..] == s
  {
    IntRoundTrip(I64, |s|);
    assert PutBlob(s)[..8] == PutSize(|s|);
  }

  /** An extendable type is its name and then its value. */
  lemma ExtendableOnWire(e: ExtendableType)
    requires |e.name| < TWO63
    ensures var p := PutExtendable(e);
            && |p| == 16 + |e.name|
            && IntOf(I64, p[..8]) == |e.name| && p[8..8 + |e.name|] == e.name
            && IntOf(I64, p[8 + |e.name|..]) == e.value
  {
    hide IntBytes, IntOf;
    IntRoundTrip(I64, |e.name|);
    IntRoundTrip(I64, e.value);
    assert PutExtendable(e)[..8] == PutSize(|e.name|);
    assert PutExtendable(e)[8 + |e.name|..] == PutI64(e.value);
  }

  /** A component is its type, then its offset and its size in bits. */
  lemma ComponentOnWire(c: PlaneLayoutComponent)
    requires |c.kind.name| < TWO63
    ensures var p, n := PutComponent(c), 16 + |c.kind.name|;
            && |p| == n + 16 && p[..n] == PutExtendable(c.kind)
            && IntOf(I64, p[n..n + 8]) == c.offsetInBits
            && IntOf(I64, p[n + 8..]) == c.sizeInBits
  {
    hide IntBytes, IntOf;
    var n := 16 + |c.kind.name|;
    IntRoundTrip(I64, c.offsetInBits);
    IntRoundTrip(I64, c.sizeInBits);
    assert PutComponent(c)[n..n + 8] == PutI64(c.offsetInBits);
    assert PutComponent(c)[n + 8..] == PutI64(c.sizeInBits);
  }

  lemma {:induction false} FloatsOnWire(fs: seq<Float>, i: nat)
    requires i < |fs|
    ensures |WriteList(PutFloat, fs)| == 4 * |fs|
    ensures IntOf(U32, WriteList(PutFloat, fs)[4 * i..4 * i + 4]) == fs[i]
  {
    hide IntBytes, IntOf, WriteList;
    FieldsLength(PutFloat, 4, fs);
    ElementOfList(PutFloat, 4, fs, i);
    IntRoundTrip(U32, fs[i]);
  }

  /** SMPTE 2086: the three primaries, red, green, blue, then the white point, each x before y,
      then the maximum and the minimum luminance. */
  lemma {:induction false} Smpte2086OnWire(s: Smpte2086, i: nat)
    requires i < 10
    ensures var p := Payload(SmpteKind, Smpte(Some(s)));
            && |p| == 40
            && IntOf(U32, p[4 * i..4 * i + 4]) ==
                 match i
                 case 0 => s.primaryRed.x
                 case 1 => s.primaryRed.y
                 case 2 => s.primaryGreen.x
                 case 3 => s.primaryGreen.y
                 case 4 => s.primaryBlue.x
                 case 5 => s.primaryBlue.y
                 case 6 => s.whitePoint.x
                 case 7 => s.whitePoint.y
                 case 8 => s.maxLuminance
                 case _ => s.minLuminance
  {
    hide IntBytes, IntOf, WriteList;
    FloatsOnWire(SmpteFields(s), i);
  }

  /** CTA 861.3: the maximum content light level, then the maximum frame average. */
  lemma {:induction false} Cta8613OnWire(c: Cta861_3)
    ensures var p := Payload(CtaKind, Cta(Some(c)));
            && |p| == 8
            && IntOf(U32, p[0..4]) == c.maxContentLightLevel
            && IntOf(U32, p[4..8]) == c.maxFrameAverageLightLevel
  {
    hide IntBytes, IntOf, WriteList;
    var p := Payload(CtaKind, Cta(Some(c)));
    FloatsOnWire(CtaFields(c), 0);
    FloatsOnWire(CtaFields(c), 1);
    assert p[0..4] == p[4 * 0..4 * 0 + 4] && p[4..8] == p[4 * 1..4 * 1 + 4];
  }
}
