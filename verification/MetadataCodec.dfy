/** `MetadataValue<HEADER, T>::encode` and `decode` as functions, for every header value and
    every value type, and the theorems about them. */
module MetadataCodec {
  import opened Bytes
  import opened Options
  import opened Parsing
  import opened MetadataFormat

  function Ascii(s: string): (b: seq<Byte>)
    ensures |b| == |s|
  {
    seq(|s|, i requires 0 <= i < |s| => (s[i] as int) % 256)
  }

  const HEADER_TEXT: string := "android.hardware.graphics.common.StandardMetadataType"
  const HEADER_NAME: seq<Byte> := Ascii(HEADER_TEXT)
  const HEADER_SIZE: nat := 69

  function Header(t: Int64): seq<Byte> { PutBlob(HEADER_NAME) + PutI64(t) }

  function CheckHeader(t: Int64, s: seq<Byte>): Parsed<()>
  {
    var (name, s1) :- GetBlob(s);
    var (value, s2) :- GetI64(s1);
    if name == HEADER_NAME && value == t then Parsed((), s2) else Fail
  }

  /** What `encode` produces under header value `t` for a value of kind `k`. */
  function Encode(t: Int64, k: Kind, v: Value): seq<Byte>
    requires k.Has(v)
  {
    if v.Absent() then [] else Header(t) + Payload(k, v)
  }

  /** What `decode` reads, with what it leaves unread. */
  function Read(t: Int64, k: Kind, s: seq<Byte>): Parsed<Value>
  {
    if k.Optional() && s == [] then Parsed(k.AbsentValue(), [])
    else
      var (_, s1) :- CheckHeader(t, s);
      GetPayload(k, s1)
  }

  function Decode(t: Int64, k: Kind, s: seq<Byte>): Option<Value>
  {
    match Read(t, k, s)
    case Fail => None
    case Parsed(v, _) => Some(v)
  }

  // ---- payloads ----

  lemma {:induction false} PayloadInverts(k: Kind, v: Value, t: seq<Byte>)
    requires k.Has(v) && !v.Absent() && |Payload(k, v)| < TWO63
    ensures GetPayload(k, Payload(k, v) + t) == Parsed(v, t)
  {
    match v
    case Number(n) => IntInverts(k.of, n, t);
    case Text(s) => BlobInverts(s, t);
    case Extendable(e) => ExtendableInverts(e, t);
    case Planes(ps) =>
      PlaneLists();
      CountedInverts(GetPlane, PutPlane, ps, t);
    case Rects(rs) =>
      RectLists();
      CountedInverts(GetRect, PutRect, rs, t);
    case Smpte(o) => FloatsInvert(SmpteFields(o.value), t);
    case Cta(o) => FloatsInvert(CtaFields(o.value), t);
    case Buffer(o) => BlobInverts(o.value, t);
  }

  /** A count followed by that many elements, none of which is empty. */
  lemma {:induction false} CountedInverts<T(!new)>(read: seq<Byte> -> Parsed<T>, write: T -> seq<Byte>, vs: seq<T>, t: seq<Byte>)
    requires Inverts(read, write) && Consumes(read, 1)
    requires |PutSize(|vs|) + WriteList(write, vs)| < TWO63
    ensures var n := GetCount((PutSize(|vs|) + WriteList(write, vs)) + t);
            n.Parsed? && n.value == |vs| && ReadList(read, n.rest, |vs|) == Parsed(vs, t)
  {
    ListInverts(read, write, vs, t);
    ListConsumes(read, 1, WriteList(write, vs) + t, |vs|);
    Assoc(PutSize(|vs|), WriteList(write, vs), t);
    IntInverts(I64, |vs|, WriteList(write, vs) + t);
  }

  lemma {:induction false} FloatsInvert(fs: seq<Float>, t: seq<Byte>)
    requires |WriteList(PutFloat, fs)| < TWO63
    ensures ReadList(GetFloat, WriteList(PutFloat, fs) + t, |fs|) == Parsed(fs, t)
  {
    IntLists();
    ListInverts(GetFloat, PutFloat, fs, t);
  }

  lemma {:induction false} PayloadExtends(k: Kind, s: seq<Byte>, t: seq<Byte>)
    requires GetPayload(k, s).Parsed?
    ensures GetPayload(k, s + t) == Parsed(GetPayload(k, s).value, GetPayload(k, s).rest + t)
  {
    match k
    case IntKind(i) => IntExtends(i, s, t);
    case TextKind => BlobExtends(s, t);
    case ExtendableKind => ExtendableExtends(s, t);
    case PlanesKind =>
      IntExtends(I64, s, t);
      PlaneLists();
      ListExtends(GetPlane, GetCount(s).rest, GetCount(s).value, t);
    case RectsKind =>
      IntExtends(I64, s, t);
      RectLists();
      ListExtends(GetRect, GetCount(s).rest, GetCount(s).value, t);
    case SmpteKind =>
      IntLists();
      ListExtends(GetFloat, s, 10, t);
    case CtaKind =>
      IntLists();
      ListExtends(GetFloat, s, 2, t);
    case BufferKind => BlobExtends(s, t);
  }

  lemma {:induction false} CountedCanonical<T(!new)>(read: seq<Byte> -> Parsed<T>, write: T -> seq<Byte>, s: seq<Byte>)
    requires Canonical(read, write)
    requires GetCount(s).Parsed? && ReadList(read, GetCount(s).rest, GetCount(s).value).Parsed?
    ensures var n := GetCount(s);
            var vs := ReadList(read, n.rest, n.value);
            s == (PutSize(|vs.value|) + WriteList(write, vs.value)) + vs.rest
  {
    var n := GetCount(s);
    var vs := ReadList(read, n.rest, n.value);
    IntIsCanonical(I64, s);
    ListCanonical(read, write, n.rest, n.value);
    Assoc(PutSize(|vs.value|), WriteList(write, vs.value), vs.rest);
  }

  lemma {:induction false} PayloadCanonical(k: Kind, s: seq<Byte>)
    requires GetPayload(k, s).Parsed?
    ensures s == Payload(k, GetPayload(k, s).value) + GetPayload(k, s).rest
  {
    match k
    case IntKind(i) => IntIsCanonical(i, s);
    case TextKind => BlobCanonical(s);
    case ExtendableKind => ExtendableCanonical(s);
    case PlanesKind => PlanesPayloadCanonical(s);
    case RectsKind => RectsPayloadCanonical(s);
    case SmpteKind => SmptePayloadCanonical(s);
    case CtaKind => CtaPayloadCanonical(s);
    case BufferKind => BlobCanonical(s);
  }

  lemma {:induction false} PlanesPayloadCanonical(s: seq<Byte>)
    requires GetPayload(PlanesKind, s).Parsed?
    ensures s == Payload(PlanesKind, GetPayload(PlanesKind, s).value) + GetPayload(PlanesKind, s).rest
  {
    hide ReadList, WriteList, GetPlane, PutPlane;
    PlaneLists();
    CountedCanonical(GetPlane, PutPlane, s);
  }

  lemma {:induction false} RectsPayloadCanonical(s: seq<Byte>)
    requires GetPayload(RectsKind, s).Parsed?
    ensures s == Payload(RectsKind, GetPayload(RectsKind, s).value) + GetPayload(RectsKind, s).rest
  {
    hide ReadList, WriteList, GetRect, PutRect;
    RectLists();
    CountedCanonical(GetRect, PutRect, s);
  }

  lemma {:induction false} SmptePayloadCanonical(s: seq<Byte>)
    requires GetPayload(SmpteKind, s).Parsed?
    ensures s == Payload(SmpteKind, GetPayload(SmpteKind, s).value) + GetPayload(SmpteKind, s).rest
  {
    hide ReadList, WriteList;
    FloatsCanonical(s, 10);
  }

  lemma {:induction false} CtaPayloadCanonical(s: seq<Byte>)
    requires GetPayload(CtaKind, s).Parsed?
    ensures s == Payload(CtaKind, GetPayload(CtaKind, s).value) + GetPayload(CtaKind, s).rest
  {
    hide ReadList, WriteList;
    FloatsCanonical(s, 2);
    assert CtaFields(GetPayload(CtaKind, s).value.cta.value) == ReadList(GetFloat, s, 2).value;
  }

  lemma {:induction false} FloatsCanonical(s: seq<Byte>, n: nat)
    requires ReadList(GetFloat, s, n).Parsed?
    ensures s == WriteList(PutFloat, ReadList(GetFloat, s, n).value) + ReadList(GetFloat, s, n).rest
  {
    IntLists();
    ListCanonical(GetFloat, PutFloat, s, n);
  }

  // ---- headers ----

  lemma {:induction false} HeaderInverts(t: Int64, rest: seq<Byte>)
    ensures CheckHeader(t, Header(t) + rest) == Parsed((), rest)
    ensures |Header(t)| == HEADER_SIZE
  {
    Assoc(PutBlob(HEADER_NAME), PutI64(t), rest);
    BlobInverts(HEADER_NAME, PutI64(t) + rest);
    IntInverts(I64, t, rest);
  }

  lemma {:induction false} HeaderExtends(t: Int64, s: seq<Byte>, more: seq<Byte>)
    requires CheckHeader(t, s).Parsed?
    ensures CheckHeader(t, s + more) == Parsed((), CheckHeader(t, s).rest + more)
  {
    BlobExtends(s, more);
    IntExtends(I64, GetBlob(s).rest, more);
  }

  lemma {:induction false} HeaderCanonical(t: Int64, s: seq<Byte>)
    requires CheckHeader(t, s).Parsed?
    ensures s == Header(t) + CheckHeader(t, s).rest
  {
    BlobCanonical(s);
    IntIsCanonical(I64, GetBlob(s).rest);
    Assoc(PutBlob(HEADER_NAME), PutI64(t), CheckHeader(t, s).rest);
  }

  // ---- theorems ----

  /** Round trip: whatever follows, decoding an encoding gives the value back and consumes
      exactly the encoding. An absent optional is the empty input. */
  lemma {:induction false} RoundTrip(t: Int64, k: Kind, v: Value, tail: seq<Byte>)
    requires k.Has(v) && |Encode(t, k, v)| <= INT32_MAX
    requires v.Absent() ==> tail == []
    ensures Read(t, k, Encode(t, k, v) + tail) == Parsed(v, tail)
    ensures Decode(t, k, Encode(t, k, v) + tail) == Some(v)
  {
    if !v.Absent() {
      var payload := Payload(k, v);
      HeaderInverts(t, payload + tail);
      PayloadInverts(k, v, tail);
      Assoc(Header(t), payload, tail);
    }
  }

  /** Canonical decoding: re-encoding a decoded value gives exactly the bytes that were
      consumed. */
  lemma {:induction false} CanonicalDecoding(t: Int64, k: Kind, s: seq<Byte>)
    requires Read(t, k, s).Parsed?
    ensures k.Has(Read(t, k, s).value)
    ensures s == Encode(t, k, Read(t, k, s).value) + Read(t, k, s).rest
  {
    if s != [] {
      var s1 := CheckHeader(t, s).rest;
      var v, rest := Read(t, k, s).value, Read(t, k, s).rest;
      HeaderCanonical(t, s);
      PayloadCanonical(k, s1);
      Assoc(Header(t), Payload(k, v), rest);
    } else {
      EmptyInput(t, k);
    }
  }

  lemma {:induction false} EmptyInput(t: Int64, k: Kind)
    ensures Read(t, k, []) == if k.Optional() then Parsed(k.AbsentValue(), []) else Fail
  {
    assert GetI64([]).Fail?;
  }

  /** The decoder accepts the encodings, with anything behind them, and nothing else; only
      what stands for an absent optional has nothing behind it. */
  lemma {:induction false} AcceptsExactlyEncodings(t: Int64, k: Kind, s: seq<Byte>, v: Value)
    requires |s| <= INT32_MAX
    ensures Decode(t, k, s) == Some(v) <==>
              k.Has(v) && Encode(t, k, v) <= s && (v.Absent() ==> s == [])
  {
    if Decode(t, k, s) == Some(v) {
      CanonicalDecoding(t, k, s);
    } else if k.Has(v) && Encode(t, k, v) <= s && (v.Absent() ==> s == []) {
      var tail := s[|Encode(t, k, v)|..];
      assert s == Encode(t, k, v) + tail;
      RoundTrip(t, k, v, tail);
    }
  }

  lemma {:induction false} NegativeCount(n: Int64, rest: seq<Byte>)
    requires n < 0
    ensures GetCount(PutI64(n) + rest).Fail?
  {
    IntInverts(I64, n, rest);
  }

  lemma {:induction false} NegativeComponentCount(planes: Int64, n: Int64, rest: seq<Byte>)
    requires n < 0 < planes
    ensures GetPayload(PlanesKind, PutI64(planes) + (PutI64(n) + rest)).Fail?
  {
    hide IntBytes, ReadInt;
    IntInverts(I64, planes, PutI64(n) + rest);
    NegativeCount(n, rest);
  }

  /** A negative number of planes, of components or of rectangles gives no value, whatever
      else the stream holds. */
  lemma {:induction false} NegativeCountFails(t: Int64, n: Int64, planes: Int64, rest: seq<Byte>)
    requires n < 0 < planes
    ensures Decode(t, PlanesKind, Header(t) + (PutI64(n) + rest)) == None
    ensures Decode(t, RectsKind, Header(t) + (PutI64(n) + rest)) == None
    ensures Decode(t, PlanesKind, Header(t) + (PutI64(planes) + (PutI64(n) + rest))) == None
  {
    hide Header, CheckHeader, IntBytes, ReadList;
    HeaderInverts(t, PutI64(n) + rest);
    NegativeCount(n, rest);
    HeaderInverts(t, PutI64(planes) + (PutI64(n) + rest));
    NegativeComponentCount(planes, n, rest);
  }

  /** No two inputs that are consumed to their last byte decode to the same value. */
  lemma {:induction false} DecodingIsInjective(t: Int64, k: Kind, s: seq<Byte>, s': seq<Byte>)
    requires Read(t, k, s).Parsed? && Read(t, k, s).rest == []
    requires Read(t, k, s').Parsed? && Read(t, k, s').rest == []
    requires Read(t, k, s).value == Read(t, k, s').value
    ensures s == s'
  {
    CanonicalDecoding(t, k, s);
    CanonicalDecoding(t, k, s');
  }

  /** Appending bytes behind a readable, non-empty input only adds to what is left over. */
  lemma {:induction false} ReadExtends(t: Int64, k: Kind, s: seq<Byte>, more: seq<Byte>)
    requires s != [] && Read(t, k, s).Parsed?
    ensures Read(t, k, s + more) == Parsed(Read(t, k, s).value, Read(t, k, s).rest + more)
  {
    HeaderExtends(t, s, more);
    PayloadExtends(k, CheckHeader(t, s).rest, more);
  }

  /** Prefix code: a truncated encoding never decodes, except that the empty input of an
      optional type means "absent". */
  lemma {:induction false} TruncationFails(t: Int64, k: Kind, v: Value, p: seq<Byte>)
    requires k.Has(v) && |Encode(t, k, v)| <= INT32_MAX
    requires p < Encode(t, k, v)
    requires k.Optional() ==> p != []
    ensures Decode(t, k, p) == None
  {
    EmptyInput(t, k);
    var whole := Encode(t, k, v);
    if Read(t, k, p).Parsed? {
      var more := whole[|p|..];
      assert p + more == whole == whole + [];
      ReadExtends(t, k, p, more);
      RoundTrip(t, k, v, []);
      assert false;
    }
  }

  /** A stream with one header value is refused by every decoder of another one. */
  lemma {:induction false} WrongTypeFails(t: Int64, k: Kind, u: Int64, k': Kind, v: Value, tail: seq<Byte>)
    requires k.Has(v) && !v.Absent()
    requires u != t
    ensures Decode(u, k', Encode(t, k, v) + tail) == None
  {
    var payload := Payload(k, v);
    Assoc(Header(t), payload, tail);
    Assoc(PutBlob(HEADER_NAME), PutI64(t), payload + tail);
    BlobInverts(HEADER_NAME, PutI64(t) + (payload + tail));
    IntInverts(I64, t, payload + tail);
  }

  // ---- loop bounds and sizes ----

  /** However many planes, components or rectangles a stream claims, the loops stop after
      as many turns as there are whole elements in the bytes, plus one. */
  lemma {:induction false} DecodeLoopsBounded(s: seq<Byte>, n: int)
    ensures Turns(GetPlane, s, n) <= |s| / 72 + 1
    ensures Turns(GetComponent, s, n) <= |s| / 32 + 1
    ensures Turns(GetRect, s, n) <= |s| / 16 + 1
  {
    PlaneLists();
    ComponentLists();
    RectLists();
    TurnsBounded(GetPlane, 72, s, n);
    TurnsBounded(GetComponent, 32, s, n);
    TurnsBounded(GetRect, 16, s, n);
  }

  /** Independent account of the encoded size of a plane list. */
  function PlanesSize(ps: seq<PlaneLayout>): nat
  {
    if ps == [] then 0 else 72 + ComponentsSize(ps[0].components) + PlanesSize(ps[1..])
  }

  function ComponentsSize(cs: seq<PlaneLayoutComponent>): nat
  {
    if cs == [] then 0 else 32 + |cs[0].kind.name| + ComponentsSize(cs[1..])
  }

  lemma {:induction false} ComponentsLength(cs: seq<PlaneLayoutComponent>)
    ensures |WriteList(PutComponent, cs)| == ComponentsSize(cs)
  {
    if cs != [] {
      ComponentsLength(cs[1..]);
    }
  }

  lemma {:induction false} PlanesLength(ps: seq<PlaneLayout>)
    ensures |WriteList(PutPlane, ps)| == PlanesSize(ps)
  {
    if ps != [] {
      ComponentsLength(ps[0].components);
      FieldsLength(PutI64, 8, PlaneFields(ps[0]));
      PlanesLength(ps[1..]);
    }
  }

  /** The sizes the encoders report. */
  lemma {:induction false} EncodedSize(t: Int64, k: Kind, v: Value)
    requires k.Has(v) && !v.Absent()
    ensures |Encode(t, k, v)| == HEADER_SIZE + match v
              case Number(_) => k.of.Width()
              case Text(s) => 8 + |s|
              case Extendable(e) => 16 + |e.name|
              case Planes(ps) => 8 + PlanesSize(ps)
              case Rects(rs) => 8 + 16 * |rs|
              case Smpte(_) => 40
              case Cta(_) => 8
              case Buffer(o) => 8 + |o.value|
  {
    HeaderInverts(t, []);
    match v
    case Planes(ps) => PlanesLength(ps);
    case Rects(rs) =>
      forall r: Rect ensures |PutRect(r)| == 16 { FieldsLength(PutI32, 4, RectFields(r)); }
      FieldsLength(PutRect, 16, rs);
    case Smpte(o) => FieldsLength(PutFloat, 4, SmpteFields(o.value));
    case Cta(o) => FieldsLength(PutFloat, 4, CtaFields(o.value));
    case _ =>
  }
}
