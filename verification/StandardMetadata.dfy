/** The table of standard metadata types, and the dispatch of `provideStandardMetadata` and
    `applyStandardMetadata` over it. */
module StandardMetadata {
  import opened Bytes
  import opened Options
  import opened MetadataFormat
  import Codec = MetadataCodec
  import MetadataWriter
  import MetadataReader

  const BAD_VALUE := MetadataWriter.BAD_VALUE
  const UNSUPPORTED := 7

  // Values of StandardMetadataType, which are also the indices of the jump table.
  const INVALID := 0
  const BUFFER_ID := 1
  const NAME := 2
  const WIDTH := 3
  const HEIGHT := 4
  const LAYER_COUNT := 5
  const PIXEL_FORMAT_REQUESTED := 6
  const PIXEL_FORMAT_FOURCC := 7
  const PIXEL_FORMAT_MODIFIER := 8
  const USAGE := 9
  const ALLOCATION_SIZE := 10
  const PROTECTED_CONTENT := 11
  const COMPRESSION := 12
  const INTERLACED := 13
  const CHROMA_SITING := 14
  const PLANE_LAYOUTS := 15
  const CROP := 16
  const DATASPACE := 17
  const BLEND_MODE := 18
  const SMPTE2086 := 19
  const CTA861_3 := 20
  const SMPTE2094_10 := 21
  const SMPTE2094_40 := 22
  const STRIDE := 23

  /** The value type that each entry of the table is defined with; INVALID and anything
      outside the jump table have none. */
  function KindOf(t: int): Option<Kind>
  {
    if t == NAME then Some(TextKind)
    else if t in {BUFFER_ID, WIDTH, HEIGHT, LAYER_COUNT, PIXEL_FORMAT_MODIFIER, ALLOCATION_SIZE,
                  PROTECTED_CONTENT} then Some(IntKind(U64))
    else if t in {PIXEL_FORMAT_REQUESTED, DATASPACE, BLEND_MODE} then Some(IntKind(I32))
    else if t in {PIXEL_FORMAT_FOURCC, STRIDE} then Some(IntKind(U32))
    else if t == USAGE then Some(IntKind(I64))
    else if t in {COMPRESSION, INTERLACED, CHROMA_SITING} then Some(ExtendableKind)
    else if t == PLANE_LAYOUTS then Some(PlanesKind)
    else if t == CROP then Some(RectsKind)
    else if t == SMPTE2086 then Some(SmpteKind)
    else if t == CTA861_3 then Some(CtaKind)
    else if t in {SMPTE2094_10, SMPTE2094_40} then Some(BufferKind)
    else None
  }

  /** What the callback of `provideStandardMetadata` does for a type: hand a value to the
      encoder, or return a number of its own. */
  datatype Answer = Provide(value: Value) | Return(code: int)

  /** The bytes a reader of the provided value gets when the buffer is large enough. */
  function Stream(t: Int64, v: Value): seq<Byte>
    requires KindOf(t).Some? && KindOf(t).value.Has(v)
  {
    Codec.Encode(t, KindOf(t).value, v)
  }

  predicate WellTyped(t: Int64, a: Answer)
  {
    a.Provide? ==> KindOf(t).Some? && KindOf(t).value.Has(a.value)
  }

  /** A type without an entry is unsupported and its callback is never asked; a provided
      value is encoded; anything else the callback returns is passed on. */
  method ProvideStandardMetadata(t: Int64, dest: array<Byte>, size: nat, answer: Int64 -> Answer) returns (r: int)
    requires WellTyped(t, answer(t)) && size <= dest.Length
    modifies dest
    ensures KindOf(t).None? ==> r == -7
    ensures KindOf(t).Some? && answer(t).Return? ==> r == answer(t).code
    ensures KindOf(t).None? || answer(t).Return? ==> dest[..] == old(dest[..])
    ensures KindOf(t).Some? && answer(t).Provide? ==>
              var s := Stream(t, answer(t).value);
              && r == (if |s| <= INT32_MAX then |s| else -3)
              && (|s| <= Min(size, INT32_MAX) ==> dest[..] == s + old(dest[|s|..]))
  {
    hide Codec.Encode;
    if KindOf(t).None? {
      return -UNSUPPORTED;
    }
    match answer(t)
    case Return(code) => r := code;
    case Provide(v) => r := EncodeProvided(t, KindOf(t).value, v, dest, size);
  }

  /** The `provide` callback. */
  method EncodeProvided(t: Int64, k: Kind, v: Value, dest: array<Byte>, size: nat) returns (r: int)
    requires k.Has(v) && size <= dest.Length
    modifies dest
    ensures var s := Codec.Encode(t, k, v);
            && r == (if |s| <= INT32_MAX then |s| else -BAD_VALUE)
            && (|s| <= Min(size, INT32_MAX) ==> dest[..] == s + old(dest[|s|..]))
  {
    hide Codec.Encode;
    ghost var stored;
    r, stored := MetadataWriter.EncodeInto(t, k, v, dest, size);
    assert dest[..] == dest[..stored] + dest[stored..];
  }

  /** What `applyStandardMetadata` returns when `apply` is what its callback returns. */
  function Applied(t: Int64, metadata: seq<Byte>, apply: Value -> int): int
  {
    if KindOf(t).None? then UNSUPPORTED
    else match Codec.Decode(t, KindOf(t).value, metadata)
      case None => BAD_VALUE
      case Some(v) => apply(v)
  }

  method ApplyStandardMetadata(t: Int64, metadata: seq<Byte>, apply: Value -> int) returns (r: int)
    requires KindOf(t).Some? ==> MetadataReader.CounterSafe(KindOf(t).value, metadata)
    ensures r == Applied(t, metadata, apply)
  {
    if KindOf(t).None? {
      return UNSUPPORTED;
    }
    var v := MetadataReader.DecodeFrom(t, KindOf(t).value, metadata);
    r := if v.Some? then apply(v.value) else BAD_VALUE;
  }

  /** Whatever type of the table, what one side provides is what the other side applies; a
      truncated stream is a bad value, and so is a stream of another type. */
  lemma {:induction false} ProvidedIsApplied(t: Int64, u: Int64, v: Value, apply: Value -> int, cut: seq<Byte>)
    requires KindOf(t).Some? && KindOf(t).value.Has(v) && |Stream(t, v)| <= INT32_MAX
    ensures Applied(t, Stream(t, v), apply) == apply(v)
    ensures cut < Stream(t, v) && (cut == [] ==> !KindOf(t).value.Optional()) ==> Applied(t, cut, apply) == 3
    ensures u != t && KindOf(u).Some? && !v.Absent() ==> Applied(u, Stream(t, v), apply) == 3
    ensures !(1 <= u <= 23) ==> Applied(u, cut, apply) == 7
  {
    var k := KindOf(t).value;
    Codec.RoundTrip(t, k, v, []);
    assert Stream(t, v) + [] == Stream(t, v);
    if cut < Stream(t, v) && (cut == [] ==> !k.Optional()) {
      Codec.TruncationFails(t, k, v, cut);
    }
    if u != t && KindOf(u).Some? && !v.Absent() {
      Codec.WrongTypeFails(t, k, u, KindOf(u).value, v, []);
    }
  }

  /** The jump table covers exactly the values 1 to 23. */
  lemma TableIsDense(t: int)
    ensures KindOf(t).Some? <==> 1 <= t <= 23
  {
  }

  /** The values each type can have, by its number: unsigned 64 and 32 bits, signed 32 and 64
      bits, a string, extendable types, planes, rectangles, and the four optional ones. */
  lemma TableEntries(t: int, v: Value)
    requires 1 <= t <= 23
    ensures KindOf(t).Some?
    ensures KindOf(t).value.Has(v) <==>
              if t in {1, 3, 4, 5, 8, 10, 11} then v.Number? && 0 <= v.n < 0x1_0000_0000_0000_0000
              else if t in {7, 23} then v.Number? && 0 <= v.n < 0x1_0000_0000
              else if t in {6, 17, 18} then v.Number? && -0x8000_0000 <= v.n < 0x8000_0000
              else if t == 9 then v.Number? && -0x8000_0000_0000_0000 <= v.n < 0x8000_0000_0000_0000
              else if t == 2 then v.Text?
              else if t in {12, 13, 14} then v.Extendable?
              else if t == 15 then v.Planes?
              else if t == 16 then v.Rects?
              else if t == 19 then v.Smpte?
              else if t == 20 then v.Cta?
              else v.Buffer?
    ensures KindOf(t).value.Optional() <==> 19 <= t <= 22
  {
  }
}
