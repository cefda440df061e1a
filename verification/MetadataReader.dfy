/** The metadata reader with its sticky failure flag, and the decoders that loop over it. */
module MetadataReader {
  import opened Bytes
  import opened Options
  import opened Parsing
  import opened MetadataFormat
  import Codec = MetadataCodec

  /** A parser that takes `width` bytes, whatever they are. */
  ghost predicate FixedWidth<T(!new)>(get: seq<Byte> -> Parsed<T>, width: nat)
  {
    forall s ::
      && (|s| < width ==> get(s).Fail?)
      && (|s| >= width ==> get(s[..width]).Parsed? && get(s) == Parsed(get(s[..width]).value, s[width..]))
  }

  lemma IntWidths()
    ensures FixedWidth(GetI64, 8) && FixedWidth(GetI32, 4) && FixedWidth(GetFloat, 4)
  {
    assert forall s: seq<Byte> :: |s| >= 8 ==> s[..8][..8] == s[..8];
    assert forall s: seq<Byte> :: |s| >= 4 ==> s[..4][..4] == s[..4];
  }

  /** The invariant of a decoding loop `for (int i = 0; i < n && ok; i++)` that started on
      input `s`, has turned `i` times, holds `values` and stands at `rest`. */
  ghost predicate InLoop<T>(get: seq<Byte> -> Parsed<T>, s: seq<Byte>, n: int, i: nat, ok: bool,
                            values: seq<T>, rest: seq<Byte>)
  {
    && i <= (if n < 0 then 0 else n)
    && (ok ==> ReadList(get, s, i) == Parsed(values, rest)
               && Turns(get, s, n) == i + Turns(get, rest, n - i))
    && (!ok ==> ReadList(get, s, n).Fail? && Turns(get, s, n) == i)
  }

  lemma LoopTurn<T>(get: seq<Byte> -> Parsed<T>, s: seq<Byte>, n: int, i: nat, values: seq<T>, rest: seq<Byte>)
    requires InLoop(get, s, n, i, true, values, rest) && i < n
    ensures get(rest).Fail? ==> InLoop(get, s, n, i + 1, false, values, rest)
    ensures get(rest).Parsed? ==> InLoop(get, s, n, i + 1, true, values + [get(rest).value], get(rest).rest)
  {
    ReadListSnoc(get, s, i);
    if get(rest).Fail? {
      ReadListFails(get, s, i + 1, n);
    }
  }

  lemma LoopDone<T(!new)>(get: seq<Byte> -> Parsed<T>, m: nat, s: seq<Byte>, n: int, i: nat, ok: bool,
                          values: seq<T>, rest: seq<Byte>)
    requires InLoop(get, s, n, i, ok, values, rest) && !(i < n && ok)
    requires m > 0 && Consumes(get, m)
    ensures i * m <= |s| + m
    ensures ReadList(get, s, n) == if ok then Parsed(values, rest) else Fail
  {
    TurnsBounded(get, m, s, n);
  }

  /** The `int` loop counter cannot overflow on inputs this short. */
  const MAX_INPUT: nat := 16 * (INT32_MAX - 1)

  predicate CounterSafe(k: Kind, s: seq<Byte>) { k.PlanesKind? || k.RectsKind? ==> |s| <= MAX_INPUT }

  lemma CounterInRange<T(!new)>(get: seq<Byte> -> Parsed<T>, s: seq<Byte>, n: int, i: nat, values: seq<T>, rest: seq<Byte>)
    requires InLoop(get, s, n, i, true, values, rest)
    requires Consumes(get, 16) && |s| <= MAX_INPUT
    ensures i < INT32_MAX
  {
    ListConsumes(get, 16, s, i);
  }

  lemma ComponentCounter(s: seq<Byte>, n: int, i: nat, values: seq<PlaneLayoutComponent>, rest: seq<Byte>)
    requires InLoop(GetComponent, s, n, i, true, values, rest) && |s| <= MAX_INPUT
    ensures i < INT32_MAX
  {
    ComponentLists();
    CounterInRange(GetComponent, s, n, i, values, rest);
  }

  lemma PlanesDone(s: seq<Byte>, n: int, i: nat, ok: bool, values: seq<PlaneLayout>, rest: seq<Byte>)
    requires InLoop(GetPlane, s, n, i, ok, values, rest) && !(i < n && ok)
    ensures i * 72 <= |s| + 72
    ensures ReadList(GetPlane, s, n) == if ok then Parsed(values, rest) else Fail
  {
    PlaneLists();
    LoopDone(GetPlane, 72, s, n, i, ok, values, rest);
  }

  lemma PlaneCounter(s: seq<Byte>, n: int, i: nat, values: seq<PlaneLayout>, rest: seq<Byte>)
    requires InLoop(GetPlane, s, n, i, true, values, rest) && |s| <= MAX_INPUT
    ensures i < INT32_MAX
  {
    PlaneLists();
    CounterInRange(GetPlane, s, n, i, values, rest);
  }

  lemma RectsDone(s: seq<Byte>, n: int, i: nat, ok: bool, values: seq<Rect>, rest: seq<Byte>)
    requires InLoop(GetRect, s, n, i, ok, values, rest) && !(i < n && ok)
    ensures i * 16 <= |s| + 16
    ensures ReadList(GetRect, s, n) == if ok then Parsed(values, rest) else Fail
  {
    RectLists();
    LoopDone(GetRect, 16, s, n, i, ok, values, rest);
  }

  lemma RectCounter(s: seq<Byte>, n: int, i: nat, values: seq<Rect>, rest: seq<Byte>)
    requires InLoop(GetRect, s, n, i, true, values, rest) && |s| <= MAX_INPUT
    ensures i < INT32_MAX
  {
    RectLists();
    CounterInRange(GetRect, s, n, i, values, rest);
  }

  class Reader {
    const src: seq<Byte>
    var at: nat
    var sizeRemaining: nat
    var ok: bool

    ghost predicate Valid()
      reads this
    {
      at + sizeRemaining == |src|
    }

    ghost function Rest(): seq<Byte>
      requires Valid()
      reads this
    {
      src[at..]
    }

    /** The reader did what parser `p` says, unless it had already failed. */
    ghost predicate Did<T>(was: bool, p: Parsed<T>)
      requires Valid()
      reads this
    {
      ok == (was && p.Parsed?) && (ok ==> Rest() == p.rest)
    }

    constructor (metadata: seq<Byte>)
      ensures Valid() && ok && Rest() == metadata && src == metadata
    {
      src := metadata;
      at, sizeRemaining, ok := 0, |metadata|, true;
    }

    method Advance(size: nat) returns (buf: Option<seq<Byte>>)
      requires Valid()
      modifies this
      ensures Valid() && Did(old(ok), Take(old(Rest()), size))
      ensures buf == if ok then Some(Take(old(Rest()), size).value) else None
    {
      if ok && sizeRemaining >= size {
        buf := Some(src[at..at + size]);
        assert src[at..at + size] == Rest()[..size];
        at := at + size;
        sizeRemaining := sizeRemaining - size;
        return;
      }
      ok := false;
      buf := None;
    }

    method ReadInt(t: IntType) returns (r: Option<int>)
      requires Valid()
      modifies this
      ensures Valid() && Did(old(ok), Parsing.ReadInt(t, old(Rest())))
      ensures r == if ok then Some(Parsing.ReadInt(t, old(Rest())).value) else None
    {
      var buf := Advance(t.Width());
      r := if buf.Some? then Some(IntOf(t, buf.value)) else None;
    }

    method ReadI64() returns (r: Option<Int64>)
      requires Valid()
      modifies this
      ensures Valid() && Did(old(ok), GetI64(old(Rest())))
      ensures r == if ok then Some(GetI64(old(Rest())).value) else None
    {
      var v := ReadInt(I64);
      r := if v.Some? then Some(v.value) else None;
    }

    /** `read<T>(target)`: a failed one leaves its target as it was. */
    method ReadInto<T(!new)>(get: seq<Byte> -> Parsed<T>, width: nat, target: T) returns (v: T)
      requires Valid() && FixedWidth(get, width)
      modifies this
      ensures Valid() && Did(old(ok), get(old(Rest())))
      ensures v == if ok then get(old(Rest())).value else target
    {
      var buf := Advance(width);
      v := if buf.Some? then get(buf.value).value else target;
    }

    /** A chain of `.read(..)` calls. */
    method ReadAll<T(!new)>(get: seq<Byte> -> Parsed<T>, width: nat, count: nat, target: T) returns (vs: seq<T>)
      requires Valid() && FixedWidth(get, width)
      modifies this
      ensures Valid() && Did(old(ok), ReadList(get, old(Rest()), count))
      ensures |vs| == count && (ok ==> vs == ReadList(get, old(Rest()), count).value)
    {
      vs := [];
      ghost var s := Rest();
      for i := 0 to count
        invariant Valid() && Did(old(ok), ReadList(get, s, i))
        invariant |vs| == i && (ok ==> vs == ReadList(get, s, i).value)
      {
        if ReadList(get, s, i).Parsed? {
          ReadListSnoc(get, s, i);
        } else {
          ReadListFails(get, s, i, i + 1);
        }
        var v := ReadInto(get, width, target);
        vs := vs + [v];
      }
    }

    /** `readString` and `readBuffer`: a length, then that many bytes. */
    method ReadBlob() returns (r: seq<Byte>)
      requires Valid()
      modifies this
      ensures Valid() && Did(old(ok), GetBlob(old(Rest())))
      ensures r == if ok then GetBlob(old(Rest())).value else []
    {
      var length := ReadI64();
      if length.None? {
        return [];
      }
      var buf := Advance(AsSize(length.value));
      r := if buf.Some? then buf.value else [];
    }

    method CheckHeader(t: Int64)
      requires Valid()
      modifies this
      ensures Valid() && Did(old(ok), Codec.CheckHeader(t, old(Rest())))
    {
      var name := ReadBlob();
      if name != Codec.HEADER_NAME {
        ok := false;
      }
      var value := ReadI64();
      if value != Some(t) {
        ok := false;
      }
    }

    method ReadExtendable() returns (r: Option<ExtendableType>)
      requires Valid()
      modifies this
      ensures Valid() && Did(old(ok), GetExtendable(old(Rest())))
      ensures r == if ok then Some(GetExtendable(old(Rest())).value) else None
    {
      var name := ReadBlob();
      var value := ReadI64();
      r := if value.Some? then Some(ExtendableType(name, value.value)) else None;
    }

    method ReadComponent() returns (c: PlaneLayoutComponent)
      requires Valid()
      modifies this
      ensures Valid() && Did(old(ok), GetComponent(old(Rest())))
      ensures ok ==> c == GetComponent(old(Rest())).value
    {
      var kind := ReadExtendable();
      var offset := ReadI64();
      var size := ReadI64();
      c := if kind.Some? && offset.Some? && size.Some?
      then PlaneLayoutComponent(kind.value, offset.value, size.value)
      else PlaneLayoutComponent(ExtendableType([], 0), 0, 0);
    }

    method ReadComponents(n: Int64) returns (components: seq<PlaneLayoutComponent>)
      requires Valid() && |src| <= MAX_INPUT
      modifies this
      ensures Valid() && Did(old(ok), ReadList(GetComponent, old(Rest()), n))
      ensures ok ==> components == ReadList(GetComponent, old(Rest()), n).value
    {
      components := [];
      var j: Int32 := 0;
      ghost var s := Rest();
      while j < n && ok
        invariant 0 <= j && Valid()
        invariant old(ok) ==> InLoop(GetComponent, s, n, j, ok, components, Rest())
        invariant !old(ok) ==> !ok
        decreases n - j
      {
        ComponentCounter(s, n, j, components, Rest());
        LoopTurn(GetComponent, s, n, j, components, Rest());
        var component := ReadComponent();
        components := components + [component];
        j := j + 1;
      }
    }

    method ReadPlane() returns (p: PlaneLayout)
      requires Valid() && |src| <= MAX_INPUT
      modifies this
      ensures Valid() && Did(old(ok), GetPlane(old(Rest())))
      ensures ok ==> p == GetPlane(old(Rest())).value
    {
      var n := ReadCount();
      var components := ReadComponents(n);
      IntWidths();
      var fields := ReadAll(GetI64, 8, 8, 0);
      p := PlaneOf(components, fields);
    }

    method ReadPlanes(n: Int64) returns (planes: seq<PlaneLayout>, ghost turns: nat)
      requires Valid() && |src| <= MAX_INPUT
      modifies this
      ensures Valid() && Did(old(ok), ReadList(GetPlane, old(Rest()), n))
      ensures ok ==> planes == ReadList(GetPlane, old(Rest()), n).value
      ensures turns * 72 <= |old(Rest())| + 72
    {
      hide GetPlane;
      planes := [];
      var i: Int32 := 0;
      ghost var s := Rest();
      while i < n && ok
        invariant 0 <= i && Valid()
        invariant old(ok) ==> InLoop(GetPlane, s, n, i, ok, planes, Rest())
        invariant !old(ok) ==> !ok && i == 0
        decreases n - i
      {
        PlaneCounter(s, n, i, planes, Rest());
        LoopTurn(GetPlane, s, n, i, planes, Rest());
        var plane := ReadPlane();
        planes := planes + [plane];
        i := i + 1;
      }
      turns := i;
      if old(ok) {
        PlanesDone(s, n, i, ok, planes, Rest());
      }
    }

    method ReadRect() returns (r: Rect)
      requires Valid()
      modifies this
      ensures Valid() && Did(old(ok), GetRect(old(Rest())))
      ensures ok ==> r == GetRect(old(Rest())).value
    {
      IntWidths();
      var fields := ReadAll(GetI32, 4, 4, 0);
      r := RectOf(fields);
    }

    method ReadRects(n: Int64) returns (rects: seq<Rect>, ghost turns: nat)
      requires Valid() && |src| <= MAX_INPUT
      modifies this
      ensures Valid() && Did(old(ok), ReadList(GetRect, old(Rest()), n))
      ensures ok ==> rects == ReadList(GetRect, old(Rest()), n).value
      ensures turns * 16 <= |old(Rest())| + 16
    {
      hide GetRect;
      rects := [];
      var i: Int32 := 0;
      ghost var s := Rest();
      while i < n && ok
        invariant 0 <= i && Valid()
        invariant old(ok) ==> InLoop(GetRect, s, n, i, ok, rects, Rest())
        invariant !old(ok) ==> !ok && i == 0
        decreases n - i
      {
        RectCounter(s, n, i, rects, Rest());
        LoopTurn(GetRect, s, n, i, rects, Rest());
        var rect := ReadRect();
        rects := rects + [rect];
        i := i + 1;
      }
      turns := i;
      if old(ok) {
        RectsDone(s, n, i, ok, rects, Rest());
      }
    }

    /** `readInt<int64_t>().value_or(0)`, and the `reserve` of that many elements: where it
        throws, nothing more is read and no value is returned. */
    method ReadCount() returns (n: Int64)
      requires Valid()
      modifies this
      ensures Valid() && Did(old(ok), GetCount(old(Rest())))
      ensures n == if ok then GetCount(old(Rest())).value else 0
    {
      var count := ReadI64();
      n := if count.Some? then count.value else 0;
      if n < 0 {
        ok, n := false, 0;
      }
    }

    method ReadPayload(k: Kind) returns (v: Value)
      requires Valid() && CounterSafe(k, src)
      modifies this
      ensures Valid() && Did(old(ok), GetPayload(k, old(Rest())))
      ensures ok ==> v == GetPayload(k, old(Rest())).value
    {
      match k
      case IntKind(t) =>
        var n := ReadInt(t);
        v := Number(if n.Some? then n.value else 0);
      case TextKind =>
        var text := ReadBlob();
        v := Text(text);
      case ExtendableKind =>
        var e := ReadExtendable();
        v := Extendable(if e.Some? then e.value else ExtendableType([], 0));
      case PlanesKind =>
        var n := ReadCount();
        var planes, _ := ReadPlanes(n);
        v := Planes(planes);
      case RectsKind =>
        var n := ReadCount();
        var rects, _ := ReadRects(n);
        v := Rects(rects);
      case SmpteKind =>
        IntWidths();
        var fs := ReadAll(GetFloat, 4, 10, 0);
        v := Smpte(Some(SmpteOf(fs)));
      case CtaKind =>
        IntWidths();
        var fs := ReadAll(GetFloat, 4, 2, 0);
        v := Cta(Some(Cta861_3(fs[0], fs[1])));
      case BufferKind =>
        var bytes := ReadBlob();
        v := Buffer(Some(bytes));
    }
  }

  /** `MetadataValue<..>::decode` for every header and value type. */
  method DecodeFrom(t: Int64, k: Kind, metadata: seq<Byte>) returns (r: Option<Value>)
    requires CounterSafe(k, metadata)
    ensures r == Codec.Decode(t, k, metadata)
  {
    if k.Optional() && |metadata| == 0 {
      return Some(k.AbsentValue());
    }
    var reader := new Reader(metadata);
    reader.CheckHeader(t);
    var v := reader.ReadPayload(k);
    r := if reader.ok then Some(v) else None;
  }
}
