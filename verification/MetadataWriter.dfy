/** The metadata writer: it keeps counting after it runs out of room, and turns into a
    sticky error once the count leaves the range of int32_t. */
module MetadataWriter {
  import opened Bytes
  import opened Options
  import opened Parsing
  import opened MetadataFormat
  import opened MetadataCodec

  const BAD_VALUE := 3

  // ---- what a sequence of writes leaves behind ----

  function Flatten(ws: seq<seq<Byte>>): seq<Byte>
  {
    if ws == [] then [] else Flatten(ws[..|ws| - 1]) + ws[|ws| - 1]
  }

  datatype State = State(stored: seq<Byte>, room: nat, desired: int)

  /** One `reserve` and the copy that follows it. */
  function Write(w: State, chunk: seq<Byte>): State
  {
    if w.desired < 0 then w
    else if w.desired + |chunk| > INT32_MAX then State(w.stored, 0, -BAD_VALUE)
    else if |chunk| > w.room then State(w.stored, 0, w.desired + |chunk|)
    else State(w.stored + chunk, w.room - |chunk|, w.desired + |chunk|)
  }

  function After(ws: seq<seq<Byte>>, n: nat): State
  {
    if ws == [] then State([], n, 0) else Write(After(ws[..|ws| - 1], n), ws[|ws| - 1])
  }

  /** How many writes fit, from the first one on, into `cap` bytes. */
  function LongestRun(ws: seq<seq<Byte>>, cap: nat): (k: nat)
    ensures k <= |ws|
  {
    if ws == [] then 0
    else
      var k := LongestRun(ws[..|ws| - 1], cap);
      if k == |ws| - 1 && |Flatten(ws)| <= cap then |ws| else k
  }

  lemma {:induction false} FlattenMonotone(ws: seq<seq<Byte>>, j: nat)
    requires j <= |ws|
    ensures Flatten(ws[..j]) <= Flatten(ws)
  {
    if j < |ws| {
      FlattenMonotone(ws[..|ws| - 1], j);
      assert ws[..|ws| - 1][..j] == ws[..j];
    } else {
      assert ws[..j] == ws;
    }
  }

  /** `LongestRun` is what its name says: a run from the start fits if and only if it is
      no longer. */
  lemma {:induction false} LongestRunIsLongest(ws: seq<seq<Byte>>, cap: nat, j: nat)
    requires j <= |ws|
    ensures j <= LongestRun(ws, cap) <==> |Flatten(ws[..j])| <= cap
  {
    if ws != [] {
      var init := ws[..|ws| - 1];
      if j < |ws| {
        LongestRunIsLongest(init, cap, j);
        assert init[..j] == ws[..j];
      } else {
        assert ws[..j] == ws;
        LongestRunIsLongest(init, cap, |init|);
        assert init[..|init|] == init;
        FlattenMonotone(ws, |init|);
      }
    }
  }

  /** Writer refinement: the stored bytes are the longest run of whole writes whose running
      total stays within the buffer and within int32_t, and the desired size depends on
      the writes alone. */
  lemma {:induction false} WriterRefinement(ws: seq<seq<Byte>>, n: nat)
    ensures var k := LongestRun(ws, Min(n, INT32_MAX));
            && After(ws, n).stored == Flatten(ws[..k])
            && After(ws, n).desired == (if |Flatten(ws)| <= INT32_MAX then |Flatten(ws)| else -3)
            && (k == |ws| ==> After(ws, n).room == n - |Flatten(ws)|)
            && (k < |ws| ==> After(ws, n).room == 0)
  {
    if ws == [] {
      assert ws[..0] == [];
    } else {
      var init := ws[..|ws| - 1];
      var cap := Min(n, INT32_MAX);
      WriterRefinement(init, n);
      var k := LongestRun(init, cap);
      assert init[..k] == ws[..k];
      assert ws[..|ws|] == ws && ws[..|ws| - 1][..|init|] == init;
      LongestRunIsLongest(init, cap, |init|);
      assert init[..|init|] == init;
    }
  }

  /** The desired size does not depend on the buffer. */
  lemma DesiredSizeIgnoresBuffer(ws: seq<seq<Byte>>, n: nat, n': nat)
    ensures After(ws, n).desired == After(ws, n').desired
  {
    WriterRefinement(ws, n);
    WriterRefinement(ws, n');
  }

  lemma StoredIsPrefix(ws: seq<seq<Byte>>, n: nat)
    ensures After(ws, n).stored <= Flatten(ws)
    ensures |After(ws, n).stored| <= Min(n, INT32_MAX)
    ensures |Flatten(ws)| <= Min(n, INT32_MAX) ==> After(ws, n).stored == Flatten(ws)
  {
    WriterRefinement(ws, n);
    var cap := Min(n, INT32_MAX);
    var k := LongestRun(ws, cap);
    FlattenMonotone(ws, k);
    LongestRunIsLongest(ws, cap, k);
    LongestRunIsLongest(ws, cap, |ws|);
    assert ws[..|ws|] == ws;
  }

  // ---- the class ----

  class Writer {
    const dest: array<Byte>
    const size: nat
    var at: nat
    var sizeRemaining: nat
    var desiredSize: int
    ghost var writes: seq<seq<Byte>>
    ghost const before: seq<Byte>

    ghost predicate Valid()
      reads this, dest
    {
      && size <= dest.Length == |before|
      && at + sizeRemaining <= size
      && After(writes, size) == State(dest[..at], sizeRemaining, desiredSize)
      && dest[at..] == before[at..]
    }

    /** Everything asked to be written so far. */
    ghost function Output(): seq<Byte>
      reads this
    {
      Flatten(writes)
    }

    constructor (dest: array<Byte>, size: nat)
      requires size <= dest.Length
      ensures Valid() && this.dest == dest && this.size == size && before == dest[..]
      ensures writes == []
    {
      this.dest := dest;
      this.size := size;
      at, sizeRemaining, desiredSize := 0, size, 0;
      writes := [];
      before := dest[..];
    }

    /** What the fields say about everything asked to be written. */
    lemma Summary()
      requires Valid()
      ensures desiredSize == if |Output()| <= INT32_MAX then |Output()| else -BAD_VALUE
      ensures dest[..at] <= Output() && at <= Min(size, INT32_MAX)
      ensures |Output()| <= Min(size, INT32_MAX) ==> at == |Output()|
    {
      WriterRefinement(writes, size);
      StoredIsPrefix(writes, size);
      assert After(writes, size).stored == dest[..at];
    }

    /** Counts the write and says where it goes, if there is room. */
    method Reserve(sizeToWrite: nat) returns (where: Option<nat>)
      requires Valid()
      modifies this`at, this`sizeRemaining, this`desiredSize
      ensures desiredSize ==
                if old(desiredSize) < 0 then old(desiredSize)
                else if old(desiredSize) + sizeToWrite > INT32_MAX then -3
                else old(desiredSize) + sizeToWrite
      ensures var fits := old(desiredSize) >= 0 && desiredSize >= 0 && sizeToWrite <= old(sizeRemaining);
              if fits then where == Some(old(at)) && at == old(at) + sizeToWrite
                           && sizeRemaining == old(sizeRemaining) - sizeToWrite
              else where == None && at == old(at)
                   && sizeRemaining == if old(desiredSize) < 0 then old(sizeRemaining) else 0
    {
      if desiredSize < 0 {
        return None;
      }
      if desiredSize + sizeToWrite > INT32_MAX {
        desiredSize := -BAD_VALUE;
        sizeRemaining := 0;
        return None;
      }
      desiredSize := desiredSize + sizeToWrite;
      if sizeToWrite > sizeRemaining {
        sizeRemaining := 0;
        return None;
      }
      sizeRemaining := sizeRemaining - sizeToWrite;
      where := Some(at);
      at := at + sizeToWrite;
    }

    /** `if (void* dest = reserve(size)) memcpy(dest, data, size)` */
    method Put(bytes: seq<Byte>)
      requires Valid()
      modifies this`at, this`sizeRemaining, this`desiredSize, this`writes, dest
      ensures Valid() && writes == old(writes) + [bytes]
      ensures Output() == old(Output()) + bytes
    {
      ghost var stored := dest[..at];
      var where := Reserve(|bytes|);
      if where.Some? {
        Copy(where.value, bytes);
      }
      writes := writes + [bytes];
      assert writes[..|writes| - 1] == old(writes);
    }

    method Copy(where: nat, bytes: seq<Byte>)
      requires where + |bytes| <= dest.Length
      modifies dest
      ensures dest[..] == old(dest[..where]) + bytes + old(dest[where + |bytes|..])
    {
      for i := 0 to |bytes|
        invariant dest[..where] == old(dest[..where])
        invariant dest[where..where + i] == bytes[..i]
        invariant dest[where + i..] == old(dest[where + i..])
      {
        dest[where + i] := bytes[i];
      }
    }

    method WriteInt(t: IntType, v: int)
      requires Valid()
      modifies this`at, this`sizeRemaining, this`desiredSize, this`writes, dest
      ensures Valid() && Output() == old(Output()) + IntBytes(t, v)
    {
      Put(IntBytes(t, v));
    }

    /** `write(const std::string_view&)` and `write(const std::vector<uint8_t>&)` */
    method WriteBlob(s: seq<Byte>)
      requires Valid()
      modifies this`at, this`sizeRemaining, this`desiredSize, this`writes, dest
      ensures Valid() && Output() == old(Output()) + PutBlob(s)
    {
      WriteInt(I64, |s|);
      Put(s);
      Assoc(old(Output()), PutSize(|s|), s);
    }

    method WriteExtendable(e: ExtendableType)
      requires Valid()
      modifies this`at, this`sizeRemaining, this`desiredSize, this`writes, dest
      ensures Valid() && Output() == old(Output()) + PutExtendable(e)
    {
      WriteBlob(e.name);
      WriteInt(I64, e.value);
      Assoc(old(Output()), PutBlob(e.name), PutI64(e.value));
    }

    method WriteHeader(t: Int64)
      requires Valid()
      modifies this`at, this`sizeRemaining, this`desiredSize, this`writes, dest
      ensures Valid() && Output() == old(Output()) + Header(t)
    {
      WriteBlob(HEADER_NAME);
      WriteInt(I64, t);
      Assoc(old(Output()), PutBlob(HEADER_NAME), PutI64(t));
    }

    /** A chain of `.write<int64_t>(..)`, `.write<int32_t>(..)` or `.write(float)` calls. */
    method WriteAll<T>(write: T -> seq<Byte>, vs: seq<T>)
      requires Valid()
      modifies this`at, this`sizeRemaining, this`desiredSize, this`writes, dest
      ensures Valid() && Output() == old(Output()) + WriteList(write, vs)
    {
      for i := 0 to |vs|
        invariant Valid()
        invariant Output() == old(Output()) + WriteList(write, vs[..i])
      {
        Assoc(old(Output()), WriteList(write, vs[..i]), write(vs[i]));
        WriteListSnoc(write, vs[..i], vs[i]);
        assert vs[..i + 1] == vs[..i] + [vs[i]];
        Put(write(vs[i]));
      }
      assert vs[..|vs|] == vs;
    }

    method WriteComponent(c: PlaneLayoutComponent)
      requires Valid()
      modifies this`at, this`sizeRemaining, this`desiredSize, this`writes, dest
      ensures Valid() && Output() == old(Output()) + PutComponent(c)
    {
      WriteExtendable(c.kind);
      WriteInt(I64, c.offsetInBits);
      WriteInt(I64, c.sizeInBits);
      Assoc(old(Output()) + PutExtendable(c.kind), PutI64(c.offsetInBits), PutI64(c.sizeInBits));
      Assoc(old(Output()), PutExtendable(c.kind), PutI64(c.offsetInBits) + PutI64(c.sizeInBits));
    }

    method WritePlane(p: PlaneLayout)
      requires Valid()
      modifies this`at, this`sizeRemaining, this`desiredSize, this`writes, dest
      ensures Valid() && Output() == old(Output()) + PutPlane(p)
    {
      WriteInt(I64, |p.components|);
      ghost var start := Output();
      WriteComponents(p.components);
      WriteAll(PutI64, PlaneFields(p));
      Assoc(start, WriteList(PutComponent, p.components), WriteList(PutI64, PlaneFields(p)));
      Assoc(old(Output()), PutSize(|p.components|),
            WriteList(PutComponent, p.components) + WriteList(PutI64, PlaneFields(p)));
    }

    method WriteComponents(cs: seq<PlaneLayoutComponent>)
      requires Valid()
      modifies this`at, this`sizeRemaining, this`desiredSize, this`writes, dest
      ensures Valid() && Output() == old(Output()) + WriteList(PutComponent, cs)
    {
      for i := 0 to |cs|
        invariant Valid()
        invariant Output() == old(Output()) + WriteList(PutComponent, cs[..i])
      {
        Assoc(old(Output()), WriteList(PutComponent, cs[..i]), PutComponent(cs[i]));
        WriteListSnoc(PutComponent, cs[..i], cs[i]);
        assert cs[..i + 1] == cs[..i] + [cs[i]];
        WriteComponent(cs[i]);
      }
      assert cs[..|cs|] == cs;
    }

    method WritePlanes(ps: seq<PlaneLayout>)
      requires Valid()
      modifies this`at, this`sizeRemaining, this`desiredSize, this`writes, dest
      ensures Valid() && Output() == old(Output()) + Payload(PlanesKind, Planes(ps))
    {
      hide PutPlane, After;
      WriteInt(I64, |ps|);
      ghost var start := Output();
      for i := 0 to |ps|
        invariant Valid()
        invariant Output() == start + WriteList(PutPlane, ps[..i])
      {
        Assoc(start, WriteList(PutPlane, ps[..i]), PutPlane(ps[i]));
        WriteListSnoc(PutPlane, ps[..i], ps[i]);
        assert ps[..i + 1] == ps[..i] + [ps[i]];
        WritePlane(ps[i]);
      }
      assert ps[..|ps|] == ps;
      Assoc(old(Output()), PutSize(|ps|), WriteList(PutPlane, ps));
    }

    method WriteRects(rs: seq<Rect>)
      requires Valid()
      modifies this`at, this`sizeRemaining, this`desiredSize, this`writes, dest
      ensures Valid() && Output() == old(Output()) + Payload(RectsKind, Rects(rs))
    {
      WriteInt(I64, |rs|);
      ghost var start := Output();
      for i := 0 to |rs|
        invariant Valid()
        invariant Output() == start + WriteList(PutRect, rs[..i])
      {
        Assoc(start, WriteList(PutRect, rs[..i]), PutRect(rs[i]));
        WriteListSnoc(PutRect, rs[..i], rs[i]);
        assert rs[..i + 1] == rs[..i] + [rs[i]];
        WriteAll(PutI32, RectFields(rs[i]));
      }
      assert rs[..|rs|] == rs;
      Assoc(old(Output()), PutSize(|rs|), WriteList(PutRect, rs));
    }

    method WritePayload(k: Kind, v: Value)
      requires Valid() && k.Has(v) && !v.Absent()
      modifies this`at, this`sizeRemaining, this`desiredSize, this`writes, dest
      ensures Valid() && Output() == old(Output()) + Payload(k, v)
    {
      match v
      case Number(n) => WriteInt(k.of, n);
      case Text(s) => WriteBlob(s);
      case Extendable(e) => WriteExtendable(e);
      case Planes(ps) => WritePlanes(ps);
      case Rects(rs) => WriteRects(rs);
      case Smpte(o) => WriteAll(PutFloat, SmpteFields(o.value));
      case Cta(o) => WriteAll(PutFloat, CtaFields(o.value));
      case Buffer(o) => WriteBlob(o.value);
    }

    method WriteValue(t: Int64, k: Kind, v: Value)
      requires Valid() && writes == []
      requires k.Has(v) && !v.Absent()
      modifies this`at, this`sizeRemaining, this`desiredSize, this`writes, dest
      ensures Valid() && Output() == Encode(t, k, v)
    {
      WriteHeader(t);
      assert Output() == Header(t);
      WritePayload(k, v);
    }
  }

  /** `MetadataValue<..>::encode` for every metadata type. Returns the size the value needs,
      or the error if that is no int32_t, whatever the buffer; the buffer receives a prefix
      of the encoding, all of it if it fits, and keeps its other bytes. */
  method EncodeInto(t: Int64, k: Kind, v: Value, dest: array<Byte>, size: nat) returns (r: int, ghost stored: nat)
    requires k.Has(v)
    requires size <= dest.Length
    modifies dest
    ensures r == if |Encode(t, k, v)| <= INT32_MAX then |Encode(t, k, v)| else -3
    ensures stored <= |Encode(t, k, v)| && stored <= Min(size, INT32_MAX)
    ensures dest[..stored] <= Encode(t, k, v)
    ensures dest[stored..] == old(dest[stored..])
    ensures |Encode(t, k, v)| <= Min(size, INT32_MAX) ==> stored == |Encode(t, k, v)|
  {
    if v.Absent() {
      return 0, 0;
    }
    var writer := new Writer(dest, size);
    writer.WriteValue(t, k, v);
    writer.Summary();
    r, stored := writer.desiredSize, writer.at;
  }
}
