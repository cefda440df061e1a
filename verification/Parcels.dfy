/** Parcels: a byte string with a cursor, and the generated code for parcelables, which
    prefix their fields with a size that is patched in afterwards and stop reading early
    when a parcel was written by an older peer. The framing of primitives, strings and
    vectors belongs to the binder library; here it is a count followed by the contents. */
module Parcels {
  import opened Bytes

  /** The types that the parcelables of the allocator interface are made of. */
  datatype Type = TInt32 | TInt64 | TBytes | TList(elem: Type) | TParcelable(fields: seq<Type>)

  datatype Val = VInt(n: int) | VBytes(bytes: seq<Byte>) | VList(elems: seq<Val>) | VParcelable(fields: seq<Val>)

  predicate Has(t: Type, v: Val)
  {
    match t
    case TInt32 => v.VInt? && I32.InRange(v.n)
    case TInt64 => v.VInt? && I64.InRange(v.n)
    case TBytes => v.VBytes?
    case TList(e) => v.VList? && forall x <- v.elems :: Has(e, x)
    case TParcelable(fs) => v.VParcelable? && HasAll(fs, v.fields)
  }

  predicate HasAll(ts: seq<Type>, vs: seq<Val>)
  {
    |ts| == |vs| && (ts != [] ==> Has(ts[0], vs[0]) && HasAll(ts[1..], vs[1..]))
  }

  /** A value as its constructor leaves it. */
  function Default(t: Type): (v: Val)
    ensures Has(t, v)
  {
    match t
    case TInt32 => VInt(0)
    case TInt64 => VInt(0)
    case TBytes => VBytes([])
    case TList(_) => VList([])
    case TParcelable(fs) => VParcelable(Defaults(fs))
  }

  function Defaults(ts: seq<Type>): (vs: seq<Val>)
    ensures HasAll(ts, vs)
  {
    if ts == [] then [] else [Default(ts[0])] + Defaults(ts[1..])
  }

  // ---- writing ----

  /** `AParcel_writeData`; a parcelable is preceded by a non-null flag. */
  function Image(t: Type, v: Val): (s: seq<Byte>)
    requires Has(t, v)
    ensures |s| >= 4
  {
    match t
    case TInt32 => IntBytes(I32, v.n)
    case TInt64 => IntBytes(I64, v.n)
    case TBytes => IntBytes(I32, |v.bytes|) + v.bytes
    case TList(e) => IntBytes(I32, |v.elems|) + Elements(e, v.elems)
    case TParcelable(fs) => IntBytes(I32, 1) + Body(fs, v.fields)
  }

  function Elements(e: Type, vs: seq<Val>): seq<Byte>
    requires forall x <- vs :: Has(e, x)
    decreases e, vs
  {
    if vs == [] then [] else Image(e, vs[0]) + Elements(e, vs[1..])
  }

  function Fields(ts: seq<Type>, vs: seq<Val>): seq<Byte>
    requires HasAll(ts, vs)
    decreases ts, 0
  {
    if ts == [] then [] else Image(ts[0], vs[0]) + Fields(ts[1..], vs[1..])
  }

  /** `writeToParcel`: the size of everything including itself, then the fields. */
  function Body(ts: seq<Type>, vs: seq<Val>): seq<Byte>
    requires HasAll(ts, vs)
    decreases ts, 1
  {
    IntBytes(I32, 4 + |Fields(ts, vs)|) + Fields(ts, vs)
  }

  // ---- reading ----

  datatype ParcelStatus = NotEnoughData | BadValue | UnexpectedNull

  datatype Reading<+T> = Fail(status: ParcelStatus) | Read(value: T, pos: nat)
  {
    predicate IsFailure() { Fail? }
    function PropagateFailure<U>(): Reading<U>
      requires Fail?
    {
      Fail(status)
    }
    function Extract(): (T, nat)
      requires Read?
    {
      (value, pos)
    }
  }

  function ReadInt(i: IntType, data: seq<Byte>, pos: nat): (r: Reading<int>)
    ensures r.Read? ==> i.InRange(r.value)
  {
    if pos + i.Width() > |data| then Fail(NotEnoughData)
    else Read(IntOf(i, data[pos..pos + i.Width()]), pos + i.Width())
  }

  /** `AParcel_readData` into a variable that held `was`. */
  function ReadVal(t: Type, data: seq<Byte>, pos: nat, was: Val): (r: Reading<Val>)
    requires Has(t, was)
    ensures r.Read? ==> Has(t, r.value)
    decreases t, 0, 2
  {
    match t
    case TInt32 =>
      var (n, p) :- ReadInt(I32, data, pos);
      Read(VInt(n), p)
    case TInt64 =>
      var (n, p) :- ReadInt(I64, data, pos);
      Read(VInt(n), p)
    case TBytes =>
      var (n, p) :- ReadInt(I32, data, pos);
      if n < 0 then Fail(BadValue)
      else if p + n > |data| then Fail(NotEnoughData)
      else Read(VBytes(data[p..p + n]), p + n)
    case TList(e) =>
      var (n, p) :- ReadInt(I32, data, pos);
      if n < 0 then Fail(BadValue)
      else
        var (vs, p') :- ReadElements(e, data, p, n);
        Read(VList(vs), p')
    case TParcelable(fs) =>
      var (flag, p) :- ReadInt(I32, data, pos);
      if flag == 0 then Fail(UnexpectedNull)
      else
        var (vs, p') :- ReadBody(fs, data, p, was.fields);
        Read(VParcelable(vs), p')
  }

  /** Each element of a vector is read into a freshly constructed value. */
  function ReadElements(e: Type, data: seq<Byte>, pos: nat, n: nat): (r: Reading<seq<Val>>)
    ensures r.Read? ==> |r.value| == n && forall x <- r.value :: Has(e, x)
    decreases e, n + 1, 0
  {
    if n == 0 then Read([], pos)
    else
      var (v, p) :- ReadVal(e, data, pos, Default(e));
      var (vs, p') :- ReadElements(e, data, p, n - 1);
      Read([v] + vs, p')
  }

  /** `readFromParcel` */
  function ReadBody(ts: seq<Type>, data: seq<Byte>, pos: nat, was: seq<Val>): (r: Reading<seq<Val>>)
    requires HasAll(ts, was)
    ensures r.Read? ==> HasAll(ts, r.value)
    decreases ts, 1, 0
  {
    var (size, p) :- ReadInt(I32, data, pos);
    if size < 4 then Fail(BadValue)
    else if pos > INT32_MAX - size then Fail(BadValue)
    else ReadFields(ts, data, p, pos + size, was)
  }

  /** Field by field, as long as the cursor has not reached the end that the size claims;
      fields that are not read keep what they held, and the cursor is set to that end. */
  function ReadFields(ts: seq<Type>, data: seq<Byte>, pos: nat, end: nat, was: seq<Val>): (r: Reading<seq<Val>>)
    requires HasAll(ts, was)
    ensures r.Read? ==> HasAll(ts, r.value) && r.pos == end
    decreases ts, 0, 0
  {
    if ts == [] || pos >= end then Read(was, end)
    else
      var (v, p) :- ReadVal(ts[0], data, pos, was[0]);
      var (vs, p') :- ReadFields(ts[1..], data, p, end, was[1..]);
      Read([v] + vs, p')
  }

  // ---- version skew ----

  /** A writer's type can be read as a reader's: the same, except that parcelables, at any
      depth, may have fields missing or added at the end. */
  predicate Compatible(w: Type, r: Type)
  {
    match (w, r)
    case (TList(we), TList(re)) => Compatible(we, re)
    case (TParcelable(ws), TParcelable(rs)) => AllCompatible(ws, rs)
    case (_, _) => w == r
  }

  predicate AllCompatible(ws: seq<Type>, rs: seq<Type>)
  {
    ws == [] || rs == [] || (Compatible(ws[0], rs[0]) && AllCompatible(ws[1..], rs[1..]))
  }

  /** What the reader gets from a value of the writer: the fields both know; the others of
      its own stay what they were. */
  function Adapt(w: Type, r: Type, v: Val, was: Val): (a: Val)
    requires Compatible(w, r) && Has(w, v) && Has(r, was)
    ensures Has(r, a)
    decreases w, v
  {
    match (w, r)
    case (TList(we), TList(re)) => VList(AdaptElements(we, re, v.elems))
    case (TParcelable(ws), TParcelable(rs)) => VParcelable(AdaptFields(ws, rs, v.fields, was.fields))
    case (_, _) => v
  }

  function AdaptElements(w: Type, r: Type, vs: seq<Val>): (a: seq<Val>)
    requires Compatible(w, r) && forall x <- vs :: Has(w, x)
    ensures |a| == |vs| && forall x <- a :: Has(r, x)
    decreases w, vs
  {
    if vs == [] then [] else [Adapt(w, r, vs[0], Default(r))] + AdaptElements(w, r, vs[1..])
  }

  function AdaptFields(ws: seq<Type>, rs: seq<Type>, vs: seq<Val>, was: seq<Val>): (a: seq<Val>)
    requires AllCompatible(ws, rs) && HasAll(ws, vs) && HasAll(rs, was)
    ensures HasAll(rs, a)
    decreases ws, vs
  {
    if ws == [] || rs == [] then was
    else [Adapt(ws[0], rs[0], vs[0], was[0])] + AdaptFields(ws[1..], rs[1..], vs[1..], was[1..])
  }
}
