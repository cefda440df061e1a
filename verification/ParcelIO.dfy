/** The parcel in place: a cursor that moves over a growing byte string, and the generated
    read and write code on top of it. */
module ParcelIO {
  import opened Bytes
  import opened Options
  import P = Parcels

  /** Fields read one by one continue what was read so far. */
  function Prepend(done: seq<P.Val>, r: P.Reading<seq<P.Val>>): P.Reading<seq<P.Val>>
  {
    match r
    case Fail(s) => P.Fail(s)
    case Read(vs, pos) => P.Read(done + vs, pos)
  }

  lemma NothingYet(r: P.Reading<seq<P.Val>>)
    ensures Prepend([], r) == r
  {
    if r.Read? {
      assert [] + r.value == r.value;
    }
  }

  lemma FieldStep(ts: seq<P.Type>, data: seq<Byte>, pos: nat, end: nat, was: seq<P.Val>, done: seq<P.Val>)
    requires P.HasAll(ts, was) && ts != [] && pos < end
    ensures var r := P.ReadVal(ts[0], data, pos, was[0]);
            Prepend(done, P.ReadFields(ts, data, pos, end, was)) ==
              if r.Fail? then P.Fail(r.status)
              else Prepend(done + [r.value], P.ReadFields(ts[1..], data, r.pos, end, was[1..]))
  {
    var r := P.ReadVal(ts[0], data, pos, was[0]);
    if r.Read? {
      var rest := P.ReadFields(ts[1..], data, r.pos, end, was[1..]);
      if rest.Read? {
        assert done + ([r.value] + rest.value) == done + [r.value] + rest.value;
      }
    }
  }

  class Parcel {
    var data: seq<Byte>
    var pos: nat

    constructor ()
      ensures data == [] && pos == 0
    {
      data, pos := [], 0;
    }

    method SetDataPosition(p: nat)
      modifies this`pos
      ensures pos == p
    {
      pos := p;
    }

    /** Writes over what is at the cursor, and beyond the end. */
    method WriteBytes(s: seq<Byte>)
      requires pos <= |data|
      modifies this
      ensures pos == old(pos) + |s|
      ensures data == old(data)[..old(pos)] + s + if pos < |old(data)| then old(data)[pos..] else []
      ensures old(pos) == |old(data)| ==> data == old(data) + s && pos == |data|
    {
      var end := pos + |s|;
      data := data[..pos] + s + if end < |data| then data[end..] else [];
      pos := end;
    }

    method WriteInt(i: IntType, v: int)
      requires pos <= |data|
      modifies this
      ensures pos == old(pos) + i.Width()
      ensures data == old(data)[..old(pos)] + IntBytes(i, v) + if pos < |old(data)| then old(data)[pos..] else []
      ensures old(pos) == |old(data)| ==> data == old(data) + IntBytes(i, v) && pos == |data|
    {
      WriteBytes(IntBytes(i, v));
    }

    /** `AParcel_writeData` at the end of the parcel. */
    method WriteVal(t: P.Type, v: P.Val)
      requires P.Has(t, v) && pos == |data|
      modifies this
      ensures data == old(data) + P.Image(t, v) && pos == |data|
      decreases t, 0, 2
    {
      hide P.Elements, P.Body, P.HasAll;
      match t
      case TInt32 => WriteInt(I32, v.n);
      case TInt64 => WriteInt(I64, v.n);
      case TBytes =>
        WriteInt(I32, |v.bytes|);
        WriteBytes(v.bytes);
        Assoc(old(data), IntBytes(I32, |v.bytes|), v.bytes);
      case TList(e) =>
        WriteInt(I32, |v.elems|);
        WriteElements(e, v.elems);
        Assoc(old(data), IntBytes(I32, |v.elems|), P.Elements(e, v.elems));
      case TParcelable(fs) =>
        WriteInt(I32, 1);
        WriteToParcel(fs, v.fields);
        Assoc(old(data), IntBytes(I32, 1), P.Body(fs, v.fields));
    }

    method WriteElements(e: P.Type, vs: seq<P.Val>)
      requires (forall x <- vs :: P.Has(e, x)) && pos == |data|
      modifies this
      ensures data == old(data) + P.Elements(e, vs) && pos == |data|
      decreases e, |vs| + 1, 0
    {
      if vs != [] {
        hide P.Image;
        WriteVal(e, vs[0]);
        WriteElements(e, vs[1..]);
        Assoc(old(data), P.Image(e, vs[0]), P.Elements(e, vs[1..]));
      }
    }

    method WriteFields(ts: seq<P.Type>, vs: seq<P.Val>)
      requires P.HasAll(ts, vs) && pos == |data|
      modifies this
      ensures data == old(data) + P.Fields(ts, vs) && pos == |data|
      decreases ts, 0, 0
    {
      if ts != [] {
        hide P.Image, P.Has;
        WriteVal(ts[0], vs[0]);
        WriteFields(ts[1..], vs[1..]);
        Assoc(old(data), P.Image(ts[0], vs[0]), P.Fields(ts[1..], vs[1..]));
      }
    }

    /** A zero stands in for the size until the fields are written. */
    method WriteToParcel(ts: seq<P.Type>, vs: seq<P.Val>)
      requires P.HasAll(ts, vs) && pos == |data|
      modifies this
      ensures data == old(data) + P.Body(ts, vs) && pos == |data|
      decreases ts, 1, 0
    {
      hide P.Fields, P.HasAll;
      var start := pos;
      WriteInt(I32, 0);
      WriteFields(ts, vs);
      var end := pos;
      SetDataPosition(start);
      WriteInt(I32, end - start);
      SetDataPosition(end);
      assert data == old(data) + IntBytes(I32, end - start) + P.Fields(ts, vs);
    }

    method ReadInt(i: IntType) returns (err: Option<P.ParcelStatus>, v: int)
      modifies this`pos
      ensures match P.ReadInt(i, data, old(pos))
              case Fail(s) => err == Some(s)
              case Read(n, p) => err == None && v == n && pos == p
    {
      if pos + i.Width() > |data| {
        return Some(P.NotEnoughData), 0;
      }
      v := IntOf(i, data[pos..pos + i.Width()]);
      pos := pos + i.Width();
      err := None;
    }

    method ReadVal(t: P.Type, was: P.Val) returns (err: Option<P.ParcelStatus>, v: P.Val)
      requires P.Has(t, was)
      modifies this`pos
      ensures match P.ReadVal(t, data, old(pos), was)
              case Fail(s) => err == Some(s)
              case Read(x, p) => err == None && v == x && pos == p
      decreases t, 0, 2
    {
      v := was;
      var n;
      match t
      case TInt32 =>
        err, n := ReadInt(I32);
        v := P.VInt(n);
      case TInt64 =>
        err, n := ReadInt(I64);
        v := P.VInt(n);
      case TBytes =>
        err, n := ReadInt(I32);
        if err.None? {
          if n < 0 {
            return Some(P.BadValue), v;
          }
          if pos + n > |data| {
            return Some(P.NotEnoughData), v;
          }
          v := P.VBytes(data[pos..pos + n]);
          pos := pos + n;
        }
      case TList(e) =>
        err, n := ReadInt(I32);
        if err.None? {
          if n < 0 {
            return Some(P.BadValue), v;
          }
          var vs;
          err, vs := ReadElements(e, n);
          v := P.VList(vs);
        }
      case TParcelable(fs) =>
        err, n := ReadInt(I32);
        if err.None? {
          if n == 0 {
            return Some(P.UnexpectedNull), v;
          }
          var vs;
          err, vs := ReadFromParcel(fs, was.fields);
          v := P.VParcelable(vs);
        }
    }

    method ReadElements(e: P.Type, n: nat) returns (err: Option<P.ParcelStatus>, vs: seq<P.Val>)
      modifies this`pos
      ensures match P.ReadElements(e, data, old(pos), n)
              case Fail(s) => err == Some(s)
              case Read(x, p) => err == None && vs == x && pos == p
      decreases e, n + 1, 0
    {
      vs := [];
      if n == 0 {
        return None, vs;
      }
      var v;
      err, v := ReadVal(e, P.Default(e));
      if err.None? {
        var rest;
        err, rest := ReadElements(e, n - 1);
        vs := [v] + rest;
      }
    }

    method ReadFromParcel(ts: seq<P.Type>, was: seq<P.Val>) returns (err: Option<P.ParcelStatus>, vs: seq<P.Val>)
      requires P.HasAll(ts, was)
      modifies this`pos
      ensures match P.ReadBody(ts, data, old(pos), was)
              case Fail(s) => err == Some(s)
              case Read(x, p) => err == None && vs == x && pos == p
      decreases ts, 1, 0
    {
      hide P.ReadFields, P.HasAll, P.ReadInt;
      vs := was;
      var start, size := pos, 0;
      err, size := ReadInt(I32);
      if err.Some? {
        return;
      }
      if size < 4 {
        return Some(P.BadValue), vs;
      }
      if start > INT32_MAX - size {
        return Some(P.BadValue), vs;
      }
      err, vs := ReadFields(ts, start, size, was);
    }

    /** The generated code unrolls this loop: stop at the end the size claims, or read the
        next field; in the end the cursor is set to that end. */
    method ReadFields(ts: seq<P.Type>, start: nat, size: nat, was: seq<P.Val>)
      returns (err: Option<P.ParcelStatus>, vs: seq<P.Val>)
      requires P.HasAll(ts, was)
      modifies this`pos
      ensures match P.ReadFields(ts, data, old(pos), start + size, was)
              case Fail(s) => err == Some(s)
              case Read(x, p) => err == None && vs == x && pos == p
      decreases ts, 0, 0
    {
      hide P.ReadVal, P.Has;
      vs := was;
      var done, i := [], 0;
      assert ts[0..] == ts && was[0..] == was;
      NothingYet(P.ReadFields(ts, data, pos, start + size, was));
      while i < |ts| && pos - start < size
        invariant 0 <= i <= |ts| && |done| == i
        invariant P.HasAll(ts[i..], was[i..])
        invariant P.ReadFields(ts, data, old(pos), start + size, was)
               == Prepend(done, P.ReadFields(ts[i..], data, pos, start + size, was[i..]))
      {
        var v;
        assert ts[i..][1..] == ts[i + 1..] && was[i..][1..] == was[i + 1..];
        FieldStep(ts[i..], data, pos, start + size, was[i..], done);
        err, v := ReadVal(ts[i], was[i]);
        if err.Some? {
          return;
        }
        done := done + [v];
        i := i + 1;
      }
      vs := done + was[i..];
      SetDataPosition(start + size);
      err := None;
    }
  }
}
