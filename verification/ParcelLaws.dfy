/** Reading parcels back: one theorem for every type, every version of writer and reader,
    and every position in a parcel. */
module ParcelLaws {
  import opened Bytes
  import opened Parcels

  /** `s` lies in the parcel at `pos`. */
  predicate At(data: seq<Byte>, pos: nat, s: seq<Byte>)
  {
    pos + |s| <= |data| && data[pos..pos + |s|] == s
  }

  lemma AtSplit(data: seq<Byte>, pos: nat, a: seq<Byte>, b: seq<Byte>)
    requires At(data, pos, a + b)
    ensures At(data, pos, a) && At(data, pos + |a|, b)
  {
    assert data[pos..pos + |a|] == data[pos..pos + |a + b|][..|a|];
    assert data[pos + |a|..pos + |a| + |b|] == data[pos..pos + |a + b|][|a|..];
  }

  lemma IntAt(i: IntType, v: int, data: seq<Byte>, pos: nat)
    requires i.InRange(v) && At(data, pos, IntBytes(i, v))
    ensures ReadInt(i, data, pos) == Read(v, pos + i.Width())
  {
    IntRoundTrip(i, v);
  }

  lemma {:induction false} ElementsLength(e: Type, vs: seq<Val>)
    requires forall x <- vs :: Has(e, x)
    ensures |vs| <= |Elements(e, vs)|
  {
    if vs != [] {
      ElementsLength(e, vs[1..]);
    }
  }

  /** A value written by any version is read by any compatible version, wherever it lies and
      whatever follows it, as the fields both sides know, with the cursor right behind it. */
  lemma {:induction false} ReadsBack(w: Type, r: Type, v: Val, was: Val, data: seq<Byte>, pos: nat)
    requires Compatible(w, r) && Has(w, v) && Has(r, was)
    requires At(data, pos, Image(w, v)) && pos + |Image(w, v)| <= INT32_MAX
    ensures ReadVal(r, data, pos, was) == Read(Adapt(w, r, v, was), pos + |Image(w, v)|)
    decreases w, 0, 2
  {
    hide At, Elements, Body, ReadElements, ReadBody, ReadInt, IntBytes, AdaptElements, AdaptFields;
    match (w, r)
    case (TList(we), TList(re)) =>
      var n := |v.elems|;
      ElementsLength(we, v.elems);
      AtSplit(data, pos, IntBytes(I32, n), Elements(we, v.elems));
      IntAt(I32, n, data, pos);
      ElementsReadBack(we, re, v.elems, data, pos + 4);
    case (TParcelable(ws), TParcelable(rs)) =>
      AtSplit(data, pos, IntBytes(I32, 1), Body(ws, v.fields));
      IntAt(I32, 1, data, pos);
      BodyReadsBack(ws, rs, v.fields, was.fields, data, pos + 4);
    case (_, _) => LeafReadsBack(w, v, was, data, pos);
  }

  lemma LeafReadsBack(t: Type, v: Val, was: Val, data: seq<Byte>, pos: nat)
    requires (t.TInt32? || t.TInt64? || t.TBytes?) && Has(t, v) && Has(t, was)
    requires At(data, pos, Image(t, v)) && pos + |Image(t, v)| <= INT32_MAX
    ensures ReadVal(t, data, pos, was) == Read(v, pos + |Image(t, v)|)
  {
    match t
    case TInt32 => IntAt(I32, v.n, data, pos);
    case TInt64 => IntAt(I64, v.n, data, pos);
    case TBytes =>
      AtSplit(data, pos, IntBytes(I32, |v.bytes|), v.bytes);
      IntAt(I32, |v.bytes|, data, pos);
  }

  lemma {:induction false} ElementsReadBack(w: Type, r: Type, vs: seq<Val>, data: seq<Byte>, pos: nat)
    requires Compatible(w, r) && forall x <- vs :: Has(w, x)
    requires At(data, pos, Elements(w, vs)) && pos + |Elements(w, vs)| <= INT32_MAX
    ensures ReadElements(r, data, pos, |vs|) == Read(AdaptElements(w, r, vs), pos + |Elements(w, vs)|)
    decreases w, |vs| + 1, 0
  {
    hide At, Image, ReadVal, Adapt, Compatible, Has, Default;
    if vs != [] {
      var head := Image(w, vs[0]);
      AtSplit(data, pos, head, Elements(w, vs[1..]));
      ReadsBack(w, r, vs[0], Default(r), data, pos);
      ElementsReadBack(w, r, vs[1..], data, pos + |head|);
    }
  }

  lemma {:induction false} FieldsReadBack(ws: seq<Type>, rs: seq<Type>, vs: seq<Val>, was: seq<Val>, data: seq<Byte>, pos: nat)
    requires AllCompatible(ws, rs) && HasAll(ws, vs) && HasAll(rs, was)
    requires At(data, pos, Fields(ws, vs)) && pos + |Fields(ws, vs)| <= INT32_MAX
    ensures var end := pos + |Fields(ws, vs)|;
            ReadFields(rs, data, pos, end, was) == Read(AdaptFields(ws, rs, vs, was), end)
    decreases ws, 0, 0
  {
    hide At, Image, ReadVal, Adapt, Compatible, Has;
    if ws != [] && rs != [] {
      var head := Image(ws[0], vs[0]);
      AtSplit(data, pos, head, Fields(ws[1..], vs[1..]));
      ReadsBack(ws[0], rs[0], vs[0], was[0], data, pos);
      FieldsReadBack(ws[1..], rs[1..], vs[1..], was[1..], data, pos + |head|);
    }
  }

  lemma {:induction false} BodyReadsBack(ws: seq<Type>, rs: seq<Type>, vs: seq<Val>, was: seq<Val>, data: seq<Byte>, pos: nat)
    requires AllCompatible(ws, rs) && HasAll(ws, vs) && HasAll(rs, was)
    requires At(data, pos, Body(ws, vs)) && pos + |Body(ws, vs)| <= INT32_MAX
    ensures ReadBody(rs, data, pos, was) == Read(AdaptFields(ws, rs, vs, was), pos + |Body(ws, vs)|)
    decreases ws, 1, 0
  {
    hide At, Fields, ReadFields, AdaptFields, AllCompatible, HasAll, IntBytes;
    var size := 4 + |Fields(ws, vs)|;
    AtSplit(data, pos, IntBytes(I32, size), Fields(ws, vs));
    IntAt(I32, size, data, pos);
    FieldsReadBack(ws, rs, vs, was, data, pos + 4);
  }

  // ---- the same version on both sides ----

  lemma {:induction false} SameVersion(t: Type, v: Val, was: Val)
    requires Has(t, v) && Has(t, was)
    ensures Compatible(t, t) && Adapt(t, t, v, was) == v
    decreases t, 0, 2
  {
    match t
    case TList(e) =>
      SameElements(e, v.elems);
    case TParcelable(fs) =>
      SameFields(fs, v.fields, was.fields);
    case _ =>
  }

  lemma {:induction false} SameElements(e: Type, vs: seq<Val>)
    requires forall x <- vs :: Has(e, x)
    ensures Compatible(e, e) && AdaptElements(e, e, vs) == vs
    decreases e, |vs| + 1, 0
  {
    SameVersion(e, Default(e), Default(e));
    if vs != [] {
      SameVersion(e, vs[0], Default(e));
      SameElements(e, vs[1..]);
    }
  }

  lemma {:induction false} SameFields(ts: seq<Type>, vs: seq<Val>, was: seq<Val>)
    requires HasAll(ts, vs) && HasAll(ts, was)
    ensures AllCompatible(ts, ts) && AdaptFields(ts, ts, vs, was) == vs
    decreases ts, 0, 0
  {
    if ts != [] {
      SameVersion(ts[0], vs[0], was[0]);
      SameFields(ts[1..], vs[1..], was[1..]);
    }
  }

  /** Round trip, whatever the target held before. */
  lemma RoundTrip(t: Type, v: Val, was: Val, data: seq<Byte>, pos: nat)
    requires Has(t, v) && Has(t, was) && At(data, pos, Image(t, v)) && pos + |Image(t, v)| <= INT32_MAX
    ensures ReadVal(t, data, pos, was) == Read(v, pos + |Image(t, v)|)
  {
    SameVersion(t, v, was);
    ReadsBack(t, t, v, was, data, pos);
  }

  // ---- the two kinds of skew ----

  lemma {:induction false} OlderWriterFields(ts: seq<Type>, k: nat, vs: seq<Val>, was: seq<Val>)
    requires k <= |ts| && HasAll(ts[..k], vs) && HasAll(ts, was)
    ensures AllCompatible(ts[..k], ts) && AdaptFields(ts[..k], ts, vs, was) == vs + was[k..]
    decreases k
  {
    if k > 0 {
      hide Has, Compatible, Adapt;
      assert ts[..k][1..] == ts[1..][..k - 1];
      SameVersion(ts[0], vs[0], was[0]);
      OlderWriterFields(ts[1..], k - 1, vs[1..], was[1..]);
      assert was[1..][k - 1..] == was[k..];
      assert [vs[0]] + (vs[1..] + was[k..]) == vs + was[k..];
    } else {
      assert vs + was[0..] == was;
    }
  }

  /** A writer that knows only the first k fields: those are read, the others keep what
      they held. */
  lemma OlderWriter(ts: seq<Type>, k: nat, vs: seq<Val>, was: seq<Val>, data: seq<Byte>, pos: nat)
    requires k <= |ts| && HasAll(ts[..k], vs) && HasAll(ts, was)
    requires At(data, pos, Body(ts[..k], vs)) && pos + |Body(ts[..k], vs)| <= INT32_MAX
    ensures ReadBody(ts, data, pos, was) == Read(vs + was[k..], pos + |Body(ts[..k], vs)|)
  {
    OlderWriterFields(ts, k, vs, was);
    BodyReadsBack(ts[..k], ts, vs, was, data, pos);
  }

  lemma {:induction false} NewerWriterFields(ts: seq<Type>, more: seq<Type>, vs: seq<Val>, extra: seq<Val>, was: seq<Val>)
    requires HasAll(ts, vs) && HasAll(ts + more, vs + extra) && HasAll(ts, was)
    ensures AllCompatible(ts + more, ts) && AdaptFields(ts + more, ts, vs + extra, was) == vs
    decreases ts
  {
    if ts != [] {
      assert (ts + more)[1..] == ts[1..] + more && (vs + extra)[1..] == vs[1..] + extra;
      SameVersion(ts[0], vs[0], was[0]);
      NewerWriterFields(ts[1..], more, vs[1..], extra, was[1..]);
    }
  }

  /** A writer with further fields at the end: all of the reader's are read, the others are
      skipped. */
  lemma NewerWriter(ts: seq<Type>, more: seq<Type>, vs: seq<Val>, extra: seq<Val>, was: seq<Val>, data: seq<Byte>, pos: nat)
    requires HasAll(ts, vs) && HasAll(ts + more, vs + extra) && HasAll(ts, was)
    requires At(data, pos, Body(ts + more, vs + extra)) && pos + |Body(ts + more, vs + extra)| <= INT32_MAX
    ensures ReadBody(ts, data, pos, was) == Read(vs, pos + |Body(ts + more, vs + extra)|)
  {
    NewerWriterFields(ts, more, vs, extra, was);
    BodyReadsBack(ts + more, ts, vs + extra, was, data, pos);
  }

  /** On any bytes at all, a parcelable that is read successfully leaves the cursor at its
      start plus the size it claims, and that size is at least its own four bytes. */
  lemma CursorAtEnd(ts: seq<Type>, data: seq<Byte>, pos: nat, was: seq<Val>)
    requires HasAll(ts, was) && ReadBody(ts, data, pos, was).Read?
    ensures pos + 4 <= |data|
    ensures ReadBody(ts, data, pos, was).pos == pos + IntOf(I32, data[pos..pos + 4]) >= pos + 4
    ensures ReadBody(ts, data, pos, was).pos <= INT32_MAX
  {
  }

  /** Parcelables one after the other are read one after the other, whichever version wrote
      them. */
  lemma BackToBack(ws: seq<Type>, ws': seq<Type>, rs: seq<Type>, rs': seq<Type>, vs: seq<Val>, vs': seq<Val>,
                   was: seq<Val>, was': seq<Val>, data: seq<Byte>, pos: nat)
    requires AllCompatible(ws, rs) && AllCompatible(ws', rs')
    requires HasAll(ws, vs) && HasAll(ws', vs') && HasAll(rs, was) && HasAll(rs', was')
    requires At(data, pos, Body(ws, vs) + Body(ws', vs')) && pos + |Body(ws, vs)| + |Body(ws', vs')| <= INT32_MAX
    ensures ReadBody(rs, data, pos, was) == Read(AdaptFields(ws, rs, vs, was), pos + |Body(ws, vs)|)
    ensures ReadBody(rs', data, pos + |Body(ws, vs)|, was') ==
              Read(AdaptFields(ws', rs', vs', was'), pos + |Body(ws, vs)| + |Body(ws', vs')|)
  {
    hide At, Body, ReadBody, AdaptFields, AllCompatible, HasAll;
    AtSplit(data, pos, Body(ws, vs), Body(ws', vs'));
    BodyReadsBack(ws, rs, vs, was, data, pos);
    BodyReadsBack(ws', rs', vs', was', data, pos + |Body(ws, vs)|);
  }
}
