/** The four parcelables of the allocator interface as parcel types, and what the laws of
    parcels say about them. */
module Parcelables {
  import opened Bytes
  import opened NativeHandles
  import opened AidlTypes
  import opened Parcels
  import opened ParcelLaws
  import MetadataFormat

  const EXTENDABLE: seq<Type> := [TBytes, TInt64]

  const INFO: seq<Type> :=
    [TBytes, TInt32, TInt32, TInt32, TInt32, TInt64, TInt64, TList(TParcelable(EXTENDABLE))]

  const HANDLE: seq<Type> := [TList(TInt32), TList(TInt32)]

  const RESULT: seq<Type> := [TInt32, TList(TParcelable(HANDLE))]

  lemma {:induction false} HasAllAt(ts: seq<Type>, vs: seq<Val>, i: nat)
    requires HasAll(ts, vs) && i < |ts|
    ensures Has(ts[i], vs[i])
  {
    if i > 0 {
      HasAllAt(ts[1..], vs[1..], i - 1);
    }
  }

  lemma {:induction false} HasAllByIndex(ts: seq<Type>, vs: seq<Val>)
    requires |ts| == |vs| && forall i :: 0 <= i < |ts| ==> Has(ts[i], vs[i])
    ensures HasAll(ts, vs)
  {
    if ts != [] {
      HasAllByIndex(ts[1..], vs[1..]);
    }
  }

  // ---- ExtendableType ----

  function ExtendableVals(e: ExtendableType): (vs: seq<Val>)
    ensures HasAll(EXTENDABLE, vs)
  {
    var vs := [VBytes(e.name), VInt(e.value)];
    HasAllByIndex(EXTENDABLE, vs);
    vs
  }

  function ExtendableOf(vs: seq<Val>): (e: ExtendableType)
    requires HasAll(EXTENDABLE, vs)
    ensures ExtendableVals(e) == vs
  {
    HasAllAt(EXTENDABLE, vs, 0);
    HasAllAt(EXTENDABLE, vs, 1);
    MetadataFormat.ExtendableType(vs[0].bytes, vs[1].n)
  }

  function OptionVals(xs: seq<ExtendableType>): (vs: seq<Val>)
    ensures |vs| == |xs| && forall v <- vs :: Has(TParcelable(EXTENDABLE), v)
  {
    if xs == [] then [] else [VParcelable(ExtendableVals(xs[0]))] + OptionVals(xs[1..])
  }

  function OptionsOf(vs: seq<Val>): (xs: seq<ExtendableType>)
    requires forall v <- vs :: Has(TParcelable(EXTENDABLE), v)
    ensures OptionVals(xs) == vs
  {
    if vs == [] then [] else
      assert Has(TParcelable(EXTENDABLE), vs[0]);
      [ExtendableOf(vs[0].fields)] + OptionsOf(vs[1..])
  }

  lemma {:induction false} OptionsInverse(xs: seq<ExtendableType>)
    ensures OptionsOf(OptionVals(xs)) == xs
  {
    if xs != [] {
      OptionsInverse(xs[1..]);
    }
  }

  // ---- BufferDescriptorInfo ----

  function InfoVals(x: BufferDescriptorInfo): (vs: seq<Val>)
    ensures HasAll(INFO, vs)
  {
    var vs := [VBytes(x.name), VInt(x.width), VInt(x.height), VInt(x.layerCount), VInt(x.format), VInt(x.usage),
               VInt(x.reservedSize), VList(OptionVals(x.additionalOptions))];
    HasAllByIndex(INFO, vs);
    vs
  }

  function InfoOf(vs: seq<Val>): (x: BufferDescriptorInfo)
    requires HasAll(INFO, vs)
    ensures InfoVals(x) == vs
  {
    HasAllAt(INFO, vs, 0); HasAllAt(INFO, vs, 1); HasAllAt(INFO, vs, 2); HasAllAt(INFO, vs, 3);
    HasAllAt(INFO, vs, 4); HasAllAt(INFO, vs, 5); HasAllAt(INFO, vs, 6); HasAllAt(INFO, vs, 7);
    BufferDescriptorInfo(vs[0].bytes, vs[1].n, vs[2].n, vs[3].n, vs[4].n, vs[5].n, vs[6].n, OptionsOf(vs[7].elems))
  }

  lemma InfoInverse(x: BufferDescriptorInfo)
    ensures InfoOf(InfoVals(x)) == x
  {
    OptionsInverse(x.additionalOptions);
  }

  /** The fields of a descriptor of which only the first k came from `x`. */
  function MixInfo(x: BufferDescriptorInfo, was: BufferDescriptorInfo, k: nat): BufferDescriptorInfo
  {
    BufferDescriptorInfo(
      if k > 0 then x.name else was.name,
      if k > 1 then x.width else was.width,
      if k > 2 then x.height else was.height,
      if k > 3 then x.layerCount else was.layerCount,
      if k > 4 then x.format else was.format,
      if k > 5 then x.usage else was.usage,
      if k > 6 then x.reservedSize else was.reservedSize,
      if k > 7 then x.additionalOptions else was.additionalOptions)
  }

  lemma MixedVals(x: BufferDescriptorInfo, was: BufferDescriptorInfo, k: nat)
    requires k <= 8
    ensures InfoVals(MixInfo(x, was, k)) == InfoVals(x)[..k] + InfoVals(was)[k..]
    ensures HasAll(INFO[..k], InfoVals(x)[..k])
  {
    hide Has, OptionVals;
    var vs := InfoVals(x);
    forall i | 0 <= i < 8 ensures Has(INFO[i], vs[i]) { HasAllAt(INFO, vs, i); }
    HasAllByIndex(INFO[..k], vs[..k]);
  }

  lemma InfoCount(x: BufferDescriptorInfo)
    ensures |InfoVals(x)| == |INFO| == 8
  {
  }

  /** Version skew, older peer: a parcel whose writer knew only the first k fields gives
      those k and leaves the others of the target as they were. */
  lemma InfoFromOlderWriter(x: BufferDescriptorInfo, was: BufferDescriptorInfo, k: nat, data: seq<Byte>, pos: nat)
    requires k <= 8
    ensures HasAll(INFO[..k], InfoVals(x)[..k])
    ensures var image := Body(INFO[..k], InfoVals(x)[..k]);
            At(data, pos, image) && pos + |image| <= INT32_MAX ==>
              ReadBody(INFO, data, pos, InfoVals(was)) == Read(InfoVals(MixInfo(x, was, k)), pos + |image|)
  {
    MixedVals(x, was, k);
    InfoCount(x);
    InfoCount(was);
    hide Body, At, ReadBody, InfoVals, HasAll;
    var vs := InfoVals(x)[..k];
    if At(data, pos, Body(INFO[..k], vs)) && pos + |Body(INFO[..k], vs)| <= INT32_MAX {
      OlderWriter(INFO, k, vs, InfoVals(was), data, pos);
    }
  }

  /** Version skew, newer peer: further fields of any type are skipped. */
  lemma InfoFromNewerWriter(x: BufferDescriptorInfo, was: BufferDescriptorInfo, more: seq<Type>, extra: seq<Val>,
                            data: seq<Byte>, pos: nat)
    requires HasAll(INFO + more, InfoVals(x) + extra)
    requires At(data, pos, Body(INFO + more, InfoVals(x) + extra))
    requires pos + |Body(INFO + more, InfoVals(x) + extra)| <= INT32_MAX
    ensures ReadBody(INFO, data, pos, InfoVals(was)) ==
              Read(InfoVals(x), pos + |Body(INFO + more, InfoVals(x) + extra)|)
  {
    hide Body, At, ReadBody, InfoVals, HasAll;
    NewerWriter(INFO, more, InfoVals(x), extra, InfoVals(was), data, pos);
  }

  // ---- NativeHandle and AllocationResult ----

  function IntVals(xs: seq<Int32>): (vs: seq<Val>)
    ensures |vs| == |xs| && forall v <- vs :: Has(TInt32, v)
  {
    if xs == [] then [] else [VInt(xs[0])] + IntVals(xs[1..])
  }

  function IntsOf(vs: seq<Val>): (xs: seq<Int32>)
    requires forall v <- vs :: Has(TInt32, v)
    ensures IntVals(xs) == vs
  {
    if vs == [] then [] else
      assert Has(TInt32, vs[0]);
      [vs[0].n] + IntsOf(vs[1..])
  }

  lemma {:induction false} IntsInverse(xs: seq<Int32>)
    ensures IntsOf(IntVals(xs)) == xs
  {
    if xs != [] {
      IntsInverse(xs[1..]);
    }
  }

  function HandleVals(h: AidlHandle): (vs: seq<Val>)
    ensures HasAll(HANDLE, vs)
  {
    var vs := [VList(IntVals(h.fds)), VList(IntVals(h.ints))];
    HasAllByIndex(HANDLE, vs);
    vs
  }

  function HandleOf(vs: seq<Val>): (h: AidlHandle)
    requires HasAll(HANDLE, vs)
    ensures HandleVals(h) == vs
  {
    HasAllAt(HANDLE, vs, 0);
    HasAllAt(HANDLE, vs, 1);
    AidlHandle(IntsOf(vs[0].elems), IntsOf(vs[1].elems))
  }

  function BufferVals(xs: seq<AidlHandle>): (vs: seq<Val>)
    ensures |vs| == |xs| && forall v <- vs :: Has(TParcelable(HANDLE), v)
  {
    if xs == [] then [] else [VParcelable(HandleVals(xs[0]))] + BufferVals(xs[1..])
  }

  function BuffersOf(vs: seq<Val>): (xs: seq<AidlHandle>)
    requires forall v <- vs :: Has(TParcelable(HANDLE), v)
    ensures BufferVals(xs) == vs
  {
    if vs == [] then [] else
      assert Has(TParcelable(HANDLE), vs[0]);
      [HandleOf(vs[0].fields)] + BuffersOf(vs[1..])
  }

  lemma {:induction false} BuffersInverse(xs: seq<AidlHandle>)
    ensures BuffersOf(BufferVals(xs)) == xs
  {
    if xs != [] {
      HandleInverse(xs[0]);
      BuffersInverse(xs[1..]);
    }
  }

  function ResultVals(r: AllocationResult): (vs: seq<Val>)
    ensures HasAll(RESULT, vs)
  {
    var vs := [VInt(r.stride), VList(BufferVals(r.buffers))];
    HasAllByIndex(RESULT, vs);
    vs
  }

  function ResultOf(vs: seq<Val>): (r: AllocationResult)
    requires HasAll(RESULT, vs)
    ensures ResultVals(r) == vs
  {
    HasAllAt(RESULT, vs, 0);
    HasAllAt(RESULT, vs, 1);
    AllocationResult(vs[0].n, BuffersOf(vs[1].elems))
  }

  lemma HandleInverse(h: AidlHandle)
    ensures HandleOf(HandleVals(h)) == h
  {
    IntsInverse(h.fds);
    IntsInverse(h.ints);
  }

  lemma ResultInverse(r: AllocationResult)
    ensures ResultOf(ResultVals(r)) == r
  {
    BuffersInverse(r.buffers);
  }
}
