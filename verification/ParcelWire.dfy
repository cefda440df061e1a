/** What the four parcelables and the calls of the interface look like in a parcel, written out
    field by field, and that the parcel types produce exactly that. */
module ParcelWire {
  import opened Bytes
  import opened NativeHandles
  import opened AidlTypes
  import opened Parcels
  import opened Parcelables
  import Rpc

  function Int(n: int): seq<Byte> { IntBytes(I32, n) }

  function Long(n: int): seq<Byte> { IntBytes(I64, n) }

  /** A string, or a vector of bytes: the count and the contents. */
  function Str(s: seq<Byte>): seq<Byte> { Int(|s|) + s }

  /** A parcelable: its size, which counts its own four bytes, and its fields. */
  function Sized(fields: seq<Byte>): seq<Byte> { Int(4 + |fields|) + fields }

  /** The same within another one or as an argument: behind a flag that says it is there. */
  function Present(fields: seq<Byte>): seq<Byte> { Int(1) + Sized(fields) }

  function Joined(parts: seq<seq<Byte>>): seq<Byte>
  {
    if parts == [] then [] else parts[0] + Joined(parts[1..])
  }

  function OptionFields(e: ExtendableType): seq<Byte> { Str(e.name) + Long(e.value) }

  function OptionParts(xs: seq<ExtendableType>): (parts: seq<seq<Byte>>)
    ensures |parts| == |xs| && forall i :: 0 <= i < |xs| ==> parts[i] == Present(OptionFields(xs[i]))
  {
    seq(|xs|, i requires 0 <= i < |xs| => Present(OptionFields(xs[i])))
  }

  function InfoParts(x: BufferDescriptorInfo): seq<seq<Byte>>
  {
    [Str(x.name), Int(x.width), Int(x.height), Int(x.layerCount), Int(x.format), Long(x.usage),
     Long(x.reservedSize), Int(|x.additionalOptions|) + Joined(OptionParts(x.additionalOptions))]
  }

  function InfoFields(x: BufferDescriptorInfo): seq<Byte> { Joined(InfoParts(x)) }

  function IntParts(xs: seq<Int32>): (parts: seq<seq<Byte>>)
    ensures |parts| == |xs| && forall i :: 0 <= i < |xs| ==> parts[i] == Int(xs[i])
  {
    seq(|xs|, i requires 0 <= i < |xs| => Int(xs[i]))
  }

  function HandleFields(h: AidlHandle): seq<Byte>
  {
    (Int(|h.fds|) + Joined(IntParts(h.fds))) + (Int(|h.ints|) + Joined(IntParts(h.ints)))
  }

  function HandleParts(hs: seq<AidlHandle>): (parts: seq<seq<Byte>>)
    ensures |parts| == |hs| && forall i :: 0 <= i < |hs| ==> parts[i] == Present(HandleFields(hs[i]))
  {
    seq(|hs|, i requires 0 <= i < |hs| => Present(HandleFields(hs[i])))
  }

  function ResultFields(r: AllocationResult): seq<Byte>
  {
    Int(r.stride) + (Int(|r.buffers|) + Joined(HandleParts(r.buffers)))
  }

  // ---- lists of values as lists of parts ----

  lemma {:induction false} FieldsJoined(ts: seq<Type>, vs: seq<Val>, parts: seq<seq<Byte>>)
    requires HasAll(ts, vs) && |parts| == |ts|
    requires forall i :: 0 <= i < |ts| ==> Has(ts[i], vs[i]) && parts[i] == Image(ts[i], vs[i])
    ensures Fields(ts, vs) == Joined(parts)
  {
    hide Has, Image;
    if ts != [] {
      FieldsJoined(ts[1..], vs[1..], parts[1..]);
    }
  }

  lemma {:induction false} ElementsJoined(e: Type, vs: seq<Val>, parts: seq<seq<Byte>>)
    requires |parts| == |vs| && (forall x <- vs :: Has(e, x))
    requires forall i :: 0 <= i < |vs| ==> parts[i] == Image(e, vs[i])
    ensures Elements(e, vs) == Joined(parts)
  {
    hide Has, Image;
    if vs != [] {
      assert vs[0] in vs;
      ElementsJoined(e, vs[1..], parts[1..]);
    }
  }

  // ---- the parcelables ----

  lemma OptionOnWire(e: ExtendableType)
    ensures Fields(EXTENDABLE, ExtendableVals(e)) == OptionFields(e)
  {
    var vs := ExtendableVals(e);
    assert EXTENDABLE[1..] == [TInt64] && vs[1..] == [VInt(e.value)];
    assert Fields([TInt64], vs[1..]) == Long(e.value) + Fields([TInt64][1..], vs[1..][1..]);
  }

  lemma {:induction false} OptionValsAt(xs: seq<ExtendableType>, i: nat)
    requires i < |xs|
    ensures OptionVals(xs)[i] == VParcelable(ExtendableVals(xs[i]))
  {
    if i > 0 {
      OptionValsAt(xs[1..], i - 1);
    }
  }

  lemma OptionsOnWire(xs: seq<ExtendableType>)
    ensures Elements(TParcelable(EXTENDABLE), OptionVals(xs)) == Joined(OptionParts(xs))
  {
    hide Fields, ExtendableVals, OptionFields, HasAll;
    var e := TParcelable(EXTENDABLE);
    forall i | 0 <= i < |xs| ensures Has(e, OptionVals(xs)[i]) && OptionParts(xs)[i] == Image(e, OptionVals(xs)[i]) {
      assert OptionVals(xs)[i] in OptionVals(xs);
      OptionValsAt(xs, i);
      OptionOnWire(xs[i]);
    }
    ElementsJoined(e, OptionVals(xs), OptionParts(xs));
  }

  lemma InfoPart(x: BufferDescriptorInfo, i: nat)
    requires i < 8
    ensures |INFO| == |InfoVals(x)| == |InfoParts(x)| == 8
    ensures Has(INFO[i], InfoVals(x)[i]) && InfoParts(x)[i] == Image(INFO[i], InfoVals(x)[i])
  {
    HasAllAt(INFO, InfoVals(x), i);
    hide HasAll, OptionParts, OptionVals, Body;
    if i == 7 {
      OptionsOnWire(x.additionalOptions);
    }
  }

  /** A descriptor: name, width, height, layer count, format, usage, reserved size, options. */
  lemma InfoOnWire(x: BufferDescriptorInfo)
    ensures Body(INFO, InfoVals(x)) == Sized(InfoFields(x))
  {
    hide Image, Has, InfoParts, InfoVals, Fields;
    InfoPart(x, 0);
    forall i | 0 <= i < 8 ensures Has(INFO[i], InfoVals(x)[i]) && InfoParts(x)[i] == Image(INFO[i], InfoVals(x)[i]) {
      InfoPart(x, i);
    }
    FieldsJoined(INFO, InfoVals(x), InfoParts(x));
  }

  lemma {:induction false} IntValsAt(xs: seq<Int32>, i: nat)
    requires i < |xs|
    ensures IntVals(xs)[i] == VInt(xs[i])
  {
    if i > 0 {
      IntValsAt(xs[1..], i - 1);
    }
  }

  lemma IntsOnWire(xs: seq<Int32>)
    ensures Elements(TInt32, IntVals(xs)) == Joined(IntParts(xs))
  {
    forall i | 0 <= i < |xs| ensures Has(TInt32, IntVals(xs)[i]) && IntParts(xs)[i] == Image(TInt32, IntVals(xs)[i]) {
      assert IntVals(xs)[i] in IntVals(xs);
      IntValsAt(xs, i);
    }
    ElementsJoined(TInt32, IntVals(xs), IntParts(xs));
  }

  /** A native handle: the descriptors, then the integers. */
  lemma HandleOnWire(h: AidlHandle)
    ensures Body(HANDLE, HandleVals(h)) == Sized(HandleFields(h))
  {
    var vs := HandleVals(h);
    IntsOnWire(h.fds);
    IntsOnWire(h.ints);
    assert HANDLE[1..] == [TList(TInt32)] && vs[1..] == [vs[1]];
    assert Fields([TList(TInt32)], [vs[1]]) == Image(TList(TInt32), vs[1]) + Fields([TList(TInt32)][1..], [vs[1]][1..]);
  }

  lemma {:induction false} BufferValsAt(hs: seq<AidlHandle>, i: nat)
    requires i < |hs|
    ensures BufferVals(hs)[i] == VParcelable(HandleVals(hs[i]))
  {
    if i > 0 {
      BufferValsAt(hs[1..], i - 1);
    }
  }

  lemma BuffersOnWire(hs: seq<AidlHandle>)
    ensures Elements(TParcelable(HANDLE), BufferVals(hs)) == Joined(HandleParts(hs))
  {
    hide Fields, HandleVals, HandleFields, HasAll, Body;
    var e := TParcelable(HANDLE);
    forall i | 0 <= i < |hs| ensures Has(e, BufferVals(hs)[i]) && HandleParts(hs)[i] == Image(e, BufferVals(hs)[i]) {
      assert BufferVals(hs)[i] in BufferVals(hs);
      BufferValsAt(hs, i);
      HandleOnWire(hs[i]);
    }
    ElementsJoined(e, BufferVals(hs), HandleParts(hs));
  }

  /** An allocation result: the stride, then the buffers. */
  lemma ResultOnWire(r: AllocationResult)
    ensures Body(RESULT, ResultVals(r)) == Sized(ResultFields(r))
  {
    var vs := ResultVals(r);
    BuffersOnWire(r.buffers);
    HasAllAt(RESULT, vs, 0);
    HasAllAt(RESULT, vs, 1);
    var stride, buffers := Int(r.stride), Int(|r.buffers|) + Joined(HandleParts(r.buffers));
    ResultImages(r);
    hide Has, Image, BufferVals;
    FieldsJoined(RESULT, vs, [stride, buffers]);
    JoinedPair(stride, buffers);
  }

  lemma ResultImages(r: AllocationResult)
    ensures Has(TInt32, VInt(r.stride)) && Image(TInt32, VInt(r.stride)) == Int(r.stride)
    ensures var v := VList(BufferVals(r.buffers));
            && Has(TList(TParcelable(HANDLE)), v)
            && Image(TList(TParcelable(HANDLE)), v) == Int(|r.buffers|) + Joined(HandleParts(r.buffers))
  {
    BuffersOnWire(r.buffers);
    hide HandleVals, HandleFields;
  }

  // ---- the calls ----

  /** The arguments of the three calls, by their numbers. */
  lemma ArgumentsOnWire(descriptor: seq<Byte>, info: BufferDescriptorInfo, count: Int32)
    ensures Rpc.IsCall(1) && Fields(Rpc.ArgTypes(1), Rpc.Args1(descriptor, count)) == Str(descriptor) + Int(count)
    ensures Rpc.IsCall(2) && Fields(Rpc.ArgTypes(2), Rpc.Args2(info, count)) == Present(InfoFields(info)) + Int(count)
    ensures Rpc.IsCall(3) && Fields(Rpc.ArgTypes(3), Rpc.Args3(info)) == Present(InfoFields(info))
  {
    InfoOnWire(info);
    hide Body, InfoVals, InfoFields;
    FieldsJoined(Rpc.ArgTypes(1), Rpc.Args1(descriptor, count), [Str(descriptor), Int(count)]);
    FieldsJoined(Rpc.ArgTypes(2), Rpc.Args2(info, count), [Present(InfoFields(info)), Int(count)]);
    FieldsJoined(Rpc.ArgTypes(3), Rpc.Args3(info), [Present(InfoFields(info))]);
    JoinedPair(Str(descriptor), Int(count));
    JoinedPair(Present(InfoFields(info)), Int(count));
    assert Joined([Present(InfoFields(info))]) == Present(InfoFields(info)) + Joined([Present(InfoFields(info))][1..]);
  }

  lemma JoinedPair(a: seq<Byte>, b: seq<Byte>)
    ensures Joined([a, b]) == a + b
  {
    assert [a, b][1..] == [b] && [b][1..] == [];
    assert Joined([b]) == b + Joined([]);
  }

  /** A status: the exception; unless it is none, the message and an empty stack trace; and for
      -8 the service's own code. */
  function StatusWire(s: Status): seq<Byte>
  {
    if s.exception == 0 then Int(0)
    else Int(s.exception) + Str(s.message) + Int(0) + if s.exception == -8 then Int(s.serviceCode) else []
  }

  lemma StatusOnWire(s: Status)
    ensures Rpc.StatusImage(s) == StatusWire(s)
  {
    var ts, vs := Rpc.StatusTypes(s.exception), Rpc.StatusVals(s);
    if s.exception == 0 {
    } else if s.exception == -8 {
      FieldsJoined(ts, vs, [Str(s.message), Int(0), Int(s.serviceCode)]);
      assert [Str(s.message), Int(0), Int(s.serviceCode)][1..] == [Int(0), Int(s.serviceCode)];
      JoinedPair(Int(0), Int(s.serviceCode));
    } else {
      FieldsJoined(ts, vs, [Str(s.message), Int(0)]);
      JoinedPair(Str(s.message), Int(0));
    }
  }

  /** The replies: the status of the implementation asked for these very arguments, and if it
      is OK its result. */
  lemma RepliesOnWire(s: Rpc.Service, descriptor: seq<Byte>, info: BufferDescriptorInfo, count: Int32)
    ensures var (status, result) := s.allocate(descriptor, count);
            Rpc.IsCall(1) && Rpc.Reply(s, 1, Rpc.Args1(descriptor, count)) ==
              StatusWire(status) + if status.exception == 0 then Present(ResultFields(result)) else []
    ensures var (status, result) := s.allocate2(info, count);
            Rpc.IsCall(2) && Rpc.Reply(s, 2, Rpc.Args2(info, count)) ==
              StatusWire(status) + if status.exception == 0 then Present(ResultFields(result)) else []
    ensures var (status, result) := s.isSupported(info);
            Rpc.IsCall(3) && Rpc.Reply(s, 3, Rpc.Args3(info)) ==
              StatusWire(status) + if status.exception == 0 then Int(if result then 1 else 0) else []
  {
    InfoInverse(info);
    hide StatusWire, Rpc.StatusImage, Body, InfoVals, InfoOf, ResultVals, ResultFields;
    StatusOnWire(s.allocate(descriptor, count).0);
    StatusOnWire(s.allocate2(info, count).0);
    StatusOnWire(s.isSupported(info).0);
    ResultOnWire(s.allocate(descriptor, count).1);
    ResultOnWire(s.allocate2(info, count).1);
  }

  // ---- what is refused ----

  /** A size that does not cover itself or ends beyond the largest position is a bad value; four
      missing bytes are missing data. */
  lemma BadSizesRefused(ts: seq<Type>, data: seq<Byte>, pos: nat, was: seq<Val>)
    requires HasAll(ts, was)
    ensures pos + 4 > |data| ==> ReadBody(ts, data, pos, was) == Fail(NotEnoughData)
    ensures pos + 4 <= |data| ==>
              var size := IntOf(I32, data[pos..pos + 4]);
              size < 4 || pos + size > 0x7fff_ffff ==> ReadBody(ts, data, pos, was) == Fail(BadValue)
  {
  }

  /** A negative count is a bad value, more bytes than there are is missing data, and a
      parcelable that is not there is unexpected. */
  lemma BadCountsRefused(t: Type, data: seq<Byte>, pos: nat, was: Val)
    requires Has(t, was) && pos + 4 <= |data| && (t.TBytes? || t.TList? || t.TParcelable?)
    ensures var n := IntOf(I32, data[pos..pos + 4]);
            && (!t.TParcelable? && n < 0 ==> ReadVal(t, data, pos, was) == Fail(BadValue))
            && (t.TBytes? && pos + 4 + n > |data| ==> ReadVal(t, data, pos, was) == Fail(NotEnoughData))
            && (t.TParcelable? && n == 0 ==> ReadVal(t, data, pos, was) == Fail(UnexpectedNull))
  {
  }
}
