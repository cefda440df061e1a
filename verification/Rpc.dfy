/** The stub and the skeleton of IAllocator: what a caller of the proxy gets is what a
    caller of the implementation would get. */
module Rpc {
  import opened Bytes
  import opened Options
  import opened AidlTypes
  import opened Parcels
  import opened ParcelLaws
  import opened ParcelIO
  import opened Parcelables

  // Transaction codes.
  const ALLOCATE := 1
  const ALLOCATE2 := 2
  const IS_SUPPORTED := 3

  predicate IsCall(code: int) { code == ALLOCATE || code == ALLOCATE2 || code == IS_SUPPORTED }

  function ArgTypes(code: int): seq<Type>
    requires IsCall(code)
  {
    if code == ALLOCATE then [TBytes, TInt32]
    else if code == ALLOCATE2 then [TParcelable(INFO), TInt32]
    else [TParcelable(INFO)]
  }

  function ReturnType(code: int): Type
    requires IsCall(code)
  {
    if code == IS_SUPPORTED then TInt32 else TParcelable(RESULT)
  }

  /** An implementation of the interface, as the answers it gives to one call each. */
  datatype Service = Service(
    allocate: (seq<Byte>, Int32) -> (Status, AllocationResult),
    allocate2: (BufferDescriptorInfo, Int32) -> (Status, AllocationResult),
    isSupported: BufferDescriptorInfo -> (Status, bool))

  /** The answer of an implementation, in parcel values. */
  function Serve(s: Service, code: int, args: seq<Val>): (r: (Status, Val))
    requires IsCall(code) && HasAll(ArgTypes(code), args)
    ensures Has(ReturnType(code), r.1)
  {
    HasAllAt(ArgTypes(code), args, 0);
    if code == ALLOCATE then
      HasAllAt(ArgTypes(code), args, 1);
      var (status, result) := s.allocate(args[0].bytes, args[1].n);
      (status, VParcelable(ResultVals(result)))
    else if code == ALLOCATE2 then
      HasAllAt(ArgTypes(code), args, 1);
      var (status, result) := s.allocate2(InfoOf(args[0].fields), args[1].n);
      (status, VParcelable(ResultVals(result)))
    else
      var (status, result) := s.isSupported(InfoOf(args[0].fields));
      (status, VInt(if result then 1 else 0))
  }

  // ---- status headers ----

  /** An OK status carries nothing else, and only service-specific ones carry a code. */
  predicate Normal(s: Status)
  {
    (s.exception == 0 ==> s == OK) && (s.exception != EX_SERVICE_SPECIFIC ==> s.serviceCode == 0)
  }

  /** The exception code; unless it is none, a message and an empty stack trace; and the
      service's code if there is one. */
  function StatusTypes(exception: Int32): seq<Type>
  {
    if exception == 0 then []
    else if exception == EX_SERVICE_SPECIFIC then [TBytes, TInt32, TInt32]
    else [TBytes, TInt32]
  }

  function StatusVals(s: Status): (vs: seq<Val>)
    ensures HasAll(StatusTypes(s.exception), vs)
  {
    var vs := if s.exception == 0 then []
              else if s.exception == EX_SERVICE_SPECIFIC then [VBytes(s.message), VInt(0), VInt(s.serviceCode)]
              else [VBytes(s.message), VInt(0)];
    HasAllByIndex(StatusTypes(s.exception), vs);
    vs
  }

  function StatusImage(s: Status): seq<Byte>
  {
    IntBytes(I32, s.exception) + Fields(StatusTypes(s.exception), StatusVals(s))
  }

  function StatusOf(exception: Int32, vs: seq<Val>): Status
    requires HasAll(StatusTypes(exception), vs)
  {
    if exception == 0 then OK
    else
      HasAllAt(StatusTypes(exception), vs, 0);
      if exception == EX_SERVICE_SPECIFIC then
        HasAllAt(StatusTypes(exception), vs, 2);
        Status(exception, vs[2].n, vs[0].bytes)
      else
        Status(exception, 0, vs[0].bytes)
  }

  // ---- values in sequence ----

  function ReadAll(ts: seq<Type>, data: seq<Byte>, pos: nat): (r: Reading<seq<Val>>)
    ensures r.Read? ==> HasAll(ts, r.value)
  {
    if ts == [] then Read([], pos)
    else
      var (v, p) :- ReadVal(ts[0], data, pos, Default(ts[0]));
      var (vs, p') :- ReadAll(ts[1..], data, p);
      Read([v] + vs, p')
  }

  lemma {:induction false} AllReadBack(ts: seq<Type>, vs: seq<Val>, data: seq<Byte>, pos: nat)
    requires HasAll(ts, vs) && At(data, pos, Fields(ts, vs)) && pos + |Fields(ts, vs)| <= INT32_MAX
    ensures ReadAll(ts, data, pos) == Read(vs, pos + |Fields(ts, vs)|)
  {
    hide At, Image, ReadVal, Has, Default;
    if ts != [] {
      var head := Image(ts[0], vs[0]);
      AtSplit(data, pos, head, Fields(ts[1..], vs[1..]));
      RoundTrip(ts[0], vs[0], Default(ts[0]), data, pos);
      AllReadBack(ts[1..], vs[1..], data, pos + |head|);
      assert [vs[0]] + vs[1..] == vs;
    }
  }

  method ReadArgs(p: Parcel, ts: seq<Type>) returns (err: Option<ParcelStatus>, vs: seq<Val>)
    modifies p`pos
    ensures match ReadAll(ts, p.data, old(p.pos))
            case Fail(s) => err == Some(s)
            case Read(x, q) => err == None && vs == x && p.pos == q
  {
    vs := [];
    if ts == [] {
      return None, vs;
    }
    var v;
    err, v := p.ReadVal(ts[0], Default(ts[0]));
    if err.None? {
      var rest;
      err, rest := ReadArgs(p, ts[1..]);
      vs := [v] + rest;
    }
  }

  method WriteStatusHeader(p: Parcel, s: Status)
    requires p.pos == |p.data|
    modifies p
    ensures p.data == old(p.data) + StatusImage(s) && p.pos == |p.data|
  {
    p.WriteInt(I32, s.exception);
    p.WriteFields(StatusTypes(s.exception), StatusVals(s));
    Assoc(old(p.data), IntBytes(I32, s.exception), Fields(StatusTypes(s.exception), StatusVals(s)));
  }

  function ReadStatus(data: seq<Byte>, pos: nat): Reading<Status>
  {
    var (exception, p) :- Parcels.ReadInt(I32, data, pos);
    var (vs, p') :- ReadAll(StatusTypes(exception), data, p);
    Read(StatusOf(exception, vs), p')
  }

  lemma StatusReadsBack(s: Status, data: seq<Byte>, pos: nat)
    requires Normal(s) && At(data, pos, StatusImage(s)) && pos + |StatusImage(s)| <= INT32_MAX
    ensures ReadStatus(data, pos) == Read(s, pos + |StatusImage(s)|)
  {
    AtSplit(data, pos, IntBytes(I32, s.exception), Fields(StatusTypes(s.exception), StatusVals(s)));
    IntAt(I32, s.exception, data, pos);
    AllReadBack(StatusTypes(s.exception), StatusVals(s), data, pos + 4);
  }

  method ReadStatusHeader(p: Parcel) returns (err: Option<ParcelStatus>, s: Status)
    modifies p`pos
    ensures match ReadStatus(p.data, old(p.pos))
            case Fail(e) => err == Some(e)
            case Read(x, q) => err == None && s == x && p.pos == q
  {
    s := OK;
    var exception, vs;
    err, exception := p.ReadInt(I32);
    if err.None? {
      err, vs := ReadArgs(p, StatusTypes(exception));
      if err.None? {
        s := StatusOf(exception, vs);
      }
    }
  }

  // ---- the skeleton ----

  datatype Transaction = Done | Unknown | Broken(status: ParcelStatus)

  /** What comes back for arguments that arrive: the status header, and the value if OK. */
  function Reply(s: Service, code: int, args: seq<Val>): seq<Byte>
    requires IsCall(code) && HasAll(ArgTypes(code), args)
  {
    var (status, v) := Serve(s, code, args);
    StatusImage(status) + if status.IsOk() then Image(ReturnType(code), v) else []
  }

  /** `known` are the calls that the other side's version of the interface has. */
  method OnTransact(s: Service, known: set<int>, code: int, input: Parcel) returns (t: Transaction, output: Parcel)
    requires IsCall(code)
    modifies input`pos
    ensures fresh(output)
    ensures code !in known ==> t == Unknown
    ensures code in known ==>
              match ReadAll(ArgTypes(code), input.data, old(input.pos))
              case Fail(e) => t == Broken(e)
              case Read(args, _) => t == Done && output.data == Reply(s, code, args)
  {
    output := new Parcel();
    if code !in known {
      return Unknown, output;
    }
    var err, args := ReadArgs(input, ArgTypes(code));
    if err.Some? {
      return Broken(err.value), output;
    }
    var (status, v) := Serve(s, code, args);
    WriteStatusHeader(output, status);
    assert output.data == StatusImage(status);
    if status.IsOk() {
      output.WriteVal(ReturnType(code), v);
    }
    t := Done;
  }

  // ---- the proxy ----

  const EX_TRANSACTION_FAILED: Int32 := -129

  function TransportError(): Status { Status(EX_TRANSACTION_FAILED, 0, []) }

  /** What the caller of the proxy should see. */
  function Direct(s: Service, known: set<int>, fallback: Option<Service>, code: int, args: seq<Val>): (r: (Status, Val))
    requires IsCall(code) && HasAll(ArgTypes(code), args)
    ensures Has(ReturnType(code), r.1)
  {
    if code in known then Serve(s, code, args)
    else if fallback.Some? then Serve(fallback.value, code, args)
    else (TransportError(), Default(ReturnType(code)))
  }

  /** The parcels stay within what a parcel position can express. */
  predicate Fits(s: Service, code: int, args: seq<Val>)
    requires IsCall(code) && HasAll(ArgTypes(code), args)
  {
    |Fields(ArgTypes(code), args)| <= INT32_MAX && |Reply(s, code, args)| <= INT32_MAX
  }

  /** One call over a lossless transport. */
  method Call(s: Service, known: set<int>, fallback: Option<Service>, code: int, args: seq<Val>, was: Val)
    returns (status: Status, v: Val)
    requires IsCall(code) && HasAll(ArgTypes(code), args) && Has(ReturnType(code), was)
    requires Normal(Serve(s, code, args).0) && Fits(s, code, args)
    ensures Has(ReturnType(code), v)
    ensures status == Direct(s, known, fallback, code, args).0
    ensures status.IsOk() ==> v == Direct(s, known, fallback, code, args).1
    ensures !status.IsOk() && code in known ==> v == was
  {
    v := was;
    var input := new Parcel();
    input.WriteFields(ArgTypes(code), args);
    input.SetDataPosition(0);
    ArgumentsArrive(code, args, input.data);
    var t, output := OnTransact(s, known, code, input);
    if t == Unknown && fallback.Some? {
      var (status', v') := Serve(fallback.value, code, args);
      return status', v';
    }
    if t != Done {
      return TransportError(), v;
    }
    output.SetDataPosition(0);
    ReplyArrives(s, code, args, was);
    var err;
    err, status := ReadStatusHeader(output);
    if err.Some? {
      return TransportError(), v;
    }
    if !status.IsOk() {
      return;
    }
    err, v := output.ReadVal(ReturnType(code), was);
    status := if err.Some? then TransportError() else OK;
  }

  lemma ArgumentsArrive(code: int, args: seq<Val>, data: seq<Byte>)
    requires IsCall(code) && HasAll(ArgTypes(code), args) && |Fields(ArgTypes(code), args)| <= INT32_MAX
    requires data == [] + Fields(ArgTypes(code), args)
    ensures ReadAll(ArgTypes(code), data, 0).Read? && ReadAll(ArgTypes(code), data, 0).value == args
  {
    assert At(data, 0, Fields(ArgTypes(code), args));
    AllReadBack(ArgTypes(code), args, data, 0);
  }

  lemma ReplyArrives(s: Service, code: int, args: seq<Val>, was: Val)
    requires IsCall(code) && HasAll(ArgTypes(code), args) && Has(ReturnType(code), was)
    requires Normal(Serve(s, code, args).0) && |Reply(s, code, args)| <= INT32_MAX
    ensures var data := Reply(s, code, args);
            var (status, v) := Serve(s, code, args);
            var header := ReadStatus(data, 0);
            && header.Read? && header.value == status
            && (status.IsOk() ==> ReadVal(ReturnType(code), data, header.pos, was) == Read(v, |data|))
  {
    var data := Reply(s, code, args);
    var (status, v) := Serve(s, code, args);
    assert At(data, 0, data) by { assert data[0..|data|] == data; }
    var value := if status.IsOk() then Image(ReturnType(code), v) else [];
    AtSplit(data, 0, StatusImage(status), value);
    StatusReadsBack(status, data, 0);
    if status.IsOk() {
      RoundTrip(ReturnType(code), v, was, data, |StatusImage(status)|);
    }
  }

  // ---- the interface ----

  function Args1(descriptor: seq<Byte>, count: Int32): (vs: seq<Val>)
    ensures HasAll(ArgTypes(ALLOCATE), vs)
  {
    HasAllByIndex(ArgTypes(ALLOCATE), [VBytes(descriptor), VInt(count)]);
    [VBytes(descriptor), VInt(count)]
  }

  function Args2(info: BufferDescriptorInfo, count: Int32): (vs: seq<Val>)
    ensures HasAll(ArgTypes(ALLOCATE2), vs)
  {
    HasAllByIndex(ArgTypes(ALLOCATE2), [VParcelable(InfoVals(info)), VInt(count)]);
    [VParcelable(InfoVals(info)), VInt(count)]
  }

  function Args3(info: BufferDescriptorInfo): (vs: seq<Val>)
    ensures HasAll(ArgTypes(IS_SUPPORTED), vs)
  {
    HasAllByIndex(ArgTypes(IS_SUPPORTED), [VParcelable(InfoVals(info))]);
    [VParcelable(InfoVals(info))]
  }

  /** The proxy gives the status, and if it is OK the result, that the implementation gives
      for the same arguments, whatever the result variable held; a peer that does not have
      the call is replaced by the default implementation if there is one. */
  method BpAllocate(s: Service, known: set<int>, fallback: Option<Service>, descriptor: seq<Byte>, count: Int32,
                    was: AllocationResult) returns (status: Status, result: AllocationResult)
    requires Normal(s.allocate(descriptor, count).0) && Fits(s, ALLOCATE, Args1(descriptor, count))
    ensures ALLOCATE in known ==>
              status == s.allocate(descriptor, count).0 && (status.IsOk() ==> result == s.allocate(descriptor, count).1)
    ensures ALLOCATE !in known && fallback.Some? ==>
              && status == fallback.value.allocate(descriptor, count).0
              && (status.IsOk() ==> result == fallback.value.allocate(descriptor, count).1)
    ensures ALLOCATE !in known && fallback.None? ==> status == Status(-129, 0, [])
  {
    var v;
    status, v := Call(s, known, fallback, ALLOCATE, Args1(descriptor, count), VParcelable(ResultVals(was)));
    result := ResultOf(v.fields);
    ResultInverse(s.allocate(descriptor, count).1);
    if fallback.Some? {
      ResultInverse(fallback.value.allocate(descriptor, count).1);
    }
  }

  method BpAllocate2(s: Service, known: set<int>, fallback: Option<Service>, info: BufferDescriptorInfo, count: Int32,
                     was: AllocationResult) returns (status: Status, result: AllocationResult)
    requires Normal(s.allocate2(info, count).0) && Fits(s, ALLOCATE2, Args2(info, count))
    ensures ALLOCATE2 in known ==>
              status == s.allocate2(info, count).0 && (status.IsOk() ==> result == s.allocate2(info, count).1)
    ensures ALLOCATE2 !in known && fallback.Some? ==>
              && status == fallback.value.allocate2(info, count).0
              && (status.IsOk() ==> result == fallback.value.allocate2(info, count).1)
    ensures ALLOCATE2 !in known && fallback.None? ==> status == Status(-129, 0, [])
  {
    InfoInverse(info);
    var v;
    status, v := Call(s, known, fallback, ALLOCATE2, Args2(info, count), VParcelable(ResultVals(was)));
    result := ResultOf(v.fields);
    ResultInverse(s.allocate2(info, count).1);
    if fallback.Some? {
      ResultInverse(fallback.value.allocate2(info, count).1);
    }
  }

  method BpIsSupported(s: Service, known: set<int>, fallback: Option<Service>, info: BufferDescriptorInfo, was: bool)
    returns (status: Status, result: bool)
    requires Normal(s.isSupported(info).0) && Fits(s, IS_SUPPORTED, Args3(info))
    ensures IS_SUPPORTED in known ==>
              status == s.isSupported(info).0 && (status.IsOk() ==> result == s.isSupported(info).1)
    ensures IS_SUPPORTED !in known && fallback.Some? ==>
              && status == fallback.value.isSupported(info).0
              && (status.IsOk() ==> result == fallback.value.isSupported(info).1)
    ensures IS_SUPPORTED !in known && fallback.None? ==> status == Status(-129, 0, [])
  {
    InfoInverse(info);
    var v;
    status, v := Call(s, known, fallback, IS_SUPPORTED, Args3(info), VInt(if was then 1 else 0));
    result := v.n != 0;
  }
}
