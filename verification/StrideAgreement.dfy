/** From the allocator's answer to the mapper's metadata: both sides speak of one stride. */
module StrideAgreement {
  import opened Bytes
  import opened Options
  import opened Formats
  import opened NativeHandles
  import opened AidlTypes
  import opened Allocator
  import opened Mapper
  import opened StandardMetadata
  import BufferObjects
  import Gralloc
  import MetadataFormat
  import MetadataReader
  import Codec = MetadataCodec
  import Parcels
  import ParcelLaws
  import ParcelIO
  import Parcelables

  /** The record that the importing side sees in a buffer carried over: everything but the
      descriptor is what the allocating side made. */
  lemma CarriedRecord(a: AidlHandle, g: GrallocHandle, doDup: bool, dups: seq<Int32>)
    requires Carries(a, g) && |dups| == 1
    ensures var raw := NativeFrom(a, doDup, dups);
            && raw.Valid() && raw.numFds == NUM_FDS && raw.numInts == NUM_INTS
            && GrallocOf(raw.data) == g.(primeFd := raw.data[0])
  {
    var raw := NativeFrom(a, doDup, dups);
    assert raw.data[1..] == Words(g)[1..];
    assert forall i :: 1 <= i < 13 ==> raw.data[i] == raw.data[1..][i - 1] == Words(g)[i];
    GrallocRoundTrip(g);
  }

  /** The STRIDE metadata of the imported buffer is the stride the allocator returned, 32
      bits read as unsigned. */
  lemma SameStride(desc: Gralloc.BufferDesc, g: GrallocHandle, stride: Int32, fd: Int32)
    requires Made(g, desc) && stride == Signed32(PixelStride(desc.format, g.stride))
    ensures StrideValue(g.(primeFd := fd)) == MetadataFormat.Number(Wrap32(stride))
  {
  }

  lemma {:induction false} IntsLength(xs: seq<Int32>)
    ensures |Parcels.Elements(Parcels.TInt32, Parcelables.IntVals(xs))| == 4 * |xs|
  {
    if xs != [] {
      IntsLength(xs[1..]);
    }
  }

  lemma TwoFields(a: Parcels.Type, b: Parcels.Type, x: Parcels.Val, y: Parcels.Val)
    requires Parcels.Has(a, x) && Parcels.Has(b, y)
    ensures Parcels.HasAll([a, b], [x, y])
    ensures |Parcels.Fields([a, b], [x, y])| == |Parcels.Image(a, x)| + |Parcels.Image(b, y)|
  {
    Parcelables.HasAllByIndex([a, b], [x, y]);
    assert [a, b][1..] == [b] && [x, y][1..] == [y];
    assert [b][1..] == [] && [y][1..] == [];
    assert Parcels.HasAll([b], [y]);
    assert Parcels.Fields([b], [y]) == Parcels.Image(b, y) + Parcels.Fields([], []);
  }

  lemma HandleSize(h: AidlHandle)
    ensures |Parcels.Image(Parcels.TParcelable(Parcelables.HANDLE), Parcels.VParcelable(Parcelables.HandleVals(h)))|
         == 16 + 4 * |h.fds| + 4 * |h.ints|
  {
    IntsLength(h.fds);
    IntsLength(h.ints);
    TwoFields(Parcels.TList(Parcels.TInt32), Parcels.TList(Parcels.TInt32),
              Parcels.VList(Parcelables.IntVals(h.fds)), Parcels.VList(Parcelables.IntVals(h.ints)));
  }

  /** A result with one buffer of ours is a parcel of 84 bytes. */
  lemma OneBufferSize(r: AllocationResult)
    requires |r.buffers| == 1 && |r.buffers[0].fds| == NUM_FDS && |r.buffers[0].ints| == NUM_INTS
    ensures |Parcels.Image(Parcels.TParcelable(Parcelables.RESULT), Parcels.VParcelable(Parcelables.ResultVals(r)))| == 84
  {
    var handle := Parcels.TParcelable(Parcelables.HANDLE);
    var vs := Parcelables.BufferVals(r.buffers);
    HandleSize(r.buffers[0]);
    assert vs[1..] == [];
    assert Parcels.Elements(handle, vs) == Parcels.Image(handle, vs[0]) + [];
    TwoFields(Parcels.TInt32, Parcels.TList(handle), Parcels.VInt(r.stride), Parcels.VList(vs));
  }

  /** Hand a result to another process: write it to a parcel and read it there. */
  method Transport(r: AllocationResult) returns (r': AllocationResult)
    requires |r.buffers| == 1 && |r.buffers[0].fds| == NUM_FDS && |r.buffers[0].ints| == NUM_INTS
    ensures r' == r
  {
    var t, v := Parcels.TParcelable(Parcelables.RESULT), Parcels.VParcelable(Parcelables.ResultVals(r));
    var p := new ParcelIO.Parcel();
    p.WriteVal(t, v);
    p.SetDataPosition(0);
    OneBufferSize(r);
    assert ParcelLaws.At(p.data, 0, Parcels.Image(t, v)) by { assert p.data[0..|p.data|] == p.data; }
    ParcelLaws.RoundTrip(t, v, Parcels.Default(t), p.data, 0);
    var err, got := p.ReadVal(t, Parcels.Default(t));
    r' := Parcelables.ResultOf(got.fields);
    Parcelables.ResultInverse(r);
  }

  /** The allocating process and the transport. */
  method AllocateAndCarry(allocator: GbmMesaAllocator, info: BufferDescriptorInfo, fd: Int32)
    returns (status: Status, stride: Int32, raw: NativeHandle, ghost g: GrallocHandle)
    requires allocator.process.Valid()
    modifies allocator.process
    ensures status.IsOk() ==>
              && raw.Valid() && raw.numFds == NUM_FDS && raw.numInts == NUM_INTS
              && GrallocOf(raw.data) == g.(primeFd := raw.data[0])
              && StrideValue(g.(primeFd := 0)) == MetadataFormat.Number(Wrap32(stride))
  {
    var result;
    ghost var records, said;
    status, result, records, said := allocator.Allocate2(info, 1);
    stride, raw, g := result.stride, NativeHandle(0, 0, []), GrallocOf(seq(NUM_FDS + NUM_INTS, _ => 0));
    if !status.IsOk() {
      return;
    }
    g := records[0];
    var arrived := Transport(result);
    CarriedRecord(arrived.buffers[0], g, true, [fd]);
    raw := FromAidl(arrived.buffers[0], true, [fd]);
    SameStride(ConvertToGbmDesc(info).desc, g, stride, 0);
  }

  /** The importing process. */
  method ImportAndAsk(mapper: GbmMesaMapper, raw: NativeHandle, ghost g: GrallocHandle)
    returns (error: int, seen: Option<MetadataFormat.Value>)
    requires mapper.Valid() && mapper.initialized
    requires raw.Valid() && raw.numFds == NUM_FDS && raw.numInts == NUM_INTS
    requires GrallocOf(raw.data) == g.(primeFd := raw.data[0])
    modifies mapper, mapper.process
    ensures mapper.Valid()
    ensures error == Mapper.NONE ==> seen == Some(StrideValue(g.(primeFd := 0)))
  {
    hide GrallocOf, Stream;
    seen := None;
    var h;
    ghost var said;
    error, h, said := mapper.ImportBuffer(raw);
    if error != Mapper.NONE {
      return;
    }
    assert StrideValue(mapper.process.handles[h]) == StrideValue(g.(primeFd := 0));
    ImportedIsLive(mapper.process.W(), mapper.store, mapper.imported, h);
    seen := AskStride(mapper, h);
  }

  /** Get the STRIDE metadata of an imported handle and decode it. */
  method AskStride(mapper: GbmMesaMapper, h: BufferObjects.Handle) returns (seen: Option<MetadataFormat.Value>)
    requires mapper.Valid() && mapper.initialized && h in mapper.imported && h in mapper.process.handles
    modifies mapper`store
    ensures mapper.Valid() && seen == Some(StrideValue(mapper.process.handles[h]))
  {
    hide Stream, StrideValue;
    var dest := new Byte[100](_ => 0);
    var n := mapper.GetStride(h, dest, 100);
    StrideStreams(StrideValue(mapper.process.handles[h]));
    seen := MetadataReader.DecodeFrom(STRIDE, MetadataFormat.IntKind(U32), dest[..n]);
  }

  /** One buffer, all the way: allocate it, carry the result over, import the handle in
      another process and ask the mapper for the stride there. */
  method StrideEndToEnd(allocator: GbmMesaAllocator, mapper: GbmMesaMapper, info: BufferDescriptorInfo, fd: Int32)
    returns (status: Status, error: int, stride: Int32, seen: Option<MetadataFormat.Value>)
    requires allocator.process.Valid() && mapper.Valid() && mapper.initialized
    requires allocator.process != mapper.process
    modifies allocator.process, mapper, mapper.process
    ensures status.IsOk() && error == Mapper.NONE ==> seen == Some(MetadataFormat.Number(Wrap32(stride)))
  {
    error, seen := Mapper.NO_RESOURCES, None;
    var raw;
    ghost var g;
    status, stride, raw, g := AllocateAndCarry(allocator, info, fd);
    if status.IsOk() {
      error, seen := ImportAndAsk(mapper, raw, g);
    }
  }

  lemma StrideStreams(v: MetadataFormat.Value)
    requires KindOf(STRIDE).value.Has(v)
    ensures |Stream(STRIDE, v)| == Codec.HEADER_SIZE + 4
    ensures Codec.Decode(STRIDE, MetadataFormat.IntKind(U32), Stream(STRIDE, v)) == Some(v)
  {
    Codec.EncodedSize(STRIDE, MetadataFormat.IntKind(U32), v);
    Codec.RoundTrip(STRIDE, MetadataFormat.IntKind(U32), v, []);
    assert Stream(STRIDE, v) + [] == Stream(STRIDE, v);
  }
}
