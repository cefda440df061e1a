/** The allocator service: descriptor conversion, and the batch allocation that either hands
    out every buffer or leaves nothing behind. */
module Allocator {
  import opened Bytes
  import opened Options
  import opened Formats
  import opened NativeHandles
  import opened AidlTypes
  import opened BufferObjects
  import opened Gralloc
  import Geometry

  datatype Converted = Refused(status: Status) | Converted(desc: BufferDesc)

  /** What 32 bits keep of a descriptor. */
  function CutDown(info: BufferDescriptorInfo): BufferDesc
  {
    BufferDesc(width := info.width % 0x1_0000_0000, height := info.height % 0x1_0000_0000,
               format := info.format % 0x1_0000_0000, usage := info.usage % 0x1_0000_0000)
  }

  /** `convertToGBMDesc`: everything is cut down to 32 bits. */
  function ConvertToGbmDesc(info: BufferDescriptorInfo): (r: Converted)
    ensures r.Refused? ==> !r.status.IsOk()
  {
    if info.width == 0 || info.height == 0 then Refused(ServiceError(BAD_DESCRIPTOR))
    else if info.layerCount > 1 then Refused(ServiceError(UNSUPPORTED))
    else Converted(CutDown(info))
  }

  function FdSet(fds: seq<Int32>): set<Int32>
  {
    if fds == [] then {} else FdSet(fds[..|fds| - 1]) + Descriptor(fds[|fds| - 1])
  }

  /** The descriptors, other than missing ones, that a list of results holds. */
  function GivenFds(buffers: seq<AidlHandle>): set<Int32>
  {
    if buffers == [] then {} else GivenFds(buffers[..|buffers| - 1]) + FdSet(buffers[|buffers| - 1].fds)
  }

  /** No two results share a descriptor. */
  predicate NoSharedFds(buffers: seq<AidlHandle>)
  {
    buffers == [] || (NoSharedFds(buffers[..|buffers| - 1])
                      && GivenFds(buffers[..|buffers| - 1]) !! FdSet(buffers[|buffers| - 1].fds))
  }

  /** A result that carries `g` to another process: one duplicate, and every integer. */
  predicate Carries(a: AidlHandle, g: GrallocHandle)
  {
    |a.fds| == 1 && a.ints == Words(g)[1..]
  }

  /** What a record keeps of the request. */
  predicate Made(g: GrallocHandle, desc: BufferDesc)
  {
    g.width == desc.width && g.height == desc.height && g.format == desc.format && g.usage == desc.usage
  }

  /** What the surroundings answer to an allocation: of all refusals, only that of a duplicate
      descriptor does not make it fail. */
  predicate Granted(said: seq<Outcome>) { forall a <- said :: a.MadeFd? || !Refusal(a) }

  /** GBM is asked for nothing but what the request says. */
  predicate AsRequested(said: seq<Outcome>, desc: BufferDesc)
  {
    forall a <- said :: a.CreatedBo? ==>
      && a.request == Geometry.AllocateRequest(desc.width, desc.height, desc.format, Bits(desc.usage))
      && a.flags == GbmFlags(Bits(desc.usage), desc.format)
  }

  class GbmMesaAllocator {
    const process: Process
    var gbmDevFd: Int32

    constructor (process: Process, gbmDevFd: Int32)
      ensures this.process == process && this.gbmDevFd == gbmDevFd
    {
      this.process := process;
      this.gbmDevFd := gbmDevFd;
    }

    predicate IsInitialized()
      reads this
    {
      gbmDevFd > 0
    }

    method GbmAllocateBuffer(desc: BufferDesc)
      returns (status: Status, stride: Int32, handle: Handle, ghost t: Transition, ghost said: seq<Outcome>)
      requires process.Valid()
      modifies process
      ensures process.Valid() && Next(old(process.W()), t, process.W()) && process.deviceOpen == old(process.deviceOpen)
      ensures process.log == old(process.log) + said && AsRequested(said, desc)
      ensures status.IsOk() <==> gbmDevFd > 0 && process.deviceOpen && Granted(said)
      ensures gbmDevFd <= 0 ==> said == []
      ensures !status.IsOk() ==> status == Status(-8, 1, []) && t == Nothing
      ensures status.IsOk() ==>
                && t.Bound? && t.item.handle == handle != NULL && Made(t.item.record, desc)
                && stride == Signed32(PixelStride(desc.format, t.item.record.stride))
                && |said| == 3
    {
      hide Inv, FreshItem, Bind, PixelStride, Geometry.AllocateRequest, GbmFlags, Next;
      stride, handle, t, said := 0, NULL, Nothing, [];
      NothingNext(process.W());
      if !IsInitialized() {
        return ServiceError(NO_RESOURCES), stride, handle, t, said;
      }
      var code, byteStride;
      code, byteStride, handle, t, said := process.GrallocAllocate(desc);
      if code != 0 {
        assert said != [] ==> said[|said| - 1] in said && Refusal(said[|said| - 1]);
        return ServiceError(NO_RESOURCES), stride, handle, t, said;
      }
      stride := Signed32(PixelStride(desc.format, Wrap32(byteStride)));
      status := OK;
    }

    /** `dupToAidl` of a live handle. */
    method DupToAidl(h: Handle) returns (a: AidlHandle, ghost fd: Int32)
      requires process.Valid() && h in process.handles
      modifies process`fds, process`log
      ensures process.Valid() && Carries(a, process.handles[h])
      ensures process.log == old(process.log) + [MadeFd(fd)]
      ensures process.fds == old(process.fds) + FdSet(a.fds) && FdSet(a.fds) !! old(process.fds)
    {
      var dup := process.NewFd();
      fd := dup;
      a := ToAidl(NativeOf(process.handles[h]), true, [dup]);
      assert [fd][..0] == [];
      assert FdSet([fd]) == Descriptor(fd);
      NextKeepsInv(old(process.W()), GivenOut(Descriptor(fd)), process.W());
    }

    /** Free the BO, close the descriptor and delete the handle of the first of `items`. */
    method Release(h: Handle, ghost w: World, ghost items: seq<Item>)
      requires process.Valid() && items != [] && items[0].handle == h
      requires FreshAll(w, items) && process.W() == BindAll(w, items)
      modifies process
      ensures process.Valid() && process.W() == BindAll(w, items[1..])
      ensures process.log == old(process.log) && process.deviceOpen == old(process.deviceOpen)
    {
      UndoFirst(w, items);
      hide Inv, FreshAll, BindAll;
      var code, t := process.GrallocFree(h);
      var t' := process.CloseAndDelete(h);
    }

    /** The rollback loop. */
    method ReleaseAll(handles: seq<Handle>, ghost w: World, ghost items: seq<Item>)
      requires process.Valid() && |handles| == |items|
      requires forall k :: 0 <= k < |items| ==> handles[k] == items[k].handle != NULL
      requires FreshAll(w, items) && process.W() == BindAll(w, items)
      modifies process
      ensures process.Valid() && process.W() == w
      ensures process.log == old(process.log) && process.deviceOpen == old(process.deviceOpen)
    {
      hide Inv;
      assert items[0..] == items;
      for j := 0 to |handles|
        invariant process.Valid() && FreshAll(w, items[j..]) && process.W() == BindAll(w, items[j..])
        invariant process.log == old(process.log) && process.deviceOpen == old(process.deviceOpen)
      {
        if handles[j] == NULL {
          continue;
        }
        Release(handles[j], w, items[j..]);
        assert items[j..][1..] == items[j + 1..];
      }
    }

    method HandOutOne(h: Handle, ghost w: World, ghost items: seq<Item>)
      returns (buffer: AidlHandle, ghost fd: Int32)
      requires process.Valid() && items != [] && items[0].handle == h
      requires FreshAll(w, items) && process.W() == BindAll(w, items)
      modifies process
      ensures process.Valid() && Carries(buffer, items[0].record) && FdSet(buffer.fds) !! w.fds
      ensures FreshAll(WithFds(w, buffer), items[1..])
      ensures process.W() == BindAll(WithFds(w, buffer), items[1..])
      ensures process.log == old(process.log) + [MadeFd(fd)]
      ensures process.deviceOpen == old(process.deviceOpen)
    {
      hide Inv, Carries, FdSet;
      UndoFirst(w, items);
      BindAllGrows(w, items);
      buffer, fd := DupToAidl(h);
      hide BindAll, FreshAll;
      GiveOutBeside(w, items, FdSet(buffer.fds));
      Release(h, WithFds(w, buffer), items);
    }

    /** The filling loop: hand out a duplicate of each handle and release it. */
    method HandOut(handles: seq<Handle>, ghost w: World, ghost items: seq<Item>)
      returns (buffers: seq<AidlHandle>, ghost said: seq<Outcome>)
      requires process.Valid() && |handles| == |items|
      requires forall k :: 0 <= k < |items| ==> handles[k] == items[k].handle != NULL
      requires FreshAll(w, items) && process.W() == BindAll(w, items)
      modifies process
      ensures process.Valid() && |buffers| == |items|
      ensures forall k :: 0 <= k < |items| ==> Carries(buffers[k], items[k].record)
      ensures NoSharedFds(buffers) && GivenFds(buffers) !! w.fds
      ensures process.W() == w.(fds := w.fds + GivenFds(buffers))
      ensures process.log == old(process.log) + said && |said| == |items| && forall a <- said :: a.MadeFd?
      ensures process.deviceOpen == old(process.deviceOpen)
    {
      hide Inv, Carries, BindAll, FreshAll, FdSet;
      buffers, said := [], [];
      assert items[0..] == items && With(w, []) == w;
      NoneBound(With(w, buffers));
      for i := 0 to |handles|
        invariant process.Valid() && |buffers| == i
        invariant forall k :: 0 <= k < i ==> Carries(buffers[k], items[k].record)
        invariant NoSharedFds(buffers) && GivenFds(buffers) !! w.fds
        invariant FreshAll(With(w, buffers), items[i..]) && process.W() == BindAll(With(w, buffers), items[i..])
        invariant process.log == old(process.log) + said && |said| == i && forall a <- said :: a.MadeFd?
        invariant process.deviceOpen == old(process.deviceOpen)
      {
        if handles[i] == NULL {
          buffers := buffers + [AidlHandle([], [])];
          continue;
        }
        var buffer;
        ghost var fd;
        buffer, fd := HandOutOne(handles[i], With(w, buffers), items[i..]);
        said := said + [MadeFd(fd)];
        assert (buffers + [buffer])[..i] == buffers;
        assert With(w, buffers + [buffer]) == WithFds(With(w, buffers), buffer);
        assert items[i..][1..] == items[i + 1..];
        buffers := buffers + [buffer];
      }
      assert items[|items|..] == [];
      NoneBound(With(w, buffers));
    }

    /** All or nothing: a failure leaves the world as it was; success leaves it as it was
        but for the descriptors in `count` result buffers, each made as requested. It
        succeeds exactly if the device is there and nothing was refused. */
    method DoAllocate(desc: BufferDesc, count: Int32)
      returns (status: Status, result: AllocationResult, ghost records: seq<GrallocHandle>, ghost said: seq<Outcome>)
      requires process.Valid() && count >= 0
      modifies process
      ensures process.Valid() && process.deviceOpen == old(process.deviceOpen)
      ensures process.log == old(process.log) + said && AsRequested(said, desc)
      ensures status.IsOk() <==> gbmDevFd > 0 && (count == 0 || process.deviceOpen) && Granted(said)
      ensures gbmDevFd <= 0 ==> said == []
      ensures !status.IsOk() ==> status == Status(-8, 1, []) && process.W() == old(process.W())
      ensures status.IsOk() ==>
                |said| == 4 * count && Batch(old(process.W()), desc, count, result, records, process.W())
    {
      hide Inv, PixelStride, Next, Made, Carries, FreshItem, BindAll, FreshAll, AsRequested, Granted, Batch;
      result, records, said := AllocationResult(0, []), [], [];
      NothingSaid(desc);
      if !IsInitialized() {
        return ServiceError(NO_RESOURCES), result, records, said;
      }
      var handles: seq<Handle>, stride: Int32 := [], 0;
      ghost var w := process.W();
      ghost var items: seq<Item> := [];
      var i: Int32 := 0;
      NoneBound(w);
      while i < count
        invariant 0 <= i <= count && process.Valid() && process.deviceOpen == old(process.deviceOpen)
        invariant |handles| == |items| == |records| == i
        invariant forall k :: 0 <= k < i ==> handles[k] == items[k].handle != NULL && records[k] == items[k].record
        invariant forall k :: 0 <= k < i ==> Made(records[k], desc)
        invariant i > 0 ==> stride == Signed32(PixelStride(desc.format, records[i - 1].stride)) && process.deviceOpen
        invariant FreshAll(w, items) && process.W() == BindAll(w, items)
        invariant process.log == old(process.log) + said && AsRequested(said, desc) && Granted(said) && |said| == 3 * i
      {
        var s, h;
        ghost var t, more;
        status, s, h, t, more := GbmAllocateBuffer(desc);
        Together(said, more, desc);
        said := said + more;
        if !status.IsOk() {
          NothingHappened(BindAll(w, items), process.W());
          ReleaseAll(handles, w, items);
          return status, result, records, said;
        }
        BoundHappened(w, items, t.item, process.W());
        stride, handles := s, handles + [h];
        items, records := items + [t.item], records + [t.item.record];
        i := i + 1;
      }
      var buffers;
      ghost var dups;
      buffers, dups := HandOut(handles, w, items);
      Together(said, dups, desc);
      said := said + dups;
      status, result := OK, AllocationResult(stride, buffers);
      DupsGranted(dups, desc);
      BatchMade(w, desc, count, result, records, process.W());
    }

    /** The request travels cut down to 32 bits. A zero width or height is a bad descriptor,
        more than one layer is unsupported, and for both nobody is asked. */
    method Allocate2(info: BufferDescriptorInfo, count: Int32)
      returns (status: Status, result: AllocationResult, ghost records: seq<GrallocHandle>, ghost said: seq<Outcome>)
      requires process.Valid() && count >= 0
      modifies process
      ensures process.Valid() && process.deviceOpen == old(process.deviceOpen) && process.log == old(process.log) + said
      ensures gbmDevFd <= 0 ==> status == Status(-8, 1, []) && said == []
      ensures gbmDevFd > 0 ==> (status == Status(-8, 0, []) <==> info.width == 0 || info.height == 0)
      ensures gbmDevFd > 0 ==> (status == Status(-8, 2, []) <==> info.width != 0 && info.height != 0 && info.layerCount > 1)
      ensures info.width == 0 || info.height == 0 || info.layerCount > 1 ==> said == []
      ensures status.IsOk() <==>
                && gbmDevFd > 0 && info.width != 0 && info.height != 0 && info.layerCount <= 1
                && (count == 0 || process.deviceOpen) && Granted(said)
      ensures !status.IsOk() ==> process.W() == old(process.W())
      ensures status.IsOk() ==>
                && AsRequested(said, CutDown(info)) && |said| == 4 * count
                && Batch(old(process.W()), CutDown(info), count, result, records, process.W())
      ensures status.IsOk() ==> forall i :: 0 <= i < count ==>
                && records[i].width % 0x1_0000_0000 == info.width % 0x1_0000_0000
                && records[i].height % 0x1_0000_0000 == info.height % 0x1_0000_0000
                && records[i].format % 0x1_0000_0000 == info.format % 0x1_0000_0000
                && records[i].usage % 0x1_0000_0000 == info.usage % 0x1_0000_0000
    {
      hide AsRequested, Granted, Batch, CutDown;
      result, records, said := AllocationResult(0, []), [], [];
      if !IsInitialized() {
        return ServiceError(NO_RESOURCES), result, records, said;
      }
      var r := ConvertToGbmDesc(info);
      if r.Refused? {
        return r.status, result, records, said;
      }
      status, result, records, said := DoAllocate(r.desc, count);
      BatchOf(old(process.W()), info, count, result, records, process.W());
    }

    /** `allocate`: the descriptor arrives encoded; `decoded` is what the gralloc4 decoder
        makes of it. Every refusal of the conversion is reported as unsupported. */
    method Allocate(decoded: Option<BufferDescriptorInfo>, count: Int32)
      returns (status: Status, result: AllocationResult, ghost records: seq<GrallocHandle>, ghost said: seq<Outcome>)
      requires process.Valid() && count >= 0
      modifies process
      ensures process.Valid() && process.deviceOpen == old(process.deviceOpen) && process.log == old(process.log) + said
      ensures gbmDevFd <= 0 ==> status == Status(-8, 1, []) && said == []
      ensures gbmDevFd > 0 ==> (status == Status(-8, 0, []) <==> decoded.None?)
      ensures gbmDevFd > 0 ==>
                (status == Status(-8, 2, []) <==>
                 decoded.Some? && (decoded.value.width == 0 || decoded.value.height == 0 || decoded.value.layerCount > 1))
      ensures status.IsOk() <==>
                && gbmDevFd > 0 && decoded.Some?
                && decoded.value.width != 0 && decoded.value.height != 0 && decoded.value.layerCount <= 1
                && (count == 0 || process.deviceOpen) && Granted(said)
      ensures !status.IsOk() ==> process.W() == old(process.W())
      ensures status.IsOk() ==>
                && AsRequested(said, CutDown(decoded.value)) && |said| == 4 * count
                && Batch(old(process.W()), CutDown(decoded.value), count, result, records, process.W())
      ensures status.IsOk() ==> forall i :: 0 <= i < count ==>
                && records[i].width % 0x1_0000_0000 == decoded.value.width % 0x1_0000_0000
                && records[i].height % 0x1_0000_0000 == decoded.value.height % 0x1_0000_0000
                && records[i].format % 0x1_0000_0000 == decoded.value.format % 0x1_0000_0000
                && records[i].usage % 0x1_0000_0000 == decoded.value.usage % 0x1_0000_0000
    {
      hide AsRequested, Granted, Batch, CutDown;
      result, records, said := AllocationResult(0, []), [], [];
      if !IsInitialized() {
        return ServiceError(NO_RESOURCES), result, records, said;
      }
      if decoded.None? {
        return ServiceError(BAD_DESCRIPTOR), result, records, said;
      }
      var r := ConvertToGbmDesc(decoded.value);
      if r.Refused? {
        return ServiceError(UNSUPPORTED), result, records, said;
      }
      status, result, records, said := DoAllocate(r.desc, count);
      BatchOf(old(process.W()), decoded.value, count, result, records, process.W());
    }

    /** Supported unless some option is not the dataspace. */
    method IsSupported(info: BufferDescriptorInfo, dataspaceName: seq<Byte>) returns (status: Status, supported: bool)
      ensures gbmDevFd <= 0 ==> status == ServiceError(NO_RESOURCES)
      ensures gbmDevFd > 0 ==> status == OK && (supported <==> forall o <- info.additionalOptions :: o.name == dataspaceName)
    {
      supported := false;
      if !IsInitialized() {
        return ServiceError(NO_RESOURCES), supported;
      }
      for i := 0 to |info.additionalOptions|
        invariant forall k :: 0 <= k < i ==> info.additionalOptions[k].name == dataspaceName
      {
        if info.additionalOptions[i].name != dataspaceName {
          return OK, false;
        }
      }
      status, supported := OK, true;
    }
  }

  lemma NothingSaid(desc: BufferDesc)
    ensures Granted([]) && AsRequested([], desc)
  {
  }

  lemma DupsGranted(said: seq<Outcome>, desc: BufferDesc)
    requires forall a <- said :: a.MadeFd?
    ensures Granted(said) && AsRequested(said, desc)
  {
  }

  lemma BatchMade(w: World, desc: BufferDesc, count: nat, result: AllocationResult, records: seq<GrallocHandle>, w': World)
    requires |result.buffers| == |records| == count
    requires forall i :: 0 <= i < count ==> Made(records[i], desc) && Carries(result.buffers[i], records[i])
    requires count > 0 ==> result.stride == Signed32(PixelStride(desc.format, records[count - 1].stride))
    requires NoSharedFds(result.buffers) && GivenFds(result.buffers) !! w.fds
    requires w' == w.(fds := w.fds + GivenFds(result.buffers))
    ensures Batch(w, desc, count, result, records, w')
  {
    hide Made, Carries, PixelStride, NoSharedFds, GivenFds;
  }

  lemma Together(said: seq<Outcome>, more: seq<Outcome>, desc: BufferDesc)
    ensures Granted(said + more) <==> Granted(said) && Granted(more)
    ensures AsRequested(said, desc) && AsRequested(more, desc) ==> AsRequested(said + more, desc)
  {
    forall a | a in said || a in more ensures a in said + more {
    }
  }

  /** A batch that succeeded: `count` results, each carrying a record made as requested, and
      a world that gained exactly the duplicated descriptors. */
  ghost predicate Batch(w: World, desc: BufferDesc, count: nat, result: AllocationResult,
                        records: seq<GrallocHandle>, w': World)
  {
    && |result.buffers| == |records| == count
    && (forall i :: 0 <= i < count ==> Made(records[i], desc) && Carries(result.buffers[i], records[i]))
    && (count > 0 ==> result.stride == Signed32(PixelStride(desc.format, records[count - 1].stride)))
    && NoSharedFds(result.buffers)
    && GivenFds(result.buffers) !! w.fds
    && w' == With(w, result.buffers)
  }

  /** The records of a batch made from a descriptor. */
  lemma BatchOf(w: World, info: BufferDescriptorInfo, count: nat, result: AllocationResult, records: seq<GrallocHandle>, w': World)
    ensures Batch(w, CutDown(info), count, result, records, w') ==>
              |records| == count && forall i :: 0 <= i < count ==>
                && records[i].width % 0x1_0000_0000 == info.width % 0x1_0000_0000
                && records[i].height % 0x1_0000_0000 == info.height % 0x1_0000_0000
                && records[i].format % 0x1_0000_0000 == info.format % 0x1_0000_0000
                && records[i].usage % 0x1_0000_0000 == info.usage % 0x1_0000_0000
  {
    hide PixelStride, GivenFds, NoSharedFds;
  }

  /** A successful batch is one step of a run: it gives out new descriptors. */
  lemma BatchIsStep(w: World, desc: BufferDesc, count: nat, result: AllocationResult, records: seq<GrallocHandle>, w': World)
    requires Batch(w, desc, count, result, records, w') && Inv(w)
    ensures Next(w, GivenOut(GivenFds(result.buffers)), w') && Inv(w')
  {
    NextKeepsInv(w, GivenOut(GivenFds(result.buffers)), w');
  }

  ghost function With(w: World, buffers: seq<AidlHandle>): World { w.(fds := w.fds + GivenFds(buffers)) }

  ghost function WithFds(w: World, a: AidlHandle): World { w.(fds := w.fds + FdSet(a.fds)) }

  lemma NoneBound(w: World)
    ensures FreshAll(w, []) && BindAll(w, []) == w
  {
  }

  lemma NothingHappened(w: World, w': World)
    requires Next(w, Nothing, w')
    ensures w' == w
  {
  }

  lemma BoundHappened(w: World, items: seq<Item>, i: Item, w': World)
    requires FreshAll(w, items) && Next(BindAll(w, items), Bound(i), w')
    ensures FreshAll(w, items + [i]) && w' == BindAll(w, items + [i])
  {
    BindLast(w, items, i);
  }
}
