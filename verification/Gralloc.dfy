/** `gralloc_gbm_mesa`: allocation, import and release over one handle map. GBM, the kernel
    and the native-handle library answer as they like, within their contracts. */
module Gralloc {
  import opened Bytes
  import opened Errno
  import opened Options
  import opened Formats
  import opened Geometry
  import opened NativeHandles
  import opened BufferObjects

  datatype BufferDesc = BufferDesc(width: UInt32, height: UInt32, format: UInt32, usage: UInt32)

  /** What GBM knows of a BO of its own. */
  datatype Shape = Shape(stride: UInt32, modifierLow: UInt32, modifierHigh: UInt32)

  /** What the surroundings were asked and answered: a null handle, no BO or a negative
      descriptor is a refusal. */
  datatype Outcome =
    | MadeHandle(handle: Handle)
    | CreatedBo(request: Request, flags: bv32, bo: Option<Bo>)
    | ImportedBo(request: Request, fd: Int32, shape: Shape, bo: Option<Bo>)
    | MadeFd(fd: Int32)

  predicate Refusal(a: Outcome)
  {
    match a
    case MadeHandle(h) => h == NULL
    case CreatedBo(_, _, bo) => bo.None?
    case ImportedBo(_, _, _, bo) => bo.None?
    case MadeFd(fd) => fd < 0
  }

  class Process {
    var boMap: map<Handle, Bo>
    var deviceOpen: bool

    // The surroundings.
    var liveBos: set<Bo>
    var handles: map<Handle, GrallocHandle>
    var fds: set<Int32>
    var shapes: map<Bo, Shape>

    /** All answers of the surroundings, in order. */
    ghost var log: seq<Outcome>

    /** Destroying, closing or deleting what is not there, and dropping a BO on emplace. */
    ghost var faults: nat

    ghost function W(): World
      reads this
    {
      World(boMap, liveBos, handles, fds)
    }

    ghost predicate Valid()
      reads this
    {
      Inv(W()) && faults == 0
    }

    constructor (deviceOpen: bool)
      ensures Valid() && Empty(W()) && log == []
    {
      boMap, liveBos, handles, fds, shapes := map[], {}, map[], {}, map[];
      this.deviceOpen := deviceOpen;
      log, faults := [], 0;
    }

    // ---- the surroundings ----

    /** A new BO of any shape, or null. */
    method NewBo() returns (bo: Option<Bo>)
      modifies this`liveBos, this`shapes
      ensures bo.None? ==> liveBos == old(liveBos)
      ensures bo.Some? ==>
                && bo.value !in old(liveBos) && liveBos == old(liveBos) + {bo.value}
                && bo.value in shapes && shapes == old(shapes)[bo.value := shapes[bo.value]]
    {
      var b: Bo := *;
      if b in liveBos {
        return None;
      }
      var shape: Shape := *;
      liveBos, shapes := liveBos + {b}, shapes[b := shape];
      bo := Some(b);
    }

    method GbmBoCreate(r: Request, flags: bv32) returns (bo: Option<Bo>)
      modifies this`liveBos, this`shapes, this`log
      ensures log == old(log) + [CreatedBo(r, flags, bo)]
      ensures bo.None? ==> liveBos == old(liveBos)
      ensures bo.Some? ==>
                && bo.value !in old(liveBos) && liveBos == old(liveBos) + {bo.value}
                && bo.value in shapes && shapes == old(shapes)[bo.value := shapes[bo.value]]
    {
      bo := NewBo();
      log := log + [CreatedBo(r, flags, bo)];
    }

    method GbmBoImport(r: Request, fd: Int32, shape: Shape) returns (bo: Option<Bo>)
      modifies this`liveBos, this`shapes, this`log
      ensures log == old(log) + [ImportedBo(r, fd, shape, bo)]
      ensures bo.None? ==> liveBos == old(liveBos)
      ensures bo.Some? ==> bo.value !in old(liveBos) && liveBos == old(liveBos) + {bo.value}
    {
      bo := NewBo();
      log := log + [ImportedBo(r, fd, shape, bo)];
    }

    method GbmBoDestroy(bo: Bo)
      modifies this`liveBos, this`faults
      ensures liveBos == old(liveBos) - {bo}
      ensures faults == old(faults) + if bo in old(liveBos) then 0 else 1
    {
      if bo !in liveBos {
        faults := faults + 1;
      }
      liveBos := liveBos - {bo};
    }

    /** `gbm_bo_get_fd`, `fcntl(F_DUPFD_CLOEXEC)`: an unused descriptor, or -1. */
    method NewFd() returns (fd: Int32)
      modifies this`fds, this`log
      ensures log == old(log) + [MadeFd(fd)]
      ensures fd < 0 ==> fd == -1 && fds == old(fds)
      ensures fd >= 0 ==> fd !in old(fds) && fds == old(fds) + {fd}
    {
      fd := *;
      if fd < 0 || fd in fds {
        fd := -1;
      } else {
        fds := fds + {fd};
      }
      log := log + [MadeFd(fd)];
    }

    method CloseFd(fd: Int32)
      modifies this`fds, this`faults
      ensures fd < 0 ==> fds == old(fds) && faults == old(faults)
      ensures fd >= 0 ==> fds == old(fds) - {fd} && faults == old(faults) + if fd in old(fds) then 0 else 1
    {
      if fd >= 0 {
        if fd !in fds {
          faults := faults + 1;
        }
        fds := fds - {fd};
      }
    }

    /** `native_handle_create`: a new address, or null. */
    method NativeHandleCreate(g: GrallocHandle) returns (h: Handle)
      modifies this`handles, this`log
      ensures log == old(log) + [MadeHandle(h)]
      ensures h == NULL ==> handles == old(handles)
      ensures h != NULL ==> h !in old(handles) && handles == old(handles)[h := g]
    {
      h := *;
      if h == NULL || h in handles {
        h := NULL;
      } else {
        handles := handles[h := g];
      }
      log := log + [MadeHandle(h)];
    }

    method NativeHandleClose(h: Handle)
      requires h in handles
      modifies this`fds, this`faults
      ensures fds == old(fds) - Owned(handles[h])
      ensures Owned(handles[h]) <= old(fds) ==> faults == old(faults)
    {
      CloseFd(handles[h].primeFd);
    }

    method NativeHandleDelete(h: Handle)
      requires h in handles
      modifies this`handles
      ensures handles == old(handles) - {h}
    {
      handles := handles - {h};
    }

    /** `unordered_map::emplace` does nothing if the key is there; the BO is then lost. */
    method Emplace(h: Handle, bo: Bo)
      modifies this`boMap, this`faults
      ensures h !in old(boMap) ==> boMap == old(boMap)[h := bo] && faults == old(faults)
      ensures h in old(boMap) ==> boMap == old(boMap) && faults == old(faults) + 1
    {
      if h in boMap {
        faults := faults + 1;
      } else {
        boMap := boMap[h := bo];
      }
    }

    // ---- gralloc ----

    /** The end of an allocation: describe the BO in its handle and put both into the map. */
    method BindAllocated(h: Handle, made: GrallocHandle, bo: Bo, ghost w: World) returns (g: GrallocHandle)
      requires Inv(w) && faults == 0 && h !in w.handles && bo !in w.liveBos && bo in shapes
      requires W() == w.(handles := w.handles[h := made], liveBos := w.liveBos + {bo})
      modifies this
      ensures Valid() && Next(w, Bound(Item(h, bo, g)), W()) && deviceOpen == old(deviceOpen)
      ensures log == old(log) + [MadeFd(g.primeFd)] && shapes == old(shapes)
      ensures g == made.(primeFd := g.primeFd, stride := shapes[bo].stride,
                         modifierLow := shapes[bo].modifierLow, modifierHigh := shapes[bo].modifierHigh)
    {
      hide Inv;
      var fd := NewFd();
      var shape := shapes[bo];
      g := made.(primeFd := fd, stride := shape.stride, modifierLow := shape.modifierLow, modifierHigh := shape.modifierHigh);
      handles := handles[h := g];
      KeysAreLive(w, h);
      Emplace(h, bo);
      assert W() == Bind(w, Item(h, bo, g));
      NextKeepsInv(w, Bound(Item(h, bo, g)), W());
    }

    /** `said` is what the surroundings answered. A closed device, no handle or no BO is a
        failure, and nothing else; success binds the new handle to the new BO and records
        that BO's stride, modifier and descriptor. */
    method GrallocAllocate(desc: BufferDesc)
      returns (code: int, stride: Int32, handle: Handle, ghost t: Transition, ghost said: seq<Outcome>)
      requires Valid()
      modifies this
      ensures Valid() && Next(old(W()), t, W()) && deviceOpen == old(deviceOpen)
      ensures log == old(log) + said
      ensures !deviceOpen ==> code == -22 && said == []
      ensures deviceOpen ==> said != [] && said[0].MadeHandle?
      ensures deviceOpen && said[0].handle == NULL ==> code == -22 && |said| == 1
      ensures deviceOpen && said[0].handle != NULL ==>
                && |said| >= 2 && said[1].CreatedBo?
                && said[1].request == AllocateRequest(desc.width, desc.height, desc.format, Bits(desc.usage))
                && said[1].flags == GbmFlags(Bits(desc.usage), desc.format)
                && (if said[1].bo.Some? then code == 0 && |said| == 3 && said[2].MadeFd? else code < 0 && |said| == 2)
      ensures code != 0 ==> t == Nothing
      ensures code == 0 ==>
                && deviceOpen && |said| == 3 && t.Bound? && said[2].MadeFd? && said[1].CreatedBo?
                && t.item.handle == handle == said[0].handle != NULL && Some(t.item.bo) == said[1].bo
                && var g := t.item.record;
                && g.width == desc.width && g.height == desc.height && g.format == desc.format && g.usage == desc.usage
                && g.magic == 0x60585350 && g.version == 4 && g.primeFd == said[2].fd
                && t.item.bo in shapes && shapes[t.item.bo] == Shape(g.stride, g.modifierLow, g.modifierHigh)
                && Wrap32(stride) == g.stride
    {
      hide Inv, Next, AllocateRequest, Bits, GbmFlags;
      stride, handle, t, said := 0, NULL, Nothing, [];
      NothingNext(old(W()));
      if !deviceOpen {
        return -EINVAL, stride, handle, t, said;
      }
      var g: GrallocHandle := *;
      g := g.(primeFd := -1, magic := MAGIC, version := VERSION, width := desc.width, height := desc.height,
        format := desc.format, usage := desc.usage);
      var h := NativeHandleCreate(g);
      said := [MadeHandle(h)];
      if h == NULL {
        return -EINVAL, stride, handle, t, said;
      }
      var bo := GbmBoCreate(AllocateRequest(g.width, g.height, g.format, Bits(g.usage)), GbmFlags(Bits(g.usage), g.format));
      said := said + [log[|log| - 1]];
      if bo.None? {
        NativeHandleDelete(h);
        assert handles == old(handles);
        var errno: int :| errno > 0;
        code := -errno;
        return;
      }
      g := BindAllocated(h, g, bo.value, old(W()));
      said := said + [MadeFd(g.primeFd)];
      code, stride, handle, t := 0, Signed32(g.stride), h, Bound(Item(h, bo.value, g));
    }

    method GrallocFree(h: Handle) returns (code: int, ghost t: Transition)
      requires Valid()
      modifies this
      ensures Valid() && Next(old(W()), t, W()) && deviceOpen == old(deviceOpen) && log == old(log)
      ensures h in old(boMap) ==> code == 0 && t == Unbound(h)
      ensures h !in old(boMap) ==> t == Nothing
    {
      if h !in boMap {
        var errno: int :| errno >= 0;
        return -errno, Nothing;
      }
      var bo := boMap[h];
      boMap := boMap - {h};
      GbmBoDestroy(bo);
      code, t := 0, Unbound(h);
      NextKeepsInv(old(W()), t, W());
    }

    /** Close the handle's descriptor and delete the handle. */
    method CloseAndDelete(h: Handle) returns (ghost t: Transition)
      requires Valid() && h in handles && h !in boMap
      modifies this
      ensures Valid() && t == Closed(h) && Next(old(W()), t, W()) && deviceOpen == old(deviceOpen) && log == old(log)
    {
      NativeHandleClose(h);
      NativeHandleDelete(h);
      t := Closed(h);
      NextKeepsInv(old(W()), t, W());
    }

    /** The handle is one the caller has. GBM is asked unless the handle is bound already, the
        device is closed, or the handle has no descriptor or an unknown format; then, and
        where GBM refuses, the import fails and nothing changes. */
    method GrallocImport(h: Handle) returns (code: int, ghost bo: Bo, ghost said: seq<Outcome>)
      requires Valid() && h in handles
      modifies this
      ensures Valid() && handles == old(handles) && fds == old(fds) && deviceOpen == old(deviceOpen)
      ensures log == old(log) + said
      ensures var g := handles[h];
              if h in old(boMap) || !deviceOpen || g.primeFd < 0 || GbmFormatOf(g.format) == NoFormat
              then code == -22 && said == []
              else && |said| == 1 && said[0].ImportedBo?
                   && said[0].request == ImportRequest(g.width, g.height, g.format, Bits(g.usage))
                   && said[0].fd == g.primeFd && said[0].shape == Shape(g.stride, g.modifierLow, g.modifierHigh)
                   && code == (if said[0].bo.Some? then 0 else -22)
      ensures code != 0 ==> boMap == old(boMap) && liveBos == old(liveBos)
      ensures code == 0 ==>
                && |said| == 1 && said[0].ImportedBo? && said[0].bo == Some(bo)
                && h !in old(boMap) && bo !in old(liveBos)
                && boMap == old(boMap)[h := bo] && liveBos == old(liveBos) + {bo}
    {
      bo, said := 0, [];
      if h in boMap {
        return -EINVAL, bo, said;
      }
      if !deviceOpen {
        return -EINVAL, bo, said;
      }
      var g := handles[h];
      if g.primeFd < 0 {
        return -EINVAL, bo, said;
      }
      if GbmFormatOf(g.format) == NoFormat {
        return -EINVAL, bo, said;
      }
      hide ImportRequest;
      var imported := GbmBoImport(ImportRequest(g.width, g.height, g.format, Bits(g.usage)), g.primeFd,
                                  Shape(g.stride, g.modifierLow, g.modifierHigh));
      said := [log[|log| - 1]];
      if imported.None? {
        return -EINVAL, bo, said;
      }
      Emplace(h, imported.value);
      code, bo := 0, imported.value;
      ImportKeepsInv(old(W()), h, bo);
      assert W() == old(W()).(boMap := old(boMap)[h := bo], liveBos := old(liveBos) + {bo});
    }
  }

  lemma NothingNext(w: World)
    ensures Next(w, Nothing, w)
  {
  }

  lemma KeysAreLive(w: World, h: Handle)
    requires Inv(w) && h !in w.handles
    ensures h !in w.boMap
  {
  }

  lemma ImportKeepsInv(w: World, h: Handle, bo: Bo)
    requires Inv(w) && h in w.handles && h !in w.boMap && bo !in w.liveBos
    ensures Inv(w.(boMap := w.boMap[h := bo], liveBos := w.liveBos + {bo}))
  {
    var w' := w.(boMap := w.boMap[h := bo], liveBos := w.liveBos + {bo});
    forall b <- w'.liveBos ensures exists k :: k in w'.boMap && w'.boMap[k] == b {
      if b == bo {
        assert w'.boMap[h] == b;
      } else {
        var k :| k in w.boMap && w.boMap[k] == b;
        assert w'.boMap[k] == b;
      }
    }
  }
}
