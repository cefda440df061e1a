/** The mapper: importing and freeing buffers, and the store of settable metadata, which is
    keyed by file descriptor and filled on demand. */
module Mapper {
  import opened Bytes
  import opened Options
  import opened Parsing
  import opened Formats
  import opened NativeHandles
  import opened BufferObjects
  import opened Gralloc
  import opened MetadataFormat
  import opened StandardMetadata
  import Codec = MetadataCodec
  import Geometry

  const NONE := 0
  const BAD_BUFFER := 2
  const NO_RESOURCES := 5

  /** `gralloc_metadata_t` without the descriptor it repeats. */
  datatype Metadata = Metadata(dataspace: Int32, blendMode: Int32, smpte: Smpte2086, cta: Cta861_3)

  const BLEND_MODE_NONE: Int32 := 1
  const DATASPACE_UNKNOWN: Int32 := 0
  const BLACK := XyColor(0, 0)
  const DEFAULTS := Metadata(DATASPACE_UNKNOWN, BLEND_MODE_NONE, Smpte2086(BLACK, BLACK, BLACK, BLACK, 0, 0), Cta861_3(0, 0))

  predicate Settable(t: int) { t == DATASPACE || t == BLEND_MODE || t == SMPTE2086 || t == CTA861_3 }

  /** What the getter provides for a settable type. */
  function FieldOf(m: Metadata, t: int): Value
    requires Settable(t)
  {
    if t == DATASPACE then Number(m.dataspace)
    else if t == BLEND_MODE then Number(m.blendMode)
    else if t == SMPTE2086 then Smpte(Some(m.smpte))
    else Cta(Some(m.cta))
  }

  /** The size of the C++ struct that the setter reads. */
  function StructSize(t: int): nat
    requires Settable(t)
  {
    if t == SMPTE2086 then 40 else if t == CTA861_3 then 8 else 4
  }

  /** The calls that `setStandardMetadata` accepts. */
  predicate Accepts(initialized: bool, t: int, metadata: seq<Byte>)
  {
    initialized && Settable(t) && |metadata| == StructSize(t)
  }

  /** `*static_cast<const T*>(metadata)` */
  function StructAt(t: int, bytes: seq<Byte>): Value
    requires Settable(t) && |bytes| == StructSize(t)
  {
    if t == SMPTE2086 then Smpte(Some(SmpteOf(FloatsAt(bytes, 10))))
    else if t == CTA861_3 then var fs := FloatsAt(bytes, 2); Cta(Some(Cta861_3(fs[0], fs[1])))
    else Number(IntOf(I32, bytes))
  }

  function FloatsAt(bytes: seq<Byte>, n: nat): (fs: seq<Float>)
    requires |bytes| == 4 * n
    ensures |fs| == n
  {
    seq(n, i requires 0 <= i < n => IntOf(U32, bytes[4 * i..4 * i + 4]))
  }

  function WithField(m: Metadata, t: int, v: Value): (r: Metadata)
    requires Settable(t) && KindOf(t).value.Has(v) && !v.Absent()
    ensures FieldOf(r, t) == v
    ensures forall u :: Settable(u) && u != t ==> FieldOf(r, u) == FieldOf(m, u)
  {
    if t == DATASPACE then m.(dataspace := v.n)
    else if t == BLEND_MODE then m.(blendMode := v.n)
    else if t == SMPTE2086 then m.(smpte := v.smpte.value)
    else m.(cta := v.cta.value)
  }

  // ---- what the caller did ----

  datatype Op = DidImport(handle: Handle) | DidSet(handle: Handle, kind: int, value: Value) | DidFree(handle: Handle)

  /** The value last set on the handle since it was imported, or the default. */
  function LastSet(history: seq<Op>, h: Handle, t: int): Value
    requires Settable(t)
  {
    if history == [] then FieldOf(DEFAULTS, t)
    else match history[|history| - 1]
      case DidImport(h') => if h' == h then FieldOf(DEFAULTS, t) else LastSet(history[..|history| - 1], h, t)
      case DidSet(h', t', v) => if h' == h && t' == t then v else LastSet(history[..|history| - 1], h, t)
      case DidFree(_) => LastSet(history[..|history| - 1], h, t)
  }

  /** A handle that was just imported reads an unknown dataspace, no blending, and zero in
      every other field, whatever was set on it, or on its number, before. */
  lemma FreshHandleReads(history: seq<Op>, h: Handle)
    ensures LastSet(history + [DidImport(h)], h, 17) == Number(0)
    ensures LastSet(history + [DidImport(h)], h, 18) == Number(1)
    ensures LastSet(history + [DidImport(h)], h, 19) ==
              Smpte(Some(Smpte2086(XyColor(0, 0), XyColor(0, 0), XyColor(0, 0), XyColor(0, 0), 0, 0)))
    ensures LastSet(history + [DidImport(h)], h, 20) == Cta(Some(Cta861_3(0, 0)))
  {
    LastSetSnoc(history, DidImport(h), h, 17);
    LastSetSnoc(history, DidImport(h), h, 18);
    LastSetSnoc(history, DidImport(h), h, 19);
    LastSetSnoc(history, DidImport(h), h, 20);
  }

  lemma LastSetSnoc(history: seq<Op>, op: Op, h: Handle, t: int)
    requires Settable(t)
    ensures LastSet(history + [op], h, t) ==
              if op.handle == h && op.DidImport? then FieldOf(DEFAULTS, t)
              else if op.handle == h && op.DidSet? && op.kind == t then op.value
              else LastSet(history, h, t)
  {
    assert (history + [op])[..|history|] == history;
  }

  /** The store entry that stands for a handle; nothing stored means all defaults. */
  function MetadataOf(g: GrallocHandle, store: map<Int32, Metadata>): Metadata
  {
    if g.primeFd in store then store[g.primeFd] else DEFAULTS
  }

  /** Imported handles are live, bound and have a descriptor, and the store's keys are the
      descriptors of such handles. */
  ghost predicate Keyed(w: World, store: map<Int32, Metadata>, imported: set<Handle>)
  {
    && (forall h <- imported :: h in w.handles && h in w.boMap && w.handles[h].primeFd >= 0)
    && (forall fd <- store :: exists h :: h in imported && h in w.handles && w.handles[h].primeFd == fd)
  }

  /** What the store says of each imported handle is what was last set on that handle. */
  ghost predicate Agrees(handles: map<Handle, GrallocHandle>, store: map<Int32, Metadata>,
                         imported: set<Handle>, history: seq<Op>)
  {
    forall h, t :: h in imported && h in handles && Settable(t) ==>
      FieldOf(MetadataOf(handles[h], store), t) == LastSet(history, h, t)
  }

  /** A new handle starts from defaults although its descriptor number may have been used
      before, because no stored key is a descriptor that the kernel considers unused. */
  lemma ImportAgrees(w: World, w': World, store: map<Int32, Metadata>, imported: set<Handle>, history: seq<Op>, i: Item)
    requires Inv(w) && Keyed(w, store, imported) && Agrees(w.handles, store, imported, history)
    requires Next(w, Bound(i), w') && i.record.primeFd >= 0
    ensures Keyed(w', store, imported + {i.handle})
    ensures Agrees(w'.handles, store, imported + {i.handle}, history + [DidImport(i.handle)])
  {
    hide LastSet, FieldOf;
    var fd := i.record.primeFd;
    assert fd in Owned(i.record) && fd !in store;
    forall h, t | h in imported + {i.handle} && h in w'.handles && Settable(t)
      ensures FieldOf(MetadataOf(w'.handles[h], store), t) == LastSet(history + [DidImport(i.handle)], h, t)
    {
      LastSetSnoc(history, DidImport(i.handle), h, t);
    }
    forall fd <- store ensures exists h :: h in imported + {i.handle} && h in w'.handles && w'.handles[h].primeFd == fd {
      var h :| h in imported && h in w.handles && w.handles[h].primeFd == fd;
      assert w'.handles[h].primeFd == fd;
    }
  }

  /** Freeing any handle, imported or not, drops what is stored of it and nothing else. */
  lemma FreeAgrees(w: World, w': World, store: map<Int32, Metadata>, imported: set<Handle>, history: seq<Op>, h: Handle)
    requires Inv(w) && Keyed(w, store, imported) && Agrees(w.handles, store, imported, history)
    requires h in w.handles && (Next(w, Freed(h), w') || Next(w, Closed(h), w'))
    ensures Keyed(w', store - {w.handles[h].primeFd}, imported - {h})
    ensures Agrees(w'.handles, store - {w.handles[h].primeFd}, imported - {h}, history + [DidFree(h)])
  {
    hide LastSet, FieldOf, Inv;
    var store' := store - {w.handles[h].primeFd};
    forall k, t | k in imported - {h} && k in w'.handles && Settable(t)
      ensures FieldOf(MetadataOf(w'.handles[k], store'), t) == LastSet(history + [DidFree(h)], k, t)
    {
      LastSetSnoc(history, DidFree(h), k, t);
      OwnDescriptor(w, k, h);
    }
    forall fd <- store' ensures exists k :: k in imported - {h} && k in w'.handles && w'.handles[k].primeFd == fd {
      var k :| k in imported && k in w.handles && w.handles[k].primeFd == fd;
      assert w'.handles[k].primeFd == fd;
    }
  }

  lemma OwnDescriptor(w: World, h: Handle, k: Handle)
    requires Inv(w) && h in w.handles && k in w.handles && h != k && w.handles[h].primeFd >= 0
    ensures w.handles[k].primeFd != w.handles[h].primeFd
  {
    assert Owned(w.handles[h]) !! Owned(w.handles[k]);
    assert w.handles[h].primeFd in Owned(w.handles[h]);
  }

  /** Only imported handles have stored metadata. */
  lemma NothingStored(w: World, store: map<Int32, Metadata>, imported: set<Handle>, h: Handle)
    requires Inv(w) && Keyed(w, store, imported) && h in w.handles && h !in imported
    ensures w.handles[h].primeFd !in store
  {
    hide Inv;
    if w.handles[h].primeFd in store {
      var k :| k in imported && k in w.handles && w.handles[k].primeFd == w.handles[h].primeFd;
      OwnDescriptor(w, k, h);
    }
  }

  /** Setting a field of one handle changes that field of that handle only. */
  lemma SetAgrees(w: World, store: map<Int32, Metadata>, imported: set<Handle>, history: seq<Op>,
                  h: Handle, u: int, v: Value)
    requires Inv(w) && Keyed(w, store, imported) && Agrees(w.handles, store, imported, history)
    requires h in imported && Settable(u) && KindOf(u).value.Has(v) && !v.Absent()
    ensures var store' := store[w.handles[h].primeFd := WithField(MetadataOf(w.handles[h], store), u, v)];
            Keyed(w, store', imported) && Agrees(w.handles, store', imported, history + [DidSet(h, u, v)])
  {
    hide LastSet, FieldOf, WithField, Inv;
    var store' := store[w.handles[h].primeFd := WithField(MetadataOf(w.handles[h], store), u, v)];
    forall k, t | k in imported && k in w.handles && Settable(t)
      ensures FieldOf(MetadataOf(w.handles[k], store'), t) == LastSet(history + [DidSet(h, u, v)], k, t)
    {
      LastSetSnoc(history, DidSet(h, u, v), k, t);
      if k != h {
        OwnDescriptor(w, h, k);
      }
    }
  }

  /** Creating a missing entry with defaults changes nothing that can be read. */
  lemma CreateAgrees(w: World, store: map<Int32, Metadata>, imported: set<Handle>, history: seq<Op>, h: Handle)
    requires Keyed(w, store, imported) && Agrees(w.handles, store, imported, history) && h in imported
    ensures var store' := store[w.handles[h].primeFd := MetadataOf(w.handles[h], store)];
            Keyed(w, store', imported) && Agrees(w.handles, store', imported, history)
  {
    var store' := store[w.handles[h].primeFd := MetadataOf(w.handles[h], store)];
    forall k | k in imported ensures MetadataOf(w.handles[k], store') == MetadataOf(w.handles[k], store) {
    }
  }

  lemma StructHasKind(t: int, bytes: seq<Byte>)
    requires Settable(t) && |bytes| == StructSize(t)
    ensures KindOf(t).Some? && KindOf(t).value.Has(StructAt(t, bytes)) && !StructAt(t, bytes).Absent()
  {
  }

  lemma FieldHasKind(m: Metadata, t: int)
    requires Settable(t)
    ensures KindOf(t).Some? && KindOf(t).value.Has(FieldOf(m, t)) && !FieldOf(m, t).Absent()
  {
  }

  lemma LastSetRead(handles: map<Handle, GrallocHandle>, store: map<Int32, Metadata>, imported: set<Handle>,
                    history: seq<Op>, h: Handle, t: int)
    requires Agrees(handles, store, imported, history) && h in imported && h in handles && Settable(t)
    ensures LastSet(history, h, t) == FieldOf(MetadataOf(handles[h], store), t)
  {
  }

  /** A new handle over a new descriptor. */
  lemma CloneKeepsInv(w: World, h: Handle, g: GrallocHandle)
    requires Inv(w) && h !in w.handles && g.primeFd >= 0 && g.primeFd !in w.fds
    ensures Inv(w.(handles := w.handles[h := g], fds := w.fds + {g.primeFd}))
  {
    var w' := w.(handles := w.handles[h := g], fds := w.fds + {g.primeFd});
    forall b <- w'.liveBos ensures exists k :: k in w'.boMap && w'.boMap[k] == b {
      var k :| k in w.boMap && w.boMap[k] == b;
      assert w'.boMap[k] == b;
    }
  }

  lemma CloneBound(w: World, i: Item, w': World)
    requires Inv(w) && i.handle !in w.handles && i.bo !in w.liveBos
    requires i.record.primeFd >= 0 && i.record.primeFd !in w.fds
    requires w' == World(w.boMap[i.handle := i.bo], w.liveBos + {i.bo}, w.handles[i.handle := i.record],
                         w.fds + {i.record.primeFd})
    ensures Next(w, Bound(i), w')
  {
  }

  lemma ClosedIs(w: World, h: Handle, w': World)
    requires h in w.handles && Next(w, Closed(h), w')
    ensures w' == w.(handles := w.handles - {h}, fds := w.fds - Owned(w.handles[h]))
  {
  }

  lemma ImportedIsLive(w: World, store: map<Int32, Metadata>, imported: set<Handle>, h: Handle)
    requires Keyed(w, store, imported) && h in imported
    ensures h in w.handles && h in w.boMap && w.handles[h].primeFd >= 0
  {
  }

  lemma UnboundIsNotImported(w: World, store: map<Int32, Metadata>, imported: set<Handle>, h: Handle)
    requires Keyed(w, store, imported) && h !in w.boMap
    ensures h !in imported
  {
  }

  class GbmMesaMapper {
    const process: Process
    var initialized: bool
    var store: map<Int32, Metadata>

    ghost var imported: set<Handle>
    ghost var history: seq<Op>

    ghost predicate Valid()
      reads this, process
    {
      && process.Valid()
      && Keyed(process.W(), store, imported)
      && Agrees(process.handles, store, imported, history)
    }

    constructor (process: Process, initialized: bool)
      requires process.Valid()
      ensures Valid() && imported == {} && history == [] && this.process == process
    {
      this.process, this.initialized := process, initialized;
      store, imported, history := map[], {}, [];
    }

    /** `native_handle_clone`: a new handle over a duplicate of the descriptor, or null. */
    method NativeHandleClone(g: GrallocHandle) returns (h: Handle, ghost said: seq<Outcome>)
      requires process.Valid()
      modifies process
      ensures process.Valid() && process.boMap == old(process.boMap) && process.liveBos == old(process.liveBos)
      ensures process.deviceOpen == old(process.deviceOpen) && process.log == old(process.log) + said
      ensures said != [] && said[0].MadeFd?
      ensures if said[0].fd < 0 then h == NULL && |said| == 1 else |said| == 2 && said[1] == MadeHandle(h)
      ensures h == NULL ==> process.W() == old(process.W())
      ensures h != NULL ==>
                && h !in old(process.handles) && said[0].fd !in old(process.fds)
                && process.handles == old(process.handles)[h := g.(primeFd := said[0].fd)]
                && process.fds == old(process.fds) + {said[0].fd}
    {
      hide Inv;
      h := NULL;
      var fd := process.NewFd();
      said := [MadeFd(fd)];
      if fd < 0 {
        return;
      }
      h := process.NativeHandleCreate(g.(primeFd := fd));
      said := said + [MadeHandle(h)];
      if h == NULL {
        process.CloseFd(fd);
        assert process.fds == old(process.fds);
        return;
      }
      CloneKeepsInv(old(process.W()), h, g.(primeFd := fd));
    }

    /** Import a clone that was made in world `w`, or undo the cloning. */
    method ImportClone(h: Handle, ghost w: World) returns (code: int, ghost item: Item, ghost said: seq<Outcome>)
      requires process.Valid() && Inv(w) && h !in w.handles && h in process.handles
      requires process.handles[h].primeFd >= 0 && process.handles[h].primeFd !in w.fds
      requires process.W() == w.(handles := w.handles[h := process.handles[h]], fds := w.fds + {process.handles[h].primeFd})
      modifies process
      ensures process.Valid() && process.deviceOpen == old(process.deviceOpen) && process.log == old(process.log) + said
      ensures var g := old(process.handles[h]);
              if !process.deviceOpen || GbmFormatOf(g.format) == NoFormat then code != 0 && said == []
              else && |said| == 1 && said[0].ImportedBo?
                   && said[0].request == Geometry.ImportRequest(g.width, g.height, g.format, Bits(g.usage))
                   && said[0].fd == g.primeFd && said[0].shape == Shape(g.stride, g.modifierLow, g.modifierHigh)
                   && (code == 0 <==> said[0].bo.Some?)
      ensures code != 0 ==> process.W() == w
      ensures code == 0 ==>
                && h in process.handles && process.handles[h] == old(process.handles[h])
                && item.handle == h && item.record == process.handles[h] && |said| == 1 && said[0].ImportedBo?
                && said[0].bo == Some(item.bo) && Next(w, Bound(item), process.W())
    {
      hide Inv, FreshItem, Bind, Geometry.ImportRequest, GbmFormatOf, Next;
      KeysAreLive(w, h);
      ghost var bo;
      code, bo, said := process.GrallocImport(h);
      item := Item(h, bo, process.handles[h]);
      if code != 0 {
        ghost var bound := process.W();
        var t := process.CloseAndDelete(h);
        ClosedIs(bound, h, process.W());
        assert process.handles == w.handles;
        assert process.fds == w.fds;
        return;
      }
      CloneBound(w, item, process.W());
    }

    /** `said` is what the surroundings answered: a duplicate of the descriptor, a handle, and
        then GBM, which is asked unless the device is closed or the format unknown. Any
        refusal leaves nothing behind. */
    method ImportBuffer(raw: NativeHandle) returns (error: int, h: Handle, ghost said: seq<Outcome>)
      requires Valid()
      requires raw.Valid() && (raw.numFds > 0 ==> raw.numFds == NUM_FDS && raw.numInts >= NUM_INTS)
      modifies this, process
      ensures Valid() && initialized == old(initialized) && process.deviceOpen == old(process.deviceOpen)
      ensures process.log == old(process.log) + said
      ensures !initialized ==> error == 5 && said == []
      ensures initialized && raw.numFds == 0 ==> error == 2 && said == []
      ensures initialized && raw.numFds != 0 ==>
                && said != [] && said[0].MadeFd?
                && (said[0].fd < 0 ==> error == 5 && |said| == 1)
                && (said[0].fd >= 0 ==> |said| >= 2 && said[1].MadeHandle? && (said[1].handle == NULL ==> error == 5 && |said| == 2))
      ensures initialized && raw.numFds != 0 && said[0].fd >= 0 && said[1].handle != NULL ==>
                var g := GrallocOf(raw.data);
                if !process.deviceOpen || GbmFormatOf(g.format) == NoFormat
                then error == 5 && |said| == 2
                else && |said| == 3 && said[2].ImportedBo?
                     && said[2].request == Geometry.ImportRequest(g.width, g.height, g.format, Bits(g.usage))
                     && said[2].fd == said[0].fd && said[2].shape == Shape(g.stride, g.modifierLow, g.modifierHigh)
                     && error == (if said[2].bo.Some? then 0 else 5)
      ensures error != 0 ==> imported == old(imported) && history == old(history) && process.W() == old(process.W())
      ensures error == 0 ==>
                && raw.numFds == NUM_FDS && |said| == 3 && said[2].ImportedBo? && said[2].bo.Some?
                && said[0].MadeFd? && said[1] == MadeHandle(h)
                && h !in old(process.handles) && imported == old(imported) + {h}
                && history == old(history) + [DidImport(h)]
                && Next(old(process.W()), Bound(Item(h, said[2].bo.value, process.handles[h])), process.W())
                && process.handles[h] == GrallocOf(raw.data).(primeFd := said[0].fd)
    {
      hide Inv, Keyed, Agrees, GrallocOf, FreshItem, Bind, Geometry.ImportRequest, GbmFormatOf, Next;
      h, said := NULL, [];
      if !initialized {
        return NO_RESOURCES, h, said;
      }
      if raw.numFds == 0 {
        return BAD_BUFFER, h, said;
      }
      var clone;
      clone, said := NativeHandleClone(GrallocOf(raw.data));
      if clone == NULL {
        return NO_RESOURCES, h, said;
      }
      var code;
      ghost var item, asked;
      code, item, asked := ImportClone(clone, old(process.W()));
      said := said + asked;
      if code != 0 {
        return NO_RESOURCES, h, said;
      }
      ImportAgrees(old(process.W()), process.W(), store, imported, history, item);
      imported, history := imported + {clone}, history + [DidImport(clone)];
      error, h := NONE, clone;
    }

    /** Any handle that is not deleted. Without a BO, the code of `gralloc_gm_buffer_free` is
        an errno left over from an earlier call, which may be zero. */
    method FreeBuffer(h: Handle) returns (error: int)
      requires Valid() && h in process.handles
      modifies this, process
      ensures Valid() && initialized == old(initialized)
      ensures !initialized ==> error == 5
      ensures initialized && h in old(process.boMap) ==> error == 0 && Next(old(process.W()), Freed(h), process.W())
      ensures initialized && h !in old(process.boMap) ==>
                error == 2 || (error == 0 && Next(old(process.W()), Closed(h), process.W()))
      ensures if error == 0 then imported == old(imported) - {h} && history == old(history) + [DidFree(h)]
              else imported == old(imported) && history == old(history) && store == old(store)
                   && process.W() == old(process.W())
    {
      hide Inv, Keyed, Agrees;
      if !initialized {
        return NO_RESOURCES;
      }
      if h !in process.boMap {
        UnboundIsNotImported(process.W(), store, imported, h);
        NothingStored(process.W(), store, imported, h);
      }
      var fd := process.handles[h].primeFd;
      ghost var store' := store - {fd};
      if fd in store {
        store := store - {fd};
      }
      assert store == store';
      var code, t := process.GrallocFree(h);
      if code != 0 {
        return BAD_BUFFER;
      }
      var t' := process.CloseAndDelete(h);
      FreeAgrees(old(process.W()), process.W(), old(store), imported, history, h);
      imported, history := imported - {h}, history + [DidFree(h)];
      error := NONE;
    }

    /** Use the existing metadata or create it. */
    method CreateMetadata(h: Handle) returns (m: Metadata)
      requires Valid() && h in imported
      modifies this`store
      ensures h in process.handles
      ensures Valid() && m == MetadataOf(process.handles[h], old(store))
      ensures store == old(store)[process.handles[h].primeFd := m]
    {
      hide Inv, Keyed, Agrees;
      ImportedIsLive(process.W(), store, imported, h);
      var fd := process.handles[h].primeFd;
      CreateAgrees(process.W(), store, imported, history, h);
      if fd in store {
        m := store[fd];
      } else {
        m := DEFAULTS;
      }
      assert fd in store ==> store == store[fd := m];
      store := store[fd := m];
    }

    /** The setter takes the struct as it lies in memory, and nothing of another size. */
    method SetStandardMetadata(h: Handle, t: int, metadata: seq<Byte>) returns (error: int)
      requires Valid() && h in imported
      modifies this`store, this`history
      ensures Valid()
      ensures error == if !initialized then 5
                       else if t == 17 || t == 18 then (if |metadata| == 4 then 0 else 3)
                       else if t == 19 then (if |metadata| == 40 then 0 else 3)
                       else if t == 20 then (if |metadata| == 8 then 0 else 3)
                       else if 1 <= t <= 6 || t == 9 then 3
                       else 7
      ensures error == 0 <==> Accepts(initialized, t, metadata)
      ensures history == if error == 0 then old(history) + [DidSet(h, t, StructAt(t, metadata))] else old(history)
    {
      hide Inv, Keyed, Agrees, WithField, FieldOf, StructAt;
      if !initialized {
        return NO_RESOURCES;
      }
      var m := CreateMetadata(h);
      if Settable(t) {
        if |metadata| != StructSize(t) {
          return BAD_VALUE;
        }
        var v := StructAt(t, metadata);
        StructHasKind(t, metadata);
        SetAgrees(process.W(), store, imported, history, h, t, v);
        store := store[process.handles[h].primeFd := WithField(m, t, v)];
        history := history + [DidSet(h, t, v)];
        return NONE;
      }
      error := if BUFFER_ID <= t <= PIXEL_FORMAT_REQUESTED || t == USAGE then BAD_VALUE else UNSUPPORTED;
    }

    /** What is read back is the encoding of the value last set on this very handle. */
    method GetStoredMetadata(h: Handle, t: Int64, dest: array<Byte>, size: nat) returns (r: int)
      requires Valid() && h in imported && Settable(t) && size <= dest.Length
      modifies this`store, dest
      ensures Valid() && history == old(history)
      ensures !initialized ==> r == 5 && dest[..] == old(dest[..])
      ensures initialized ==>
                var s := Stream(t, LastSet(history, h, t));
                r == |s| && (|s| <= size ==> dest[..] == s + old(dest[|s|..]))
    {
      hide Inv, Keyed, Agrees, FieldOf, Stream, LastSet, MetadataOf;
      if !initialized {
        return NO_RESOURCES;
      }
      ImportedIsLive(process.W(), store, imported, h);
      ghost var v := LastSet(history, h, t);
      LastSetRead(process.handles, store, imported, history, h, t);
      var m := CreateMetadata(h);
      assert v == FieldOf(m, t);
      FieldHasKind(m, t);
      r := ProvideField(m, t, dest, size);
    }

    /** The pixel stride of the imported buffer. */
    method GetStride(h: Handle, dest: array<Byte>, size: nat) returns (r: int)
      requires Valid() && h in imported && size <= dest.Length
      modifies this`store, dest
      ensures Valid() && history == old(history)
      ensures !initialized ==> r == 5 && dest[..] == old(dest[..])
      ensures initialized ==>
                var s := Stream(23, StrideValue(process.handles[h]));
                r == |s| && (|s| <= size ==> dest[..] == s + old(dest[|s|..]))
    {
      if !initialized {
        return NO_RESOURCES;
      }
      hide Inv, Keyed, Agrees, Stream, PixelStride, MetadataOf;
      ImportedIsLive(process.W(), store, imported, h);
      var m := CreateMetadata(h);
      r := ProvideStride(StrideValue(process.handles[h]), dest, size);
    }
  }

  /** The getter behind the dispatch, for a settable type. */
  method ProvideField(m: Metadata, t: Int64, dest: array<Byte>, size: nat) returns (r: int)
    requires Settable(t) && size <= dest.Length
    requires KindOf(t).Some? && KindOf(t).value.Has(FieldOf(m, t)) && !FieldOf(m, t).Absent()
    modifies dest
    ensures var s := Stream(t, FieldOf(m, t));
            r == |s| && (|s| <= size ==> dest[..] == s + old(dest[|s|..]))
  {
    hide FieldOf, Stream;
    StreamShort(t, FieldOf(m, t));
    r := ProvideStandardMetadata(t, dest, size, u => if Settable(u) then Provide(FieldOf(m, u)) else Return(UNSUPPORTED));
  }

  /** The getter behind the dispatch, for the stride. */
  method ProvideStride(v: Value, dest: array<Byte>, size: nat) returns (r: int)
    requires KindOf(STRIDE).value.Has(v) && size <= dest.Length
    modifies dest
    ensures var s := Stream(STRIDE, v);
            r == |s| && (|s| <= size ==> dest[..] == s + old(dest[|s|..]))
  {
    hide Stream;
    StreamShort(STRIDE, v);
    r := ProvideStandardMetadata(STRIDE, dest, size, _ => Provide(v));
  }

  /** `static_cast<int32_t>(..)` handed to an encoder of `uint32_t`. */
  function StrideValue(g: GrallocHandle): (v: Value)
    ensures KindOf(STRIDE).value.Has(v)
  {
    Number(Wrap32(Signed32(PixelStride(g.format, g.stride))))
  }

  /** The casts through `int32_t` cancel out: the value is the pixel stride. */
  lemma StrideValueIs(g: GrallocHandle)
    ensures StrideValue(g) == Number(PixelStride(g.format, g.stride))
  {
    hide PixelStride;
  }

  lemma StreamShort(t: Int64, v: Value)
    requires (Settable(t) || t == STRIDE) && KindOf(t).value.Has(v) && !v.Absent()
    ensures |Stream(t, v)| <= 109
  {
    Codec.EncodedSize(t, KindOf(t).value, v);
  }

  /** What an encoder produces, for any value of any type of the table, is refused by the
      setter of every type: a header alone is longer than each of its structs, and an absent
      optional is shorter. A settable value's stream is too long by exactly the header. */
  lemma EncodedStreamRefused(t: Int64, v: Value, initialized: bool, u: int)
    requires KindOf(t).Some? && KindOf(t).value.Has(v)
    ensures !Accepts(initialized, u, Stream(t, v))
    ensures Settable(t) && !v.Absent() ==> |Stream(t, v)| == Codec.HEADER_SIZE + StructSize(t)
  {
    if !v.Absent() {
      Codec.EncodedSize(t, KindOf(t).value, v);
      Codec.HeaderInverts(t, []);
    }
  }

  /** The setter's struct is the encoder's payload without the header: floats in the same
      order, integers in the same bytes. */
  lemma StructIsPayload(t: int, bytes: seq<Byte>)
    requires Settable(t) && |bytes| == StructSize(t)
    ensures KindOf(t).Some? && GetPayload(KindOf(t).value, bytes) == Parsed(StructAt(t, bytes), [])
  {
    hide ReadList, FloatsAt;
    if t == SMPTE2086 {
      FloatsRead(bytes, 10);
    } else if t == CTA861_3 {
      FloatsRead(bytes, 2);
    } else {
      assert bytes[..4] == bytes;
    }
  }

  lemma {:induction false} FloatsRead(bytes: seq<Byte>, n: nat)
    requires |bytes| == 4 * n
    ensures ReadList(GetFloat, bytes, n) == Parsed(FloatsAt(bytes, n), [])
  {
    if n > 0 {
      FloatsRead(bytes[4..], n - 1);
      FirstFloat(bytes, n);
      hide FloatsAt;
    }
  }

  lemma FirstFloat(bytes: seq<Byte>, n: nat)
    requires |bytes| == 4 * n && n > 0
    ensures FloatsAt(bytes, n) == [IntOf(U32, bytes[..4])] + FloatsAt(bytes[4..], n - 1)
  {
    hide IntOf;
    var whole, rest := FloatsAt(bytes, n), FloatsAt(bytes[4..], n - 1);
    forall i | 0 <= i < |rest| ensures rest[i] == whole[i + 1] {
      assert bytes[4..][4 * i..4 * i + 4] == bytes[4 * (i + 1)..4 * (i + 1) + 4];
    }
    assert bytes[4 * 0..4 * 0 + 4] == bytes[..4];
  }
}
