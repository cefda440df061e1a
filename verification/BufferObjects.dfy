/** The life of buffer objects: the handle map of the process, what GBM and the kernel keep
    on their side, and the operations that allocate, import and free. */
module BufferObjects {
  import opened Bytes
  import opened NativeHandles

  type Handle = nat
  type Bo = nat
  const NULL: nat := 0

  /** The process and its surroundings: `gbm_bo_handle_map`, the BOs GBM has created and not
      destroyed, the native handles allocated and not deleted, and the open descriptors. */
  datatype World = World(boMap: map<Handle, Bo>, liveBos: set<Bo>,
                         handles: map<Handle, GrallocHandle>, fds: set<Int32>)

  /** A negative number is no descriptor. */
  function Descriptor(fd: Int32): set<Int32> { if fd >= 0 then {fd} else {} }

  function Owned(g: GrallocHandle): set<Int32> { Descriptor(g.primeFd) }

  /** The live BOs are exactly the values of the map, each under one key; every key is a
      handle not yet deleted; every handle's descriptor is open and its own. */
  ghost predicate Inv(w: World)
  {
    && (forall h <- w.boMap :: h in w.handles && w.boMap[h] in w.liveBos)
    && (forall b <- w.liveBos :: exists h :: h in w.boMap && w.boMap[h] == b)
    && (forall h, h' :: h in w.boMap && h' in w.boMap && w.boMap[h] == w.boMap[h'] ==> h == h')
    && (forall h <- w.handles :: Owned(w.handles[h]) <= w.fds)
    && (forall h, h' :: h in w.handles && h' in w.handles && h != h' ==> Owned(w.handles[h]) !! Owned(w.handles[h']))
  }

  // ---- transitions ----

  datatype Item = Item(handle: Handle, bo: Bo, record: GrallocHandle)

  /** The handle, the BO and the descriptor are all new. */
  predicate FreshItem(w: World, i: Item)
  {
    i.handle !in w.handles && i.handle !in w.boMap && i.bo !in w.liveBos && Owned(i.record) !! w.fds
  }

  function Bind(w: World, i: Item): World
  {
    World(w.boMap[i.handle := i.bo], w.liveBos + {i.bo}, w.handles[i.handle := i.record], w.fds + Owned(i.record))
  }

  function Unbind(w: World, h: Handle): World
    requires h in w.boMap
  {
    w.(boMap := w.boMap - {h}, liveBos := w.liveBos - {w.boMap[h]})
  }

  function Close(w: World, h: Handle): World
    requires h in w.handles
  {
    w.(handles := w.handles - {h}, fds := w.fds - Owned(w.handles[h]))
  }

  datatype Transition =
    | Nothing
    | Bound(item: Item)          // an allocation or an import that succeeded
    | Unbound(handle: Handle)    // gralloc_gm_buffer_free
    | Closed(handle: Handle)     // native_handle_close and native_handle_delete
    | Freed(handle: Handle)      // both, as the mapper does
    | GivenOut(newFds: set<Int32>)  // duplicates handed to a caller
    | Returned(oldFds: set<Int32>)  // descriptors that a caller closes, so their numbers may come back

  ghost predicate Next(w: World, t: Transition, w': World)
  {
    match t
    case Nothing => w' == w
    case Bound(i) => FreshItem(w, i) && w' == Bind(w, i)
    case Unbound(h) => h in w.boMap && w' == Unbind(w, h)
    case Closed(h) => h in w.handles && h !in w.boMap && w' == Close(w, h)
    case Freed(h) => h in w.boMap && h in w.handles && w' == Close(Unbind(w, h), h)
    case GivenOut(fds) => fds !! w.fds && w' == w.(fds := w.fds + fds)
    case Returned(fds) =>
      && fds <= w.fds && (forall h <- w.handles :: Owned(w.handles[h]) !! fds)
      && w' == w.(fds := w.fds - fds)
  }

  lemma UnbindKeepsInv(w: World, h: Handle)
    requires Inv(w) && h in w.boMap
    ensures Inv(Unbind(w, h))
  {
    var w' := Unbind(w, h);
    forall b <- w'.liveBos ensures exists k :: k in w'.boMap && w'.boMap[k] == b {
      var k :| k in w.boMap && w.boMap[k] == b;
      assert k in w'.boMap;
    }
  }

  lemma CloseKeepsInv(w: World, h: Handle)
    requires Inv(w) && h in w.handles && h !in w.boMap
    ensures Inv(Close(w, h))
  {
  }

  lemma BindKeepsInv(w: World, i: Item)
    requires Inv(w) && FreshItem(w, i)
    ensures Inv(Bind(w, i))
  {
    var w' := Bind(w, i);
    forall b <- w'.liveBos ensures exists k :: k in w'.boMap && w'.boMap[k] == b {
      if b == i.bo {
        assert w'.boMap[i.handle] == b;
      } else {
        var k :| k in w.boMap && w.boMap[k] == b;
        assert w'.boMap[k] == b;
      }
    }
  }

  lemma NextKeepsInv(w: World, t: Transition, w': World)
    requires Inv(w) && Next(w, t, w')
    ensures Inv(w')
  {
    match t
    case Nothing =>
    case Bound(i) => BindKeepsInv(w, i);
    case Unbound(h) => UnbindKeepsInv(w, h);
    case Closed(h) => CloseKeepsInv(w, h);
    case Freed(h) =>
      UnbindKeepsInv(w, h);
      CloseKeepsInv(Unbind(w, h), h);
    case GivenOut(fds) =>
    case Returned(fds) =>
  }

  ghost predicate Empty(w: World) { w.boMap == map[] && w.liveBos == {} && w.handles == map[] }

  ghost predicate IsRun(ws: seq<World>, ts: seq<Transition>)
  {
    |ws| == |ts| + 1 && Empty(ws[0]) && forall i :: 0 <= i < |ts| ==> Next(ws[i], ts[i], ws[i + 1])
  }

  /** BO conservation at every point of every run that starts with nothing allocated. */
  lemma {:induction false} RunKeepsInv(ws: seq<World>, ts: seq<Transition>, k: nat)
    requires IsRun(ws, ts) && k <= |ts|
    ensures Inv(ws[k])
    ensures |ws[k].liveBos| == |ws[k].boMap|
    decreases k
  {
    if k > 0 {
      RunKeepsInv(ws, ts, k - 1);
      assert Next(ws[k - 1], ts[k - 1], ws[k]);
      hide Next;
      NextKeepsInv(ws[k - 1], ts[k - 1], ws[k]);
    }
    OnePerBo(ws[k].boMap, ws[k].liveBos);
  }

  /** As many live BOs as map entries. */
  lemma {:induction false} OnePerBo(m: map<Handle, Bo>, bos: set<Bo>)
    requires forall h <- m :: m[h] in bos
    requires forall b <- bos :: exists h :: h in m && m[h] == b
    requires forall h, h' :: h in m && h' in m && m[h] == m[h'] ==> h == h'
    ensures |bos| == |m|
    decreases |m|
  {
    if m == map[] {
      assert bos == {};
    } else {
      var h :| h in m;
      var m', bos' := m - {h}, bos - {m[h]};
      forall b <- bos' ensures exists k :: k in m' && m'[k] == b {
        var k :| k in m && m[k] == b;
        assert k in m';
      }
      assert |m.Keys - {h}| == |m| - 1 && m'.Keys == m.Keys - {h};
      OnePerBo(m', bos');
    }
  }

  // ---- several items at once ----

  function BindAll(w: World, items: seq<Item>): World
  {
    if items == [] then w else Bind(BindAll(w, items[1..]), items[0])
  }

  predicate FreshAll(w: World, items: seq<Item>)
  {
    items == [] || (FreshAll(w, items[1..]) && FreshItem(BindAll(w, items[1..]), items[0]))
  }

  lemma BindCommutes(w: World, i: Item, j: Item)
    requires FreshItem(w, i) && FreshItem(Bind(w, i), j)
    ensures FreshItem(w, j) && FreshItem(Bind(w, j), i)
    ensures Bind(Bind(w, i), j) == Bind(Bind(w, j), i)
  {
  }

  lemma {:induction false} BindLast(w: World, items: seq<Item>, i: Item)
    requires FreshAll(w, items) && FreshItem(BindAll(w, items), i)
    ensures FreshAll(w, items + [i]) && BindAll(w, items + [i]) == Bind(BindAll(w, items), i)
  {
    if items == [] {
      assert [i][1..] == [];
    } else {
      var rest := items[1..];
      assert (items + [i])[1..] == rest + [i];
      BindCommutes(BindAll(w, rest), items[0], i);
      BindLast(w, rest, i);
    }
  }

  /** Freeing and closing the first item leaves the others. */
  lemma UndoFirst(w: World, items: seq<Item>)
    requires items != [] && FreshAll(w, items)
    ensures var h := items[0].handle;
            var all := BindAll(w, items);
            h in all.boMap && h in all.handles && all.boMap[h] == items[0].bo
            && all.handles[h] == items[0].record
            && Close(Unbind(all, h), h) == BindAll(w, items[1..])
  {
    var rest := BindAll(w, items[1..]);
    var i := items[0];
    assert rest.boMap[i.handle := i.bo] - {i.handle} == rest.boMap;
    assert rest.handles[i.handle := i.record] - {i.handle} == rest.handles;
    assert rest.liveBos + {i.bo} - {i.bo} == rest.liveBos;
    assert rest.fds + Owned(i.record) - Owned(i.record) == rest.fds;
  }

  /** A new descriptor that is given out does not disturb what is bound. */
  lemma {:induction false} GiveOutBeside(w: World, items: seq<Item>, new_: set<Int32>)
    requires FreshAll(w, items) && new_ !! BindAll(w, items).fds
    ensures var w' := w.(fds := w.fds + new_);
            FreshAll(w', items) && BindAll(w', items) == BindAll(w, items).(fds := BindAll(w, items).fds + new_)
  {
    if items != [] {
      GiveOutBeside(w, items[1..], new_);
    }
  }

  lemma {:induction false} BindAllGrows(w: World, items: seq<Item>)
    ensures w.fds <= BindAll(w, items).fds
  {
    if items != [] {
      BindAllGrows(w, items[1..]);
    }
  }
}
