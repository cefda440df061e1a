/** Locks and the life of buffers together: the lock record hangs on the BO that the handle
    map gives for a handle, and goes with it when the BO is destroyed. */
module LockedBuffers {
  import opened Options
  import opened NativeHandles
  import opened BufferObjects
  import Locks = LockMachine

  /** A mapping by its BO and its map data, as `gbm_bo_unmap` names it. */
  type Mapping = (Bo, nat)

  /** `records` is GBM's user data; `open` are the mappings taken and not released, and
      `abandoned` those whose BO was destroyed under them. Numbers of BOs and map data may
      come back, so both are bags. */
  datatype System = System(w: World, records: map<Bo, Locks.BoData>, open: multiset<Mapping>, abandoned: multiset<Mapping>)

  function RecordOf(s: System, bo: Bo): Option<Locks.BoData>
  {
    if bo in s.records then Some(s.records[bo]) else None
  }

  function UsageOf(w: World, h: Handle): bv32
    requires h in w.handles
  {
    Bits(w.handles[h].usage)
  }

  /** The mappings that the records hold. */
  function Held(records: map<Bo, Locks.BoData>): set<Mapping>
  {
    set bo | bo in records && records[bo].mapData != 0 :: (bo, records[bo].mapData)
  }

  /** Those of them that belong to the BOs in `bos`. */
  function HeldBy(records: map<Bo, Locks.BoData>, bos: set<Bo>): set<Mapping>
  {
    set m | m in Held(records) && m.0 in bos
  }

  datatype Action =
    | Life(transition: Transition)               // allocate, import, free and what surrounds them
    | Use(handle: Handle, event: Locks.Event)    // lock or unlock through a handle

  function Store(records: map<Bo, Locks.BoData>, bo: Bo, data: Option<Locks.BoData>): map<Bo, Locks.BoData>
  {
    if data.Some? then records[bo := data.value] else records
  }

  /** `gbm_bo_destroy` deletes the record by `gralloc_gbm_destroy_user_data`, and nothing
      unmaps. A handle without a BO is refused. */
  ghost predicate SystemNext(s: System, a: Action, s': System)
  {
    match a
    case Life(t) =>
      && Next(s.w, t, s'.w)
      && var gone := s.w.liveBos - s'.w.liveBos;
      && s' == System(s'.w, s.records - gone, s.open, s.abandoned + multiset(HeldBy(s.records, gone)))
    case Use(h, e) =>
      if h !in s.w.boMap then s' == s
      else
        && h in s.w.handles
        && var bo := s.w.boMap[h];
        && Locks.Enabled(RecordOf(s, bo), e)
        && var step := Locks.Next(UsageOf(s.w, h), RecordOf(s, bo), e);
        && s' == System(s.w, Store(s.records, bo, step.data), MappingsAfter(s.open, bo, step.effects), s.abandoned)
  }

  function MappingsAfter(open: multiset<Mapping>, bo: Bo, effects: seq<Locks.Effect>): multiset<Mapping>
    decreases effects
  {
    if effects == [] then open
    else
      match effects[0]
      case Map(cookie, _) => MappingsAfter(open + multiset{(bo, cookie)}, bo, effects[1..])
      case Unmap(cookie) => MappingsAfter(open - multiset{(bo, cookie)}, bo, effects[1..])
  }

  ghost predicate IsSystemRun(ss: seq<System>, acts: seq<Action>)
  {
    && |ss| == |acts| + 1
    && Empty(ss[0].w) && ss[0] == System(ss[0].w, map[], multiset{}, multiset{})
    && forall i :: 0 <= i < |acts| ==> SystemNext(ss[i], acts[i], ss[i + 1])
  }

  /** What was asked of a handle since it was last bound to a BO. */
  function EventsOf(acts: seq<Action>, h: Handle): seq<Locks.Event>
  {
    if acts == [] then []
    else
      var init := EventsOf(acts[..|acts| - 1], h);
      match acts[|acts| - 1]
      case Life(t) => if t.Bound? && t.item.handle == h then [] else init
      case Use(h', e) => if h' == h then init + [e] else init
  }

  // ---- every handle behaves as if it were alone ----

  /** The record behind a bound handle is what the handle's own events made of it. */
  ghost predicate Follows(s: System, acts: seq<Action>, h: Handle)
  {
    h in s.w.boMap && h in s.w.handles ==>
      && Locks.Legal(UsageOf(s.w, h), EventsOf(acts, h))
      && RecordOf(s, s.w.boMap[h]) == Locks.After(UsageOf(s.w, h), EventsOf(acts, h)).data
  }

  ghost predicate SystemInv(s: System, acts: seq<Action>)
  {
    Inv(s.w) && s.records.Keys <= s.w.liveBos && forall h :: Follows(s, acts, h)
  }

  /** A transition that does not bind a handle leaves its BO and its usage alone, or takes
      the handle out of the map. */
  lemma Undisturbed(w: World, t: Transition, w': World, h: Handle)
    requires Inv(w) && Next(w, t, w') && h in w'.boMap
    requires t.Bound? ==> t.item.handle != h
    ensures h in w.boMap && w'.boMap[h] == w.boMap[h]
    ensures h in w.handles && h in w'.handles && w'.handles[h] == w.handles[h]
    ensures w.boMap[h] in w'.liveBos
  {
  }

  lemma LifeFollows(s: System, t: Transition, s': System, acts: seq<Action>, h: Handle)
    requires SystemInv(s, acts) && SystemNext(s, Life(t), s')
    ensures Follows(s', acts + [Life(t)], h)
  {
    hide Inv, Next;
    assert (acts + [Life(t)])[..|acts|] == acts;
    assert Follows(s, acts, h);
    if h in s'.w.boMap {
      if t.Bound? && t.item.handle == h {
        NewRecord(s, t, s');
      } else {
        Undisturbed(s.w, t, s'.w, h);
      }
    }
  }

  lemma NewRecord(s: System, t: Transition, s': System)
    requires t.Bound? && SystemNext(s, Life(t), s') && s.records.Keys <= s.w.liveBos
    ensures t.item.handle in s'.w.boMap && RecordOf(s', s'.w.boMap[t.item.handle]) == None
  {
  }

  lemma UseFollows(s: System, h: Handle, e: Locks.Event, s': System, acts: seq<Action>, k: Handle)
    requires SystemInv(s, acts) && SystemNext(s, Use(h, e), s')
    ensures Follows(s', acts + [Use(h, e)], k)
  {
    hide Locks.Next, Locks.Enabled;
    assert (acts + [Use(h, e)])[..|acts|] == acts;
    assert Follows(s, acts, k);
    if k == h && h in s.w.boMap {
      var u, es := UsageOf(s.w, h), EventsOf(acts, h);
      assert (es + [e])[..|es|] == es;
      OnlyNewRecords(u, RecordOf(s, s.w.boMap[h]), e);
    }
  }

  /** A record, once there, stays until its BO goes. */
  lemma OnlyNewRecords(usage: bv32, data: Option<Locks.BoData>, e: Locks.Event)
    requires Locks.Enabled(data, e)
    ensures data.Some? ==> Locks.Next(usage, data, e).data.Some?
  {
  }

  lemma SystemNextKeepsInv(s: System, a: Action, s': System, acts: seq<Action>)
    requires SystemInv(s, acts) && SystemNext(s, a, s')
    ensures SystemInv(s', acts + [a])
  {
    hide Follows, Locks.Next;
    forall h ensures Follows(s', acts + [a], h) {
      match a
      case Life(t) => LifeFollows(s, t, s', acts, h);
      case Use(k, e) => UseFollows(s, k, e, s', acts, h);
    }
    if a.Life? {
      NextKeepsInv(s.w, a.transition, s'.w);
      hide Inv;
    }
  }

  lemma {:induction false} SystemRunKeepsInv(ss: seq<System>, acts: seq<Action>, k: nat)
    requires IsSystemRun(ss, acts) && k <= |acts|
    ensures SystemInv(ss[k], acts[..k])
    decreases k
  {
    if k > 0 {
      SystemRunKeepsInv(ss, acts, k - 1);
      assert acts[..k - 1] + [acts[k - 1]] == acts[..k];
      SystemNextKeepsInv(ss[k - 1], acts[k - 1], ss[k], acts[..k - 1]);
    }
  }

  /** In every run of allocations, imports, locks, unlocks and frees, whatever happens to
      other handles: the state behind a bound handle is that of the three-state machine after
      the events on this handle since it was bound, which it entered unlocked. */
  lemma HandlesBehaveAlone(ss: seq<System>, acts: seq<Action>, k: nat, h: Handle)
    requires IsSystemRun(ss, acts) && k <= |acts| && h in ss[k].w.boMap
    ensures h in ss[k].w.handles
    ensures Locks.View(RecordOf(ss[k], ss[k].w.boMap[h]))
            == Locks.MachineAfter(UsageOf(ss[k].w, h), EventsOf(acts[..k], h)).0
  {
    hide Locks.MachineAfter, Locks.View, Locks.After, Locks.Legal, EventsOf, SystemNext;
    SystemRunKeepsInv(ss, acts, k);
    assert Follows(ss[k], acts[..k], h);
    Locks.RunRefinesMachine(UsageOf(ss[k].w, h), EventsOf(acts[..k], h));
  }

  // ---- mappings over the life of buffers ----

  /** Every record is sound, and the open mappings are those the records hold and the
      abandoned ones. */
  ghost predicate Balanced(s: System)
  {
    && (forall bo <- s.records :: Locks.Sound(Some(s.records[bo])))
    && s.open == multiset(Held(s.records)) + s.abandoned
  }

  /** The mapping of one record, if it has one. */
  function MappingOf(bo: Bo, data: Option<Locks.BoData>): set<Mapping>
  {
    if Locks.MapDataOf(data) != 0 then {(bo, Locks.MapDataOf(data))} else {}
  }

  lemma StoreHeld(records: map<Bo, Locks.BoData>, bo: Bo, was: Option<Locks.BoData>, data: Option<Locks.BoData>)
    requires was == (if bo in records then Some(records[bo]) else None) && (was.Some? ==> data.Some?)
    ensures Held(records) == Held(records - {bo}) + MappingOf(bo, was)
    ensures Held(Store(records, bo, data)) == Held(records - {bo}) + MappingOf(bo, data)
    ensures forall m <- Held(records - {bo}) :: m.0 != bo
  {
    HeldSplit(records, bo);
    HeldSplit(Store(records, bo, data), bo);
    assert Store(records, bo, data) - {bo} == records - {bo};
  }

  lemma HeldSplit(records: map<Bo, Locks.BoData>, bo: Bo)
    ensures Held(records) == Held(records - {bo}) + MappingOf(bo, if bo in records then Some(records[bo]) else None)
  {
    var rest := records - {bo};
    forall m | m in Held(records) && m.0 != bo ensures m in Held(rest) {
      assert m.0 in rest;
    }
    forall m | m in Held(rest) ensures m in Held(records) {
      assert m.0 in records;
    }
  }

  lemma UseBalanced(s: System, h: Handle, e: Locks.Event, s': System)
    requires Balanced(s) && SystemNext(s, Use(h, e), s')
    ensures Balanced(s')
  {
    hide Locks.Next, Locks.Sound, Held;
    if h in s.w.boMap {
      var bo := s.w.boMap[h];
      var usage, was := UsageOf(s.w, h), RecordOf(s, bo);
      var step := Locks.Next(usage, was, e);
      NoRecordIsSound();
      Locks.StepMapping(usage, was, e);
      OnlyNewRecords(usage, was, e);
      StoreHeld(s.records, bo, was, step.data);
      MappingsMove(s.open, s.abandoned, Held(s.records - {bo}), bo, was, step);
    }
  }

  /** The bag of open mappings follows the one record that changes. */
  lemma MappingsMove(open: multiset<Mapping>, abandoned: multiset<Mapping>, others: set<Mapping>, bo: Bo,
                     was: Option<Locks.BoData>, step: Locks.Step)
    requires open == multiset(others + MappingOf(bo, was)) + abandoned && forall m <- others :: m.0 != bo
    requires Locks.Moves(step.effects, Locks.MapDataOf(was), Locks.MapDataOf(step.data))
    ensures MappingsAfter(open, bo, step.effects) == multiset(others + MappingOf(bo, step.data)) + abandoned
  {
  }

  lemma NoRecordIsSound()
    ensures Locks.Sound(None)
  {
  }

  lemma LifeBalanced(s: System, t: Transition, s': System)
    requires Balanced(s) && SystemNext(s, Life(t), s')
    ensures Balanced(s')
  {
    hide Locks.Sound, Next;
    var gone := s.w.liveBos - s'.w.liveBos;
    HeldWithout(s.records, gone);
  }

  lemma HeldWithout(records: map<Bo, Locks.BoData>, gone: set<Bo>)
    ensures multiset(Held(records)) == multiset(Held(records - gone)) + multiset(HeldBy(records, gone))
  {
    var left := records - gone;
    forall m | m in Held(records) && m.0 !in gone ensures m in Held(left) {
      assert m.0 in left;
    }
    forall m | m in Held(left) ensures m in Held(records) && m.0 !in gone {
      assert m.0 in records;
    }
  }

  lemma {:induction false} RunBalanced(ss: seq<System>, acts: seq<Action>, k: nat)
    requires IsSystemRun(ss, acts) && k <= |acts|
    ensures Balanced(ss[k])
    decreases k
  {
    if k > 0 {
      hide SystemNext, Balanced;
      RunBalanced(ss, acts, k - 1);
      match acts[k - 1]
      case Life(t) => LifeBalanced(ss[k - 1], t, ss[k]);
      case Use(h, e) => UseBalanced(ss[k - 1], h, e, ss[k]);
    } else {
      assert Held(map[]) == {};
    }
  }

  /** In every run the mappings taken and not released are, one by one, those of the live BOs
      that are locked for the CPU, and those whose BO was destroyed under them. */
  lemma MappingsHeld(ss: seq<System>, acts: seq<Action>, k: nat)
    requires IsSystemRun(ss, acts) && k <= |acts|
    ensures var s := ss[k];
            var held := set bo | bo in s.w.liveBos && Locks.View(RecordOf(s, bo)).CpuLocked? :: (bo, Locks.MapDataOf(RecordOf(s, bo)));
            s.open == multiset(held) + s.abandoned
  {
    var s := ss[k];
    RunBalanced(ss, acts, k);
    SystemRunKeepsInv(ss, acts, k);
    hide SystemNext, Inv, Follows, Locks.View, Locks.Sound;
    NoRecordIsSound();
    forall bo | bo in s.w.liveBos ensures Locks.View(RecordOf(s, bo)).CpuLocked? <==> Locks.MapDataOf(RecordOf(s, bo)) != 0 {
      Locks.MappedIsCpuLocked(RecordOf(s, bo));
    }
    assert (set bo | bo in s.w.liveBos && Locks.View(RecordOf(s, bo)).CpuLocked? :: (bo, Locks.MapDataOf(RecordOf(s, bo))))
        == Held(s.records);
  }

  lemma Destroyed(s: System, t: Transition, s': System)
    requires SystemNext(s, Life(t), s') && s.records.Keys <= s.w.liveBos
    requires (t.Unbound? || t.Freed?) && t.handle in s.w.boMap && s.w.boMap[t.handle] in s.w.liveBos
    ensures var bo := s.w.boMap[t.handle];
            && bo !in s'.records
            && s'.abandoned == s.abandoned + multiset(MappingOf(bo, RecordOf(s, bo)))
  {
    var bo := s.w.boMap[t.handle];
    assert s.w.liveBos - s'.w.liveBos == {bo};
    assert HeldBy(s.records, {bo}) == MappingOf(bo, RecordOf(s, bo));
  }

  /** What freeing a buffer leaves behind: nothing is unmapped, so a buffer locked for the
      CPU loses its record but not its mapping, and any other only its record. */
  lemma FreeLeavesMapping(ss: seq<System>, acts: seq<Action>, k: nat)
    requires IsSystemRun(ss, acts) && k < |acts|
    requires acts[k].Life? && (acts[k].transition.Unbound? || acts[k].transition.Freed?)
    ensures var h := acts[k].transition.handle;
            && h in ss[k].w.boMap
            && var bo := ss[k].w.boMap[h];
            && bo !in ss[k + 1].records
            && ss[k + 1].open == ss[k].open
            && ss[k + 1].abandoned == ss[k].abandoned
               + if Locks.View(RecordOf(ss[k], bo)).CpuLocked? then multiset{(bo, ss[k].records[bo].mapData)} else multiset{}
  {
    var s, t := ss[k], acts[k].transition;
    RunBalanced(ss, acts, k);
    SystemRunKeepsInv(ss, acts, k);
    assert SystemNext(s, acts[k], ss[k + 1]);
    hide Follows, Locks.View, Locks.Sound, HeldBy;
    Destroyed(s, t, ss[k + 1]);
    NoRecordIsSound();
    Locks.MappedIsCpuLocked(RecordOf(s, s.w.boMap[t.handle]));
  }

  /** A mapping left behind by a free, the very one that the record held, stays open for the
      rest of the run: nothing that happens afterwards releases it. */
  lemma MappingLeftForever(ss: seq<System>, acts: seq<Action>, k: nat, j: nat)
    requires IsSystemRun(ss, acts) && k < j <= |acts|
    requires acts[k].Life? && (acts[k].transition.Unbound? || acts[k].transition.Freed?)
    requires acts[k].transition.handle in ss[k].w.boMap
    requires Locks.View(RecordOf(ss[k], ss[k].w.boMap[acts[k].transition.handle])).CpuLocked?
    ensures var bo := ss[k].w.boMap[acts[k].transition.handle];
            var mapping := (bo, ss[k].records[bo].mapData);
            && mapping in ss[j].open
            && ss[j].open[mapping] > multiset(Held(ss[j].records))[mapping]
  {
    FreeLeavesMapping(ss, acts, k);
    AbandonedGrows(ss, acts, k + 1, j);
    RunBalanced(ss, acts, j);
  }

  lemma {:induction false} AbandonedGrows(ss: seq<System>, acts: seq<Action>, j: nat, k: nat)
    requires IsSystemRun(ss, acts) && j <= k <= |acts|
    ensures ss[j].abandoned <= ss[k].abandoned
    decreases k
  {
    if j < k {
      AbandonedGrows(ss, acts, j, k - 1);
      assert SystemNext(ss[k - 1], acts[k - 1], ss[k]);
    }
  }
}
