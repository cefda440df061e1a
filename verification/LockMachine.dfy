/** Locking a buffer object: the record GBM keeps for us as user data, and what every run of
    lock and unlock does with it. */
module LockMachine {
  import opened Bytes
  import opened Errno
  import opened Options
  import opened Formats
  import opened YCbCr

  /** `(held & usage) == usage` */
  predicate Covers(held: bv32, usage: bv32) { held & usage == usage }

  /** The usage has a bit that says the CPU will read or write. */
  predicate Software(usage: bv32) { usage & (SW_WRITE_MASK | SW_READ_MASK) != 0 }

  predicate Writes(usage: bv32) { usage & SW_WRITE_MASK != 0 }

  function Join(usage: bv32, held: bv32): bv32 { usage | held }

  /** `struct bo_data`; a null `map_data` is 0. */
  datatype BoData = BoData(mapData: nat, lockCount: nat, lockedFor: bv32)

  /** What `gbm_bo_map` answers: a null address, or an address with its non-null map data.
      A failed map leaves the map data null. */
  datatype MapAnswer = MapFailed | Mapped(address: nat, cookie: nat)
  {
    predicate Valid() { Mapped? ==> address != 0 && cookie != 0 }
  }

  /** What is done to GBM mappings. */
  datatype Effect = Map(cookie: nat, write: bool) | Unmap(cookie: nat)

  datatype Event = Lock(usage: bv32, answer: MapAnswer) | Unlock

  datatype Step = Step(data: Option<BoData>, code: int, effects: seq<Effect>)

  /** The usage the buffer was allocated for admits this lock. */
  predicate UsageAdmits(handleUsage: bv32, usage: bv32)
  {
    || Covers(handleUsage, usage)
    || handleUsage & SW_READ_OFTEN != 0 || handleUsage & HW_FB != 0 || handleUsage & HW_TEXTURE != 0
  }

  function Existing(data: Option<BoData>): BoData
  {
    if data.Some? then data.value else BoData(0, 0, 0)
  }

  function LockStep(handleUsage: bv32, data: Option<BoData>, usage: bv32, answer: MapAnswer): Step
  {
    if !UsageAdmits(handleUsage, usage) then Step(data, -EINVAL, [])
    else
      var d := Existing(data);
      if d.lockCount != 0 && !Covers(d.lockedFor, usage) then Step(Some(d), -EINVAL, [])
      else
        var u := Join(usage, d.lockedFor);
        if !Software(u) then Step(Some(BoData(d.mapData, d.lockCount + 1, Join(d.lockedFor, u))), 0, [])
        else if d.mapData != 0 then Step(Some(d), -EINVAL, [])
        else match answer
          case MapFailed => Step(Some(d), -ENOMEM, [])
          case Mapped(_, cookie) =>
            Step(Some(BoData(cookie, d.lockCount + 1, Join(d.lockedFor, u))), 0, [Map(cookie, Writes(u))])
  }

  function UnlockStep(d: BoData): Step
  {
    if d.lockCount == 0 then Step(Some(d), 0, [])
    else
      var mapped := Software(d.lockedFor);
      var left := d.lockCount - 1;
      Step(Some(BoData(if mapped then 0 else d.mapData, left, if left == 0 then 0 else d.lockedFor)), 0,
           if mapped then [Unmap(d.mapData)] else [])
  }

  /** Unlocking dereferences the record, so some lock must have got as far as creating it. */
  predicate Enabled(data: Option<BoData>, e: Event)
  {
    match e
    case Lock(_, answer) => answer.Valid()
    case Unlock => data.Some?
  }

  function Next(handleUsage: bv32, data: Option<BoData>, e: Event): Step
    requires Enabled(data, e)
  {
    match e
    case Lock(usage, answer) => LockStep(handleUsage, data, usage, answer)
    case Unlock => UnlockStep(data.value)
  }

  // ---- the in-place form ----

  class BoRecord {
    var mapData: nat
    var lockCount: nat
    var lockedFor: bv32

    constructor ()
      ensures mapData == 0 && lockCount == 0 && lockedFor == 0
    {
      mapData, lockCount, lockedFor := 0, 0, 0;
    }
  }

  class BufferObject {
    var userData: BoRecord?
    ghost var log: seq<Effect>

    function Data(): Option<BoData>
      reads this, userData
    {
      if userData == null then None
      else Some(BoData(userData.mapData, userData.lockCount, userData.lockedFor))
    }

    method MapBo(enableWrite: bool, answer: MapAnswer) returns (err: int, addr: nat)
      requires userData != null && answer.Valid()
      modifies this`log, userData
      ensures userData.lockCount == old(userData.lockCount) && userData.lockedFor == old(userData.lockedFor)
      ensures if old(userData.mapData) != 0 then err == -EINVAL
              else if answer.MapFailed? then err == -ENOMEM
              else err == 0 && addr == answer.address
      ensures if err == 0 then userData.mapData == answer.cookie && log == old(log) + [Map(answer.cookie, enableWrite)]
              else userData.mapData == old(userData.mapData) && log == old(log)
    {
      addr := 0;
      if userData.mapData != 0 {
        return -EINVAL, addr;
      }
      match answer
      case MapFailed => err := -ENOMEM;
      case Mapped(address, cookie) =>
        userData.mapData := cookie;
        log := log + [Map(cookie, enableWrite)];
        err, addr := 0, address;
    }

    method UnmapBo()
      requires userData != null
      modifies this`log, userData`mapData
      ensures userData.mapData == 0 && log == old(log) + [Unmap(old(userData.mapData))]
    {
      log := log + [Unmap(userData.mapData)];
      userData.mapData := 0;
    }

    method Lock(handleUsage: bv32, usage: bv32, answer: MapAnswer) returns (code: int, addr: nat)
      requires answer.Valid()
      modifies this, userData
      ensures var s := LockStep(handleUsage, old(Data()), usage, answer);
              && Data() == s.data && code == s.code && log == old(log) + s.effects
              && (s.effects != [] ==> addr == answer.address)
      ensures old(userData) != null ==> userData == old(userData)
      ensures old(userData) == null && userData != null ==> fresh(userData)
    {
      hide Covers, Software, Join, Writes;
      addr := 0;
      if !Covers(handleUsage, usage) {
        if handleUsage & SW_READ_OFTEN == 0 && handleUsage & HW_FB == 0 && handleUsage & HW_TEXTURE == 0 {
          return -EINVAL, addr;
        }
      }
      if userData == null {
        userData := new BoRecord();
      }
      if userData.lockCount != 0 && !Covers(userData.lockedFor, usage) {
        return -EINVAL, addr;
      }
      var u := Join(usage, userData.lockedFor);
      if Software(u) {
        var err;
        err, addr := MapBo(Writes(u), answer);
        if err != 0 {
          return err, addr;
        }
      }
      userData.lockCount := userData.lockCount + 1;
      userData.lockedFor := Join(userData.lockedFor, u);
      code := 0;
    }

    method Unlock() returns (code: int)
      requires userData != null
      modifies this`log, userData
      ensures var s := UnlockStep(old(Data()).value);
              Data() == s.data && code == s.code && log == old(log) + s.effects
    {
      var mapped := Software(userData.lockedFor);
      if userData.lockCount == 0 {
        return 0;
      }
      if mapped {
        UnmapBo();
      }
      userData.lockCount := userData.lockCount - 1;
      if userData.lockCount == 0 {
        userData.lockedFor := 0;
      }
      code := 0;
    }

    /** The lock comes first, the format is looked at afterwards. */
    method LockYCbCr(handleUsage: bv32, format: UInt32, width: UInt32, height: UInt32, usage: bv32, answer: MapAnswer)
      returns (code: int, addr: nat, planes: Lockable)
      requires answer.Valid()
      modifies this, userData
      ensures var s := LockYCbCrStep(handleUsage, old(Data()), format, usage, answer);
              && Data() == s.data && code == s.code && log == old(log) + s.effects
              && (s.effects != [] ==> addr == answer.address)
      ensures code == 0 ==> planes == LockPlanes(format, width, height) && planes.Lockable?
    {
      planes := NotLockable;
      code, addr := Lock(handleUsage, usage, answer);
      if code != 0 {
        return;
      }
      planes := LockPlanes(format, width, height);
      if planes.NotLockable? {
        code := -EINVAL;
      }
    }
  }

  function LockYCbCrStep(handleUsage: bv32, data: Option<BoData>, format: UInt32, usage: bv32, answer: MapAnswer): Step
  {
    var s := LockStep(handleUsage, data, usage, answer);
    if s.code == 0 && format != YCrCb_420_SP && format != YV12 then s.(code := -EINVAL) else s
  }

  // ---- the machine it refines ----

  datatype Machine = Unlocked | CpuLocked(usage: bv32) | HwLocked(usage: bv32, holders: nat)

  function View(data: Option<BoData>): Machine
  {
    match data
    case None => Unlocked
    case Some(d) =>
      if d.lockCount == 0 then Unlocked
      else if Software(d.lockedFor) then CpuLocked(d.lockedFor)
      else HwLocked(d.lockedFor, d.lockCount)
  }

  /** One CPU holder, or any number of hardware holders within the first one's usage. */
  function MachineNext(handleUsage: bv32, m: Machine, e: Event): (Machine, int)
  {
    match e
    case Lock(usage, answer) =>
      if !UsageAdmits(handleUsage, usage) then (m, -EINVAL)
      else (match m
        case Unlocked =>
          if !Software(usage) then (HwLocked(usage, 1), 0)
          else if answer.MapFailed? then (Unlocked, -ENOMEM)
          else (CpuLocked(usage), 0)
        case CpuLocked(_) => (m, -EINVAL)
        case HwLocked(u, n) => if Covers(u, usage) then (HwLocked(u, n + 1), 0) else (m, -EINVAL))
    case Unlock =>
      match m
      case Unlocked => (m, 0)
      case CpuLocked(_) => (Unlocked, 0)
      case HwLocked(u, n) => (if n <= 1 then Unlocked else HwLocked(u, n - 1), 0)
  }

  /** The buffer is mapped exactly when it is locked for software, and then by one holder;
      at count zero nothing is left behind. */
  predicate Sound(data: Option<BoData>)
  {
    data.Some? ==>
      var d := data.value;
      && (d.lockCount == 0 ==> d.lockedFor == 0 && d.mapData == 0)
      && (d.mapData != 0 <==> Software(d.lockedFor))
      && (d.mapData != 0 ==> d.lockCount == 1)
  }

  lemma CoveredAddsNothing(held: bv32, usage: bv32)
    requires held & usage == usage
    ensures usage | held == held
  {
  }

  lemma CoveredBits(held: bv32, usage: bv32, mask: bv32)
    requires held & usage == usage && usage & mask != 0
    ensures held & mask != 0
  {
  }

  lemma Units(usage: bv32)
    ensures usage | 0 == usage && 0 | usage == usage && usage & usage == usage && usage | usage == usage
  {
  }

  lemma UsageAlgebra(held: bv32, usage: bv32)
    ensures Join(usage, 0) == usage && Join(0, usage) == usage && Covers(usage, usage) && !Software(0)
    ensures Covers(held, usage) ==> Join(usage, held) == held && (Software(usage) ==> Software(held))
    ensures Join(held, held) == held
  {
    Units(usage);
    Units(held);
    if Covers(held, usage) {
      CoveredAddsNothing(held, usage);
      if Software(usage) {
        CoveredBits(held, usage, SW_WRITE_MASK | SW_READ_MASK);
      }
    }
  }

  lemma StepRefines(handleUsage: bv32, data: Option<BoData>, e: Event)
    requires Sound(data) && Enabled(data, e)
    ensures var s := Next(handleUsage, data, e);
            Sound(s.data) && (View(s.data), s.code) == MachineNext(handleUsage, View(data), e)
  {
    hide Covers, Software, Join, Writes, UsageAdmits;
    UsageAlgebra(Existing(data).lockedFor, if e.Lock? then e.usage else 0);
  }

  // ---- runs ----

  datatype Run = Run(data: Option<BoData>, codes: seq<int>, effects: seq<Effect>)

  /** Every event of the run is possible where it happens. */
  predicate Legal(handleUsage: bv32, es: seq<Event>)
    decreases |es|, 0
  {
    es == [] || (Legal(handleUsage, es[..|es| - 1])
                 && Enabled(After(handleUsage, es[..|es| - 1]).data, es[|es| - 1]))
  }

  function After(handleUsage: bv32, es: seq<Event>): (r: Run)
    requires Legal(handleUsage, es)
    ensures |r.codes| == |es|
    decreases |es|, 1
  {
    if es == [] then Run(None, [], [])
    else
      var r := After(handleUsage, es[..|es| - 1]);
      var s := Next(handleUsage, r.data, es[|es| - 1]);
      Run(s.data, r.codes + [s.code], r.effects + s.effects)
  }

  function MachineAfter(handleUsage: bv32, es: seq<Event>): (Machine, seq<int>)
  {
    if es == [] then (Unlocked, [])
    else
      var (m, codes) := MachineAfter(handleUsage, es[..|es| - 1]);
      var (m', code) := MachineNext(handleUsage, m, es[|es| - 1]);
      (m', codes + [code])
  }

  /** Whatever the run, the record stands for the machine's state and gives its answers. */
  lemma {:induction false} RunRefinesMachine(handleUsage: bv32, es: seq<Event>)
    requires Legal(handleUsage, es)
    ensures Sound(After(handleUsage, es).data)
    ensures (View(After(handleUsage, es).data), After(handleUsage, es).codes) == MachineAfter(handleUsage, es)
  {
    if es != [] {
      RunRefinesMachine(handleUsage, es[..|es| - 1]);
      StepRefines(handleUsage, After(handleUsage, es[..|es| - 1]).data, es[|es| - 1]);
    }
  }

  /** The mapping that a log of effects leaves open (0 if none); `Bad` once a second one is
      opened, or anything but the open one is released. */
  datatype Balance = Bad | Open(cookie: nat)

  function Balanced(log: seq<Effect>): Balance
  {
    if log == [] then Open(0)
    else match (Balanced(log[..|log| - 1]), log[|log| - 1])
      case (Open(c), Map(c', _)) => if c == 0 && c' != 0 then Open(c') else Bad
      case (Open(c), Unmap(c')) => if c == c' && c != 0 then Open(0) else Bad
      case (Bad, _) => Bad
  }

  /** On every run a mapping is never taken twice, never released twice, and open exactly
      while the record holds it. */
  lemma {:induction false} MappingsBalanced(handleUsage: bv32, es: seq<Event>)
    requires Legal(handleUsage, es)
    ensures Balanced(After(handleUsage, es).effects) == Open(Existing(After(handleUsage, es).data).mapData)
    ensures Balanced(After(handleUsage, es).effects) != Open(0) <==> View(After(handleUsage, es).data).CpuLocked?
  {
    if es != [] {
      var init := es[..|es| - 1];
      hide Next, Sound, View, Balanced;
      MappingsBalanced(handleUsage, init);
      RunRefinesMachine(handleUsage, init);
      var r := After(handleUsage, init);
      StepBalanced(handleUsage, r.data, es[|es| - 1], r.effects);
    } else {
      hide Covers;
    }
  }

  function MapDataOf(data: Option<BoData>): nat { Existing(data).mapData }

  /** Nothing, a mapping taken where there was none, or the one there was released. */
  predicate Moves(effects: seq<Effect>, before: nat, after: nat)
  {
    || (effects == [] && after == before)
    || (|effects| == 1 && effects[0].Map? && before == 0 && after == effects[0].cookie != 0)
    || (|effects| == 1 && effects[0].Unmap? && before == effects[0].cookie != 0 && after == 0)
  }

  /** What one lock or unlock does to the mapping of its record. */
  lemma StepMapping(handleUsage: bv32, data: Option<BoData>, e: Event)
    requires Sound(data) && Enabled(data, e)
    ensures var s := Next(handleUsage, data, e);
            Sound(s.data) && Moves(s.effects, MapDataOf(data), MapDataOf(s.data))
  {
    hide Covers, Software, Join, Writes, UsageAdmits;
    StepRefines(handleUsage, data, e);
  }

  lemma MappedIsCpuLocked(data: Option<BoData>)
    requires Sound(data)
    ensures View(data).CpuLocked? <==> MapDataOf(data) != 0
  {
    hide Software;
    assert !Software(0) by { UsageAlgebra(0, 0); }
  }

  lemma StepBalanced(handleUsage: bv32, data: Option<BoData>, e: Event, log: seq<Effect>)
    requires Sound(data) && Enabled(data, e) && Balanced(log) == Open(Existing(data).mapData)
    ensures var s := Next(handleUsage, data, e);
            && Balanced(log + s.effects) == Open(Existing(s.data).mapData)
            && (Existing(s.data).mapData != 0 <==> View(s.data).CpuLocked?)
  {
    StepMapping(handleUsage, data, e);
    hide Next, Sound, View, Enabled;
    MappedIsCpuLocked(Next(handleUsage, data, e).data);
    var s := Next(handleUsage, data, e);
    if s.effects == [] {
      assert log + s.effects == log;
    } else {
      assert (log + s.effects)[..|log|] == log;
    }
  }

  // ---- accounting from the caller's side ----

  /** What a caller who only sees the return codes knows: how many locks it holds, and the
      usages granted since it last held none. */
  datatype Ledger = Ledger(held: nat, granted: seq<bv32>)

  function LedgerOf(es: seq<Event>, codes: seq<int>): Ledger
    requires |es| == |codes|
  {
    if es == [] then Ledger(0, [])
    else
      LedgerNext(LedgerOf(es[..|es| - 1], codes[..|es| - 1]), es[|es| - 1], codes[|es| - 1])
  }

  predicate Accounted(d: BoData, l: Ledger)
  {
    && d.lockCount == l.held
    && (l.held == 0 ==> l.granted == [] && d.lockedFor == 0)
    && (l.held > 0 ==> l.granted != [] && d.lockedFor == l.granted[0])
    && (forall g <- l.granted :: Covers(d.lockedFor, g))
  }

  function LedgerNext(l: Ledger, e: Event, code: int): Ledger
  {
    match e
    case Lock(usage, _) => if code == 0 then Ledger(l.held + 1, l.granted + [usage]) else l
    case Unlock => if l.held <= 1 then Ledger(0, []) else Ledger(l.held - 1, l.granted)
  }

  lemma StepAccounted(handleUsage: bv32, data: Option<BoData>, e: Event, l: Ledger)
    requires Sound(data) && Enabled(data, e) && Accounted(Existing(data), l)
    ensures var s := Next(handleUsage, data, e);
            Accounted(Existing(s.data), LedgerNext(l, e, s.code))
  {
    hide Covers, Software, Join, Writes, UsageAdmits;
    UsageAlgebra(Existing(data).lockedFor, if e.Lock? then e.usage else 0);
  }

  /** The lock count is the caller's count of grants minus releases; while it is not zero,
      `locked_for` is the usage of the grant that left zero and contains every later one. */
  lemma {:induction false} LockAccounting(handleUsage: bv32, es: seq<Event>)
    requires Legal(handleUsage, es)
    ensures Accounted(Existing(After(handleUsage, es).data), LedgerOf(es, After(handleUsage, es).codes))
  {
    if es != [] {
      hide Accounted, Next, LedgerNext, Sound;
      var init := es[..|es| - 1];
      LockAccounting(handleUsage, init);
      RunRefinesMachine(handleUsage, init);
      var r := After(handleUsage, init);
      StepAccounted(handleUsage, r.data, es[|es| - 1], LedgerOf(init, r.codes));
      assert After(handleUsage, es).codes[..|init|] == r.codes;
    } else {
      assert Accounted(BoData(0, 0, 0), Ledger(0, []));
    }
  }

  /** A refused lock changes nothing, except that it may create an all-zero record. */
  lemma RefusedLock(handleUsage: bv32, data: Option<BoData>, usage: bv32, answer: MapAnswer)
    requires LockStep(handleUsage, data, usage, answer).code != 0
    ensures var s := LockStep(handleUsage, data, usage, answer);
            s.effects == [] && (s.data == data || (data == None && s.data == Some(BoData(0, 0, 0))))
  {
  }

  /** The guards under which a lock is refused, in a caller's terms: the usage the buffer was
      made for, what it is locked for at the moment, and what GBM answers to a map. */
  predicate LockRefused(handleUsage: bv32, m: Machine, usage: bv32, answer: MapAnswer)
  {
    || !UsageAdmits(handleUsage, usage)
    || m.CpuLocked?
    || (m.HwLocked? && !Covers(m.usage, usage))
    || (m.Unlocked? && Software(usage) && answer.MapFailed?)
  }

  /** A lock is refused exactly under these guards; one that is granted counts one holder
      more, and maps the buffer if it is for software. */
  lemma LockGuards(handleUsage: bv32, data: Option<BoData>, usage: bv32, answer: MapAnswer)
    requires Sound(data) && answer.Valid()
    ensures var s := LockStep(handleUsage, data, usage, answer);
            var refused := LockRefused(handleUsage, View(data), usage, answer);
            && (s.code != 0 <==> refused)
            && (s.effects != [] <==> !refused && Software(usage))
            && View(s.data) == if refused then View(data)
                               else if Software(usage) then CpuLocked(usage)
                               else if View(data).HwLocked? then HwLocked(View(data).usage, View(data).holders + 1)
                               else HwLocked(usage, 1)
  {
    hide Covers, Software, Join, Writes, UsageAdmits;
    UsageAlgebra(Existing(data).lockedFor, usage);
    StepRefines(handleUsage, data, Event.Lock(usage, answer));
  }

  /** Those bits of a buffer's own usage that admit any lock: 0x3, 0x1000 and 0x100. */
  lemma AdmittedInBits(handleUsage: bv32, usage: bv32)
    ensures UsageAdmits(handleUsage, usage) <==> handleUsage & usage == usage || handleUsage & 0x1103 != 0
  {
    AdmissionBits(handleUsage);
  }

  /** The bits that stand for the CPU, and those that write. */
  lemma SoftwareInBits(usage: bv32)
    ensures Software(usage) <==> usage & 0xFF != 0
    ensures Writes(usage) <==> usage & 0xF0 != 0
  {
    assert SW_WRITE_MASK | SW_READ_MASK == 0xFF;
  }

  lemma JoinTwice(usage: bv32, held: bv32)
    ensures held | (usage | held) == usage | held
  {
  }

  lemma AdmissionBits(handleUsage: bv32)
    ensures handleUsage & 0x1103 == 0 <==> handleUsage & 0x3 == 0 && handleUsage & 0x1000 == 0 && handleUsage & 0x100 == 0
  {
  }

  /** Every lock by these tests, with its error numbers: refused with -22 if the usage is not
      admitted, conflicts with the usage held, or wants a second mapping; with -12 if GBM does
      not map; and otherwise counted, mapped if the CPU takes part, and remembered. */
  lemma LockCases(handleUsage: bv32, data: Option<BoData>, usage: bv32, answer: MapAnswer, all: bv32)
    requires Join(usage, Existing(data).lockedFor) == all == Join(Existing(data).lockedFor, all)
    ensures var d := Existing(data);
            var s := LockStep(handleUsage, data, usage, answer);
            if !UsageAdmits(handleUsage, usage) || (d.lockCount != 0 && !Covers(d.lockedFor, usage))
               || (Software(all) && d.mapData != 0)
            then s.code == -22 && s.effects == []
            else if !Software(all) then s == Step(Some(BoData(d.mapData, d.lockCount + 1, all)), 0, [])
            else match answer
              case MapFailed => s.code == -12 && s.effects == []
              case Mapped(_, cookie) =>
                s == Step(Some(BoData(cookie, d.lockCount + 1, all)), 0, [Map(cookie, Writes(all))])
  {
    hide UsageAdmits, Software, Writes, Covers, Join;
  }

  /** From unlocked, in bits: the CPU gets a mapping if and only if one of the eight bits asks
      for it, for writing if and only if one of the upper four does; the usage is remembered. */
  lemma FirstLockInBits(handleUsage: bv32, data: Option<BoData>, usage: bv32, answer: MapAnswer)
    requires Sound(data) && View(data).Unlocked?
    ensures var s := LockStep(handleUsage, data, usage, answer);
            && s.code == (if !(handleUsage & usage == usage || handleUsage & 0x1103 != 0) then -22
                          else if usage & 0xFF != 0 && answer.MapFailed? then -12 else 0)
            && (s.effects != [] <==> s.code == 0 && usage & 0xFF != 0)
            && (s.effects != [] ==> answer.Mapped? && s.effects == [Map(answer.cookie, usage & 0xF0 != 0)])
            && (s.code == 0 ==> s.data == Some(BoData(if usage & 0xFF != 0 then answer.cookie else 0, 1, usage)))
  {
    AdmittedInBits(handleUsage, usage);
    SoftwareInBits(usage);
    UsageAlgebra(0, usage);
    LockCases(handleUsage, data, usage, answer, usage);
    hide LockStep, UsageAdmits, Software, Writes, Covers, Join;
  }

  /** The usage held conflicts unless it has every bit of the new one; a granted lock leaves
      both together. */
  lemma HeldUsageInBits(held: bv32, usage: bv32)
    ensures Covers(held, usage) <==> held & usage == usage
    ensures Join(usage, held) == usage | held == Join(held, usage | held)
  {
    JoinTwice(usage, held);
  }

  /** An unlock in bits: it releases the mapping if and only if the CPU held it, and the last
      one clears the record. */
  lemma UnlockInBits(d: BoData)
    ensures var s := UnlockStep(d);
            && s.code == 0
            && (d.lockCount == 0 ==> s.data == Some(d) && s.effects == [])
            && (d.lockCount > 0 ==>
                  && s.data == Some(BoData(if d.lockedFor & 0xFF != 0 then 0 else d.mapData, d.lockCount - 1,
                                           if d.lockCount == 1 then 0 else d.lockedFor))
                  && s.effects == if d.lockedFor & 0xFF != 0 then [Unmap(d.mapData)] else [])
  {
  }

  /** `lock_ycbcr` succeeds if and only if the format is one of the two it knows and no guard
      refuses the lock. One that reports an error leaves the lock state as it was if and only
      if the format is one of the two or a guard refused; otherwise the lock it granted, and
      its mapping, stay behind. */
  lemma RefusedYCbCrLock(handleUsage: bv32, data: Option<BoData>, format: UInt32, usage: bv32, answer: MapAnswer)
    requires Sound(data) && answer.Valid()
    ensures var s := LockYCbCrStep(handleUsage, data, format, usage, answer);
            var known := format == YCrCb_420_SP || format == YV12;
            var refused := LockRefused(handleUsage, View(data), usage, answer);
            && (s.code == 0 <==> known && !refused)
            && (s.code != 0 ==> (View(s.data) == View(data) <==> known || refused))
            && (!refused ==> s.data == LockStep(handleUsage, data, usage, answer).data)
  {
    hide LockStep, LockRefused, View, Sound;
    LockGuards(handleUsage, data, usage, answer);
    GrantChanges(handleUsage, data, usage, answer);
  }

  lemma GrantChanges(handleUsage: bv32, data: Option<BoData>, usage: bv32, answer: MapAnswer)
    requires Sound(data) && answer.Valid()
    ensures View(LockStep(handleUsage, data, usage, answer).data) == View(data)
            <==> LockRefused(handleUsage, View(data), usage, answer)
  {
    hide LockStep, Software, Covers, UsageAdmits;
    LockGuards(handleUsage, data, usage, answer);
  }

  /** For instance any other format, on an unlocked buffer made for software reads. */
  lemma YCbCrLeavesLock(format: UInt32, address: nat, cookie: nat)
    requires format != YCrCb_420_SP && format != YV12 && address != 0 && cookie != 0
    ensures var s := LockYCbCrStep(SW_READ_OFTEN, None, format, SW_READ_OFTEN, Mapped(address, cookie));
            s.code == -EINVAL && View(s.data) == CpuLocked(SW_READ_OFTEN) && s.effects == [Map(cookie, false)]
  {
  }
}
