/**
 * What every run of programs started and ended keeps: each selector held in
 * one place, none given twice, and exactly which are lost.
 */
module SelectorConservation {
  import opened Wrappers
  import opened SelectorAllocator
  import opened TaskLifecycle

  /** A place a selector is held in: one of a task's, or a module's database. */
  datatype Slot =
    | DatabaseOf(task: nat)
    | PrefixOf(task: nat)
    | SecondOf(task: nat)
    | QueueOf(task: nat)
    | SegmentOf(task: nat, number: nat)
    | EnvironmentOf(task: nat)
    | ModuleOf(path: Path)

  function HeldByTask(task: Task, slot: Slot): Index {
    if task.own.None? then NO_SELECTOR
    else match slot
      case DatabaseOf(_) => task.own.value.database
      case PrefixOf(_) => task.own.value.prefix
      case SecondOf(_) => task.own.value.second
      case QueueOf(_) => task.own.value.queue
      case SegmentOf(_, k) => if k < |task.segments| then task.segments[k] else NO_SELECTOR
      case EnvironmentOf(_) => if task.environment.Some? then task.environment.value else NO_SELECTOR
      case ModuleOf(_) => NO_SELECTOR
  }

  /** The selector held in a place, -1 for none. A kept module's database is the system's. */
  function Held(s: System, slot: Slot): Index {
    if slot.ModuleOf? then
      if slot.path in s.handles && s.kept != Some(s.handles[slot.path]) then s.handles[slot.path] / 8
      else NO_SELECTOR
    else if slot.task < |s.tasks| then HeldByTask(s.tasks[slot.task], slot)
    else NO_SELECTOR
  }

  ghost predicate WellShaped(s: System) {
    && Sound(s.table) && 0 in s.system && NO_SELECTOR !in s.system && s.system <= s.table.used
    && (s.kept.Some? ==> s.kept.value % 8 == 7 && s.kept.value / 8 in s.system)
    && (forall p :: p in s.handles ==> s.handles[p] % 8 == 7)
  }

  /** A selector in a place is marked, is not the system's, and but for an environment's is not on the free list. */
  ghost predicate WellHeld(s: System, a: Slot) {
    Held(s, a) >= 0 ==>
      && Held(s, a) in s.table.used && Held(s, a) !in s.system
      && (a.EnvironmentOf? || Held(s, a) !in s.table.freed)
  }

  /** No selector is in two places. */
  ghost predicate HeldOnce(s: System) {
    forall a, b :: Held(s, a) >= 0 && Held(s, a) == Held(s, b) ==> a == b
  }

  /** What every run keeps. */
  ghost predicate Consistent(s: System) {
    WellShaped(s) && (forall a :: WellHeld(s, a)) && HeldOnce(s)
  }

  /** Selectors marked that nothing holds: never to be given again. */
  ghost function Lost(s: System): set<Index> {
    set i: Index | i in s.table.used && i >= 0 && i !in s.system && forall a :: Held(s, a) != i
  }

  // ---------------------------------------------------------------- a start

  /** Where in a load's answers a place's selector is, if it is one of them. */
  function AnswerAt(s: System, program: Program, slot: Slot): (at: Option<nat>)
    ensures at.Some? ==> at.value < AnswerCount(s, program)
  {
    var first := if program.path in s.handles then 0 else 1;
    if slot.ModuleOf? then if slot.path == program.path && first == 1 then Some(0) else None
    else if slot.task != |s.tasks| then None
    else match slot
      case DatabaseOf(_) => Some(first)
      case PrefixOf(_) => Some(first + 1)
      case SecondOf(_) => Some(first + 2)
      case QueueOf(_) => Some(first + 3)
      case SegmentOf(_, k) => if k < program.segmentCount then Some(first + 4 + k) else None
      case EnvironmentOf(_) => None
  }

  lemma HeldInstalled(s: System, program: Program, got: Acquisition, slot: Slot)
    requires |got.indices| == AnswerCount(s, program)
    requires forall p :: p in s.handles ==> s.handles[p] % 8 == 7
    requires got.indices[0] >= 0 ==> got.indices[0] !in s.system
    requires s.kept.Some? ==> s.kept.value / 8 in s.system
    ensures var at := AnswerAt(s, program, slot);
            Held(Installed(s, program, got), slot)
            == if at.Some? then got.indices[at.value]
               else if slot == ModuleOf(program.path) then NO_SELECTOR
               else Held(s, slot)
  {
  }

  lemma LoadAnswersFresh(s: System, program: Program)
    requires Sound(s.table)
    ensures FreshSince(s.table, LoadAnswers(s, program))
  {
    var none := Acquisition([], s.table);
    if program.path !in s.handles {
      AskedIsFresh(s.table, none, Mapping);
    }
    var so := if program.path in s.handles then none else Asked(none, Mapping);
    AskedIsFresh(s.table, so, Reserving);
    AskedIsFresh(s.table, Asked(so, Reserving), Mapping);
    AskedIsFresh(s.table, Asked(Asked(so, Reserving), Mapping), Reserving);
    AskedIsFresh(s.table, Asked(Asked(Asked(so, Reserving), Mapping), Reserving), Reserving);
    AskedTimesIsFresh(s.table, OwnAsked(so), program.segmentCount);
  }

  /** The place each answer goes. */
  function AnswerSlot(s: System, program: Program, at: nat): (slot: Slot)
    requires at < AnswerCount(s, program)
    ensures AnswerAt(s, program, slot) == Some(at)
  {
    var first := if program.path in s.handles then 0 else 1;
    var t := |s.tasks|;
    if at < first then ModuleOf(program.path)
    else if at == first then DatabaseOf(t)
    else if at == first + 1 then PrefixOf(t)
    else if at == first + 2 then SecondOf(t)
    else if at == first + 3 then QueueOf(t)
    else SegmentOf(t, at - first - 4)
  }

  lemma InstalledOnce(s: System, program: Program, got: Acquisition, a: Slot, b: Slot)
    requires WellShaped(s) && WellHeld(s, a) && WellHeld(s, b) && (Held(s, a) == Held(s, b) >= 0 ==> a == b)
    requires FreshSince(s.table, got) && |got.indices| == AnswerCount(s, program)
    requires got.indices[0] >= 0 ==> got.indices[0] !in s.system
    requires Held(Installed(s, program, got), a) == Held(Installed(s, program, got), b) >= 0
    ensures a == b
  {
    HeldInstalled(s, program, got, a);
    HeldInstalled(s, program, got, b);
    var at, bt := AnswerAt(s, program, a), AnswerAt(s, program, b);
    if at.Some? && bt.Some? {
      assert at.value == bt.value;
    }
  }

  lemma InstalledConsistent(s: System, program: Program, got: Acquisition)
    requires Consistent(s) && FreshSince(s.table, got) && |got.indices| == AnswerCount(s, program)
    ensures Consistent(Installed(s, program, got))
  {
    var r := Installed(s, program, got);
    forall a ensures WellHeld(r, a) {
      HeldInstalled(s, program, got, a);
      assert WellHeld(s, a);
    }
    forall a, b | Held(r, a) >= 0 && Held(r, a) == Held(r, b) ensures a == b {
      assert WellHeld(s, a) && WellHeld(s, b);
      InstalledOnce(s, program, got, a, b);
    }
  }

  /** What a start loses: the database whose handle its registering clears. */
  ghost function LostByStart(s: System, program: Program): set<Index> {
    var database := Held(s, ModuleOf(program.path));
    if database >= 0 then {database} else {}
  }

  lemma InstalledLoses(s: System, program: Program, got: Acquisition)
    requires Consistent(s) && FreshSince(s.table, got) && |got.indices| == AnswerCount(s, program)
    ensures Lost(Installed(s, program, got)) == Lost(s) + LostByStart(s, program)
  {
    var r := Installed(s, program, got);
    forall i: Index | i in Lost(r) ensures i in Lost(s) + LostByStart(s, program) {
      if i in got.indices {
        var k :| 0 <= k < |got.indices| && got.indices[k] == i;
        HeldInstalled(s, program, got, AnswerSlot(s, program, k));
      }
      forall a | a != ModuleOf(program.path) ensures Held(s, a) != i {
        HeldInstalled(s, program, got, a);
      }
    }
    assert WellHeld(s, ModuleOf(program.path));
    forall i: Index | i in Lost(s) + LostByStart(s, program) ensures i in Lost(r) {
      forall a ensures Held(r, a) != i {
        HeldInstalled(s, program, got, a);
      }
    }
  }

  lemma PreparedConsistent(s: System, t: nat)
    requires Consistent(s) && t < |s.tasks| && s.tasks[t].own.Some? && s.tasks[t].environment.None?
    ensures Consistent(Prepared(s, t)) && Lost(Prepared(s, t)) == Lost(s)
  {
    var r := Prepared(s, t);
    var environment := FirstFree(s.table.used, 1);
    assert forall a :: Held(r, a) == if a == EnvironmentOf(t) then environment else Held(s, a);
    forall a ensures WellHeld(r, a) {
      assert WellHeld(s, a);
    }
    forall a, b | Held(r, a) >= 0 && Held(r, a) == Held(r, b) ensures a == b {
      assert WellHeld(s, a) && WellHeld(s, b);
    }
    forall i: Index | i in Lost(r) ensures i in Lost(s) {
      assert Held(r, EnvironmentOf(t)) != i;
      forall a ensures Held(s, a) != i {
        assert Held(r, a) != i;
      }
    }
  }

  // ---------------------------------------------------------------- an end

  /** The places of segments but the data segment's, in their order. */
  function OtherSlots(t: nat, count: nat, dataSegment: nat): (slots: seq<Slot>)
    ensures forall k, l :: 0 <= k < l < |slots| ==> slots[k] != slots[l]
    ensures forall k :: 0 <= k < |slots| ==>
      slots[k].SegmentOf? && slots[k].task == t && slots[k].number < count && slots[k].number + 1 != dataSegment
  {
    seq(OthersCount(count, dataSegment), k requires k >= 0 => SegmentOf(t, OtherAt(count, dataSegment, k)))
  }

  /** How many segments but the data segment there are, and which the k-th of them is. */
  function OthersCount(count: nat, dataSegment: nat): nat {
    if 1 <= dataSegment <= count then count - 1 else count
  }

  function OtherAt(count: nat, dataSegment: nat, k: nat): nat {
    if 1 <= dataSegment <= count && k >= dataSegment - 1 then k + 1 else k
  }

  function DataSlots(t: nat, task: Task): seq<Slot> {
    if HasData(task) then [SegmentOf(t, task.dataSegment - 1)] else []
  }

  /** The places whose selectors an end gives back, in order. */
  function ReturnedSlots(t: nat, task: Task, database: bool, whole: bool): (slots: seq<Slot>) {
    [QueueOf(t)]
      + (DataSlots(t, task)
         + (if database then [ModuleOf(task.path)] else [])
         + (if whole then OtherSlots(t, |task.segments|, task.dataSegment) else []))
      + [PrefixOf(t), SecondOf(t), DatabaseOf(t)]
  }

  ghost predicate Differ(slots: seq<Slot>) {
    forall k, l :: 0 <= k < l < |slots| ==> slots[k] != slots[l]
  }

  lemma DifferTogether(a: seq<Slot>, b: seq<Slot>)
    requires Differ(a) && Differ(b)
    requires forall k, l :: 0 <= k < |a| && 0 <= l < |b| ==> a[k] != b[l]
    ensures Differ(a + b)
  {
  }

  lemma ReturnedSlotsDiffer(t: nat, task: Task, database: bool, whole: bool)
    ensures Differ(ReturnedSlots(t, task, database, whole))
  {
    hide OtherSlots;
    var moduleSlots := if database then [ModuleOf(task.path)] else [];
    var otherSlots := if whole then OtherSlots(t, |task.segments|, task.dataSegment) else [];
    var segments := DataSlots(t, task) + moduleSlots + otherSlots;
    SegmentSlotsDiffer(DataSlots(t, task), moduleSlots, otherSlots);
    AmongDiffer(t, segments);
  }

  lemma SegmentSlotsDiffer(data: seq<Slot>, moduleSlots: seq<Slot>, others: seq<Slot>)
    requires Differ(others) && |data| <= 1 && |moduleSlots| <= 1
    requires forall k, l :: 0 <= k < |data| && 0 <= l < |moduleSlots| ==> data[k] != moduleSlots[l]
    requires forall k, l :: 0 <= k < |data| && 0 <= l < |others| ==> data[k] != others[l]
    requires forall k, l :: 0 <= k < |moduleSlots| && 0 <= l < |others| ==> moduleSlots[k] != others[l]
    ensures Differ(data + moduleSlots + others)
  {
    DifferTogether(data, moduleSlots);
    DifferTogether(data + moduleSlots, others);
  }

  /** A module's places between a task's own. */
  lemma AmongDiffer(t: nat, slots: seq<Slot>)
    requires Differ(slots) && forall k :: 0 <= k < |slots| ==> slots[k].SegmentOf? || slots[k].ModuleOf?
    ensures Differ([QueueOf(t)] + slots + [PrefixOf(t), SecondOf(t), DatabaseOf(t)])
  {
    DifferTogether([QueueOf(t)], slots);
    DifferTogether([QueueOf(t)] + slots, [PrefixOf(t), SecondOf(t), DatabaseOf(t)]);
  }

  lemma ReturnedSlotsAre(t: nat, task: Task, database: bool, whole: bool, slot: Slot)
    requires slot in ReturnedSlots(t, task, database, whole)
    ensures (database && slot == ModuleOf(task.path)) || (!slot.ModuleOf? && !slot.EnvironmentOf? && slot.task == t)
    ensures slot.SegmentOf? ==> slot.number < |task.segments|
  {
  }

  ghost predicate HeldIn(s: System, slots: seq<Slot>, given: seq<Index>) {
    |slots| == |given| && forall k :: 0 <= k < |given| ==> given[k] == Held(s, slots[k])
  }

  lemma HeldInBoth(s: System, slots: seq<Slot>, given: seq<Index>, slots': seq<Slot>, given': seq<Index>)
    requires HeldIn(s, slots, given) && HeldIn(s, slots', given')
    ensures HeldIn(s, slots + slots', given + given')
  {
  }

  lemma OtherSegmentAt(segments: seq<Index>, dataSegment: nat, k: nat)
    requires k < OthersCount(|segments|, dataSegment)
    ensures |Others(segments, dataSegment)| == OthersCount(|segments|, dataSegment)
    ensures OtherAt(|segments|, dataSegment, k) < |segments|
    ensures Others(segments, dataSegment)[k] == segments[OtherAt(|segments|, dataSegment, k)]
  {
  }

  lemma OthersAreHeld(s: System, t: nat)
    requires t < |s.tasks| && s.tasks[t].own.Some?
    ensures HeldIn(s, OtherSlots(t, |s.tasks[t].segments|, s.tasks[t].dataSegment),
                   Others(s.tasks[t].segments, s.tasks[t].dataSegment))
  {
    hide Others, OtherAt;
    var segments, dataSegment := s.tasks[t].segments, s.tasks[t].dataSegment;
    OthersLength(segments, dataSegment);
    forall k: nat | k < OthersCount(|segments|, dataSegment)
      ensures Others(segments, dataSegment)[k] == Held(s, OtherSlots(t, |segments|, dataSegment)[k])
    {
      OtherSegmentAt(segments, dataSegment, k);
    }
  }

  lemma OthersLength(segments: seq<Index>, dataSegment: nat)
    ensures |Others(segments, dataSegment)| == OthersCount(|segments|, dataSegment)
  {
  }

  lemma ReturnedAreHeld(s: System, t: nat)
    requires t < |s.tasks| && s.tasks[t].own.Some?
    ensures var gone, last := DatabaseGone(s, t), IsLast(s, t);
            HeldIn(s, ReturnedSlots(t, s.tasks[t], gone.Some?, last),
                   Returned(s.tasks[t], s.tasks[t].own.value, gone, last))
  {
    hide Others, OtherSlots, IsLast, HeldIn;
    var task, gone, last := s.tasks[t], DatabaseGone(s, t), IsLast(s, t);
    var data, dataSlots := DataPart(task), DataSlots(t, task);
    var module', moduleSlots := DatabasePart(gone), if gone.Some? then [ModuleOf(task.path)] else [];
    var others := if last then Others(task.segments, task.dataSegment) else [];
    var otherSlots := if last then OtherSlots(t, |task.segments|, task.dataSegment) else [];
    var own := task.own.value;
    ModuleIsHeld(s, t);
    OwnAreHeld(s, t);
    HeldInBoth(s, dataSlots, data, moduleSlots, module');
    HeldInBoth(s, dataSlots + moduleSlots, data + module', otherSlots, others);
    HeldInBoth(s, [QueueOf(t)], [own.queue], dataSlots + moduleSlots + otherSlots, data + module' + others);
    HeldInBoth(s, [QueueOf(t)] + (dataSlots + moduleSlots + otherSlots), [own.queue] + (data + module' + others),
               [PrefixOf(t), SecondOf(t), DatabaseOf(t)], [own.prefix, own.second, own.database]);
  }

  lemma ModuleIsHeld(s: System, t: nat)
    requires t < |s.tasks| && s.tasks[t].own.Some?
    ensures var task, gone, last := s.tasks[t], DatabaseGone(s, t), IsLast(s, t);
            && HeldIn(s, if gone.Some? then [ModuleOf(task.path)] else [], DatabasePart(gone))
            && HeldIn(s, DataSlots(t, task), DataPart(task))
            && HeldIn(s, if last then OtherSlots(t, |task.segments|, task.dataSegment) else [],
                      if last then Others(task.segments, task.dataSegment) else [])
  {
    hide Others, OtherSlots, Running;
    OthersAreHeld(s, t);
  }

  lemma OwnAreHeld(s: System, t: nat)
    requires t < |s.tasks| && s.tasks[t].own.Some?
    ensures var own := s.tasks[t].own.value;
            && HeldIn(s, [QueueOf(t)], [own.queue])
            && HeldIn(s, [PrefixOf(t), SecondOf(t), DatabaseOf(t)], [own.prefix, own.second, own.database])
  {
  }

  /** What an end gives back, or lets go with its environment, and what it leaves in place. */
  ghost predicate GoneByExit(s: System, t: nat, slot: Slot)
    requires t < |s.tasks|
  {
    if slot.ModuleOf? then slot.path == s.tasks[t].path && IsLast(s, t)
    else slot.task == t && !IsKept(s, s.tasks[t].path)
  }

  lemma HeldExited(s: System, t: nat, slot: Slot)
    requires t < |s.tasks|
    ensures Held(Exited(s, t), slot) == if GoneByExit(s, t, slot) then NO_SELECTOR else Held(s, slot)
  {
  }

  /** Whether an end gives a task's selectors back: it has them, and its module is not the kept one. */
  predicate GivesBack(s: System, t: nat)
    requires t < |s.tasks|
  {
    s.tasks[t].own.Some? && !IsKept(s, s.tasks[t].path)
  }

  function GivenByExit(s: System, t: nat): seq<Index>
    requires t < |s.tasks|
  {
    if GivesBack(s, t) then Returned(s.tasks[t], s.tasks[t].own.value, DatabaseGone(s, t), IsLast(s, t)) else []
  }

  function SlotsByExit(s: System, t: nat): seq<Slot>
    requires t < |s.tasks|
  {
    if GivesBack(s, t) then ReturnedSlots(t, s.tasks[t], DatabaseGone(s, t).Some?, IsLast(s, t)) else []
  }

  /** What an end gives back was held, once each, off the free list, in places then empty. */
  lemma GivenWasHeld(s: System, t: nat)
    requires Consistent(s) && t < |s.tasks|
    ensures HeldIn(s, SlotsByExit(s, t), GivenByExit(s, t)) && Differ(SlotsByExit(s, t))
    ensures forall slot :: slot in SlotsByExit(s, t) ==> GoneByExit(s, t, slot) && !slot.EnvironmentOf?
  {
    if GivesBack(s, t) {
      ReturnedAreHeld(s, t);
      ReturnedSlotsDiffer(t, s.tasks[t], DatabaseGone(s, t).Some?, IsLast(s, t));
      forall slot | slot in SlotsByExit(s, t) ensures GoneByExit(s, t, slot) && !slot.EnvironmentOf? {
        ReturnedSlotsAre(t, s.tasks[t], DatabaseGone(s, t).Some?, IsLast(s, t), slot);
      }
    }
  }

  /** An environment let go: its place, where the task's selectors are given back. */
  function LetGo(s: System, t: nat): Index
    requires t < |s.tasks|
  {
    if GivesBack(s, t) then Held(s, EnvironmentOf(t)) else NO_SELECTOR
  }

  lemma TableAfterExit(s: System, t: nat)
    requires t < |s.tasks|
    ensures Exited(s, t).table.freed == s.table.freed + GivenByExit(s, t)
    ensures forall i: Index :: i >= 0 ==>
      (i in Exited(s, t).table.used <==> i in s.table.used && i !in GivenByExit(s, t) && i != LetGo(s, t))
  {
  }

  lemma GivenAreApart(s: System, t: nat)
    requires Consistent(s) && t < |s.tasks|
    ensures var given := GivenByExit(s, t);
            Distinct(given) && forall k :: 0 <= k < |given| && given[k] >= 0 ==>
              given[k] !in s.table.freed && given[k] !in s.system
  {
    GivenWasHeld(s, t);
    var slots, given := SlotsByExit(s, t), GivenByExit(s, t);
    forall k | 0 <= k < |given| && given[k] >= 0
      ensures given[k] !in s.table.freed && given[k] !in s.system
    {
      assert WellHeld(s, slots[k]);
    }
  }

  lemma ExitedKeepsFreeList(s: System, t: nat)
    requires Consistent(s) && t < |s.tasks|
    ensures Sound(Exited(s, t).table) && s.system <= Exited(s, t).table.used
  {
    GivenAreApart(s, t);
    TableAfterExit(s, t);
    assert WellHeld(s, EnvironmentOf(t));
  }

  lemma ExitedConsistent(s: System, t: nat)
    requires Consistent(s) && t < |s.tasks|
    ensures Consistent(Exited(s, t))
  {
    var r := Exited(s, t);
    ExitedKeepsFreeList(s, t);
    GivenWasHeld(s, t);
    TableAfterExit(s, t);
    forall a ensures WellHeld(r, a) {
      HeldExited(s, t, a);
      assert WellHeld(s, a);
    }
    forall a, b | Held(r, a) >= 0 && Held(r, a) == Held(r, b) ensures a == b {
      HeldExited(s, t, a);
      HeldExited(s, t, b);
    }
  }

  /**
   * What an end loses: the code of an instance that is not its module's last
   * with a handle; and where the task has nothing of its own left, the
   * database of a handle found with no instance running.
   */
  ghost function LostByExit(s: System, t: nat): set<Index>
    requires t < |s.tasks|
  {
    var task := s.tasks[t];
    if GivesBack(s, t) then
      if IsLast(s, t) then {}
      else set i: Index | i in Others(task.segments, task.dataSegment) && i >= 0
    else if IsLast(s, t) && Held(s, ModuleOf(task.path)) >= 0 then {Held(s, ModuleOf(task.path))}
    else {}
  }

  /** A place emptied by an end is its environment's, one given back, or one whose selector is lost. */
  lemma GoneIsGivenOrLost(s: System, t: nat, a: Slot)
    requires Consistent(s) && t < |s.tasks| && GoneByExit(s, t, a) && Held(s, a) >= 0
    ensures Held(s, a) == LetGo(s, t) || Held(s, a) in GivenByExit(s, t) || Held(s, a) in LostByExit(s, t)
  {
    var task := s.tasks[t];
    if GivesBack(s, t) {
      var own, given := task.own.value, GivenByExit(s, t);
      var n := |given|;
      assert given[0] == own.queue && given[n - 3] == own.prefix && given[n - 2] == own.second
          && given[n - 1] == own.database;
      var middle := ModuleReturned(task, DatabaseGone(s, t), IsLast(s, t));
      assert given == [own.queue] + middle + [own.prefix, own.second, own.database];
      assert forall x: Index :: x in middle ==> x in given;
      if a.SegmentOf? {
        SegmentIsDataOrOther(task, a.number);
      } else if a.ModuleOf? {
        assert WellHeld(s, a);
        assert Held(s, a) in DatabasePart(DatabaseGone(s, t));
      }
    }
  }

  lemma SegmentIsDataOrOther(task: Task, k: nat)
    requires k < |task.segments|
    ensures task.segments[k] in DataPart(task) || task.segments[k] in Others(task.segments, task.dataSegment)
  {
  }

  /** The place a selector an end loses was in: emptied, and not among those given back. */
  lemma LostWasHeld(s: System, t: nat, i: Index) returns (a: Slot)
    requires Consistent(s) && t < |s.tasks| && i in LostByExit(s, t)
    ensures i >= 0 && Held(s, a) == i && GoneByExit(s, t, a) && a !in SlotsByExit(s, t) && !a.EnvironmentOf?
  {
    var task := s.tasks[t];
    if GivesBack(s, t) {
      OthersAreHeld(s, t);
      var others := Others(task.segments, task.dataSegment);
      var k :| 0 <= k < |others| && others[k] == i;
      a := OtherSlots(t, |task.segments|, task.dataSegment)[k];
    } else {
      a := ModuleOf(task.path);
    }
  }

  lemma ExitedLoses(s: System, t: nat)
    requires Consistent(s) && t < |s.tasks|
    ensures Lost(Exited(s, t)) == Lost(s) + LostByExit(s, t)
  {
    var r := Exited(s, t);
    var slots, given := SlotsByExit(s, t), GivenByExit(s, t);
    GivenWasHeld(s, t);
    TableAfterExit(s, t);
    forall i: Index | i in Lost(r) ensures i in Lost(s) + LostByExit(s, t) {
      forall a | Held(s, a) == i ensures i in LostByExit(s, t) {
        HeldExited(s, t, a);
        assert Held(r, a) != i;
        GoneIsGivenOrLost(s, t, a);
      }
    }
    forall i: Index | i in Lost(s) + LostByExit(s, t) ensures i in Lost(r) {
      LostIsLeft(s, t, i);
      forall a ensures Held(r, a) != i {
        HeldExited(s, t, a);
        if i in LostByExit(s, t) {
          var b := LostWasHeld(s, t, i);
        }
      }
    }
  }

  lemma LostIsLeft(s: System, t: nat, i: Index)
    requires Consistent(s) && t < |s.tasks| && i in Lost(s) + LostByExit(s, t)
    ensures i in Exited(s, t).table.used && i >= 0 && i !in s.system
  {
    GivenWasHeld(s, t);
    TableAfterExit(s, t);
    var slots, given := SlotsByExit(s, t), GivenByExit(s, t);
    if i in LostByExit(s, t) {
      var b := LostWasHeld(s, t, i);
      assert WellHeld(s, b);
      forall k | 0 <= k < |given| ensures given[k] != i {
        assert slots[k] in slots;
      }
    } else {
      forall k | 0 <= k < |given| ensures given[k] != i {
        assert Held(s, slots[k]) != i;
      }
      assert Held(s, EnvironmentOf(t)) != i;
    }
  }

  // ---------------------------------------------------------------- every run

  /** What an event loses. */
  ghost function LostBy(s: System, event: Event): set<Index> {
    match event
    case Launch(program) => LostByStart(s, program)
    case Exit(t) => if t < |s.tasks| then LostByExit(s, t) else {}
    case Keep(path) => if s.kept.Some? then LostByStart(s, Program(path, 0, 0)) else {}
  }

  lemma KeptPut(s: System, path: Path)
    requires Consistent(s)
    ensures Consistent(After(s, Keep(path)))
    ensures Lost(After(s, Keep(path))) == Lost(s) + LostBy(s, Keep(path))
  {
    var r := After(s, Keep(path));
    if s.kept.Some? {
      assert forall a :: Held(r, a) == if a == ModuleOf(path) then NO_SELECTOR else Held(s, a);
      forall a ensures WellHeld(r, a) {
        assert WellHeld(s, a);
      }
      assert WellHeld(s, ModuleOf(path));
      forall i: Index ensures i in Lost(r) <==> i in Lost(s) + LostBy(s, Keep(path)) {
        if i in Lost(r) {
          forall a | a != ModuleOf(path) ensures Held(s, a) != i {
            assert Held(r, a) != i;
          }
        }
      }
    }
  }

  lemma AfterConsistent(s: System, event: Event)
    requires Consistent(s)
    ensures Consistent(After(s, event))
    ensures Lost(After(s, event)) == Lost(s) + LostBy(s, event)
  {
    match event
    case Launch(program) =>
      LoadAnswersFresh(s, program);
      InstalledConsistent(s, program, LoadAnswers(s, program));
      InstalledLoses(s, program, LoadAnswers(s, program));
      PreparedConsistent(Loaded(s, program), |s.tasks|);
    case Exit(t) =>
      if t < |s.tasks| {
        ExitedConsistent(s, t);
        ExitedLoses(s, t);
      }
    case Keep(path) =>
      KeptPut(s, path);
  }

  /**
   * Over every run from the system's start, in any order, with tasks ended
   * again or not: no selector is held in two places, every selector held is
   * marked and is not the system's, and the free list holds none twice.
   */
  lemma {:induction false} RunConsistent(s: System, events: seq<Event>)
    requires Booted(s)
    ensures Consistent(Run(s, events))
  {
    if events != [] {
      RunConsistent(s, events[..|events| - 1]);
      AfterConsistent(Run(s, events[..|events| - 1]), events[|events| - 1]);
    }
  }

  /**
   * The next selector asked for is one nothing holds, and one no longer held
   * nor lost is found again: marked is exactly the system's, held or lost.
   */
  lemma NextIsUnheld(s: System)
    requires Consistent(s)
    ensures var i := TakenIndex(s.table);
            i >= 0 ==> i !in s.system && i !in Lost(s) && forall a :: Held(s, a) != i
    ensures forall i: Index :: i >= 0 ==>
      (i in s.table.used <==> i in s.system || i in Lost(s) || exists a :: Held(s, a) == i)
  {
    forall a ensures WellHeld(s, a) {
    }
    forall i: Index | i >= 0 && exists a :: Held(s, a) == i ensures i in s.table.used {
      var a :| Held(s, a) == i;
      assert WellHeld(s, a);
    }
    AskingIsFresh(s.table, Mapping);
  }

  /** When an event loses nothing, as its caller can tell beforehand. */
  predicate LosesNothing(s: System, event: Event) {
    match event
    case Launch(program) => program.path !in s.handles || IsKept(s, program.path)
    case Exit(t) =>
      t < |s.tasks| ==>
        var task := s.tasks[t];
        if GivesBack(s, t) then
          IsLast(s, t) || forall k :: 0 <= k < |task.segments| && k + 1 != task.dataSegment ==> task.segments[k] < 0
        else !IsLast(s, t) || IsKept(s, task.path)
    case Keep(path) => s.kept.Some? ==> path !in s.handles || IsKept(s, path)
  }

  lemma OthersAreTheRest(task: Task, i: Index)
    ensures i in Others(task.segments, task.dataSegment) <==>
            exists k :: 0 <= k < |task.segments| && k + 1 != task.dataSegment && task.segments[k] == i
  {
  }

  lemma LosesNothingExactly(s: System, event: Event)
    requires Consistent(s)
    ensures LostBy(s, event) == {} <==> LosesNothing(s, event)
  {
    if event.Exit? && event.task < |s.tasks| && GivesBack(s, event.task) && !IsLast(s, event.task) {
      var task := s.tasks[event.task];
      if k :| 0 <= k < |task.segments| && k + 1 != task.dataSegment && task.segments[k] >= 0 {
        OthersAreTheRest(task, task.segments[k]);
        assert task.segments[k] in LostBy(s, event);
      }
      if i: Index :| i in LostBy(s, event) {
        OthersAreTheRest(task, i);
      }
    }
  }

  /** No event of a run loses anything, each judged as it happens. */
  predicate Harmless(s: System, events: seq<Event>) {
    events == []
    || (Harmless(s, events[..|events| - 1])
        && LosesNothing(Run(s, events[..|events| - 1]), events[|events| - 1]))
  }

  /** A run loses nothing exactly when none of its events does; what is lost stays lost. */
  lemma {:induction false} RunLosesNothingExactly(s: System, events: seq<Event>)
    requires Booted(s)
    ensures Lost(Run(s, events)) == {} <==> Harmless(s, events)
  {
    if events == [] {
      assert Lost(s) == {};
    } else {
      var n := |events| - 1;
      RunLosesNothingExactly(s, events[..n]);
      RunConsistent(s, events[..n]);
      AfterConsistent(Run(s, events[..n]), events[n]);
      LosesNothingExactly(Run(s, events[..n]), events[n]);
    }
  }

  lemma NewDatabaseIsFirstAnswer(s: System, program: Program)
    requires program.path !in s.handles
    ensures LoadAnswers(s, program).indices[0] == TakenIndex(s.table)
  {
  }

  lemma StartedHandles(s: System, program: Program, got: Acquisition)
    requires |got.indices| == AnswerCount(s, program)
    ensures var r := Prepared(Installed(s, program, got), |s.tasks|);
            && r.kept == s.kept
            && r.handles == HandlesLoaded(s.handles, program.path,
                                          if program.path in s.handles then NO_SELECTOR else got.indices[0])
  {
  }

  lemma FirstInstanceTakesDatabase(s: System, program: Program)
    requires Consistent(s) && program.path !in s.handles && TakenIndex(s.table) >= 0
    ensures var one := After(s, Launch(program));
            && one.handles == s.handles[program.path := Selector(TakenIndex(s.table))]
            && one.kept == s.kept && TakenIndex(s.table) !in s.system
  {
    NewDatabaseIsFirstAnswer(s, program);
    NextIsUnheld(s);
    StartedHandles(s, program, LoadAnswers(s, program));
    assert s.handles - {program.path} == s.handles;
  }

  /** A start of a program whose module has a handle clears it, and its database is lost. */
  lemma FurtherInstanceLosesDatabase(s: System, program: Program)
    requires Consistent(s) && program.path in s.handles && !IsKept(s, program.path)
    ensures var r := After(s, Launch(program));
            r.handles == s.handles - {program.path} && s.handles[program.path] / 8 in Lost(r)
  {
    AfterConsistent(s, Launch(program));
    StartedHandles(s, program, LoadAnswers(s, program));
    assert s.handles[program.path] / 8 in LostBy(s, Launch(program));
  }

  /** A program started twice from the system's start has lost its module's database. */
  lemma TwoInstancesLoseDatabase(program: Program)
    ensures Lost(Run(NEWLY_BOOTED, [Launch(program), Launch(program)])) != {}
  {
    hide LoadAnswers, Consistent, Lost, Installed;
    var one := After(NEWLY_BOOTED, Launch(program));
    RunOfTwo(NEWLY_BOOTED, Launch(program), Launch(program));
    RunOfOne(NEWLY_BOOTED, Launch(program));
    RunConsistent(NEWLY_BOOTED, []);
    RunConsistent(NEWLY_BOOTED, [Launch(program)]);
    assert TakenIndex(NEWLY_BOOTED.table) == 1;
    FirstInstanceTakesDatabase(NEWLY_BOOTED, program);
    FurtherInstanceLosesDatabase(one, program);
  }
}
