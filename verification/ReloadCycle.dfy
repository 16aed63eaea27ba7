/**
 * A task ended twice, and a program ended as its module's last instance and
 * started again with nothing between: which selectors it is given.
 */
module ReloadCycle {
  import opened Wrappers
  import opened SelectorAllocator
  import opened TaskLifecycle
  import opened SelectorConservation

  /**
   * Ending a task again changes nothing, except exactly where the first end
   * was of the kept Program Manager's last instance: that one's handle is
   * gone and its selectors are not, so the second end gives them back.
   */
  lemma EndedAgainExactly(s: System, t: nat)
    requires t < |s.tasks|
    ensures Exited(Exited(s, t), t) == Exited(s, t)
       <==> !(s.tasks[t].own.Some? && IsKept(s, s.tasks[t].path) && IsLast(s, t))
  {
    var once, task := Exited(s, t), s.tasks[t];
    assert Ended(once.tasks, t) == once.tasks;
    SameRunning(once.tasks, Ended(s.tasks, t), task.path);
    assert once.tasks[t].path == task.path;
    if task.own.Some? && IsKept(s, task.path) && IsLast(s, t) {
      assert Exited(once, t).tasks[t].own.None? && once.tasks[t].own.Some?;
    } else {
      assert Exited(once, t).table == once.table;
      assert Exited(once, t).tasks[t] == once.tasks[t];
      assert Exited(once, t).handles == once.handles;
    }
  }

  lemma SameRunning(a: seq<Task>, b: seq<Task>, path: Path)
    requires |a| == |b| && forall k :: 0 <= k < |a| ==> a[k].ended == b[k].ended && a[k].path == b[k].path
    ensures Running(a, path) <==> Running(b, path)
  {
  }

  /** The one instance of a program, its module's handle its own, every selector of it a real one. */
  ghost predicate Sole(s: System, t: nat, program: Program) {
    && Consistent(s) && t < |s.tasks|
    && s.tasks[t].path == program.path && s.tasks[t].dataSegment == program.dataSegment
    && |s.tasks[t].segments| == program.segmentCount
    && s.tasks[t].environment.Some? && GivesBack(s, t) && IsLast(s, t)
    && forall a :: (a == ModuleOf(program.path) || (!a.ModuleOf? && a.task == t && SlotOf(a, program))) ==> Held(s, a) >= 0
  }

  /** A task's places for its program's selectors. */
  predicate SlotOf(a: Slot, program: Program) {
    !a.ModuleOf? && !a.EnvironmentOf? && (a.SegmentOf? ==> a.number < program.segmentCount)
  }

  /** Its database goes with it. */
  lemma DatabaseGoes(s: System, t: nat, program: Program)
    requires Sole(s, t, program)
    ensures t < |s.tasks| && GivesBack(s, t) && DatabaseGone(s, t).Some? && IsLast(s, t)
    ensures s.tasks[t].path == program.path && |s.tasks[t].segments| == program.segmentCount
  {
    hide Running;
    assert WellHeld(s, ModuleOf(program.path));
  }

  lemma ReturnedCount(task: Task, own: Own, database: Index)
    ensures |Returned(task, own, Some(database), true)| == 5 + |task.segments|
  {
  }

  lemma GivenAreReal(s: System, t: nat, program: Program)
    requires Sole(s, t, program)
    ensures |GivenByExit(s, t)| == 5 + program.segmentCount
    ensures forall k :: 0 <= k < |GivenByExit(s, t)| ==> GivenByExit(s, t)[k] >= 0
  {
    hide Returned, IsLast, DatabaseGone, ReturnedSlots, HeldOnce, Held, WellHeld;
    var slots, given := SlotsByExit(s, t), GivenByExit(s, t);
    GivenWasHeld(s, t);
    DatabaseGoes(s, t, program);
    ReturnedCount(s.tasks[t], s.tasks[t].own.value, DatabaseGone(s, t).value);
    forall k | 0 <= k < |given| ensures given[k] >= 0 {
      ReturnedSlotsAre(t, s.tasks[t], true, true, slots[k]);
    }
  }

  lemma LoadTakesLastFirst(s: System, program: Program)
    requires program.path !in s.handles && FreeOnTop(s.table, AnswerCount(s, program))
    ensures LastFirst(s.table, AnswerCount(s, program), LoadAnswers(s, program))
  {
    var n := AnswerCount(s, program);
    var none := Acquisition([], s.table);
    AskedIsLastFirst(s.table, n, none, Mapping);
    var a1 := Asked(none, Mapping);
    AskedIsLastFirst(s.table, n, a1, Reserving);
    var a2 := Asked(a1, Reserving);
    AskedIsLastFirst(s.table, n, a2, Mapping);
    var a3 := Asked(a2, Mapping);
    AskedIsLastFirst(s.table, n, a3, Reserving);
    var a4 := Asked(a3, Reserving);
    AskedIsLastFirst(s.table, n, a4, Reserving);
    AskedTimesIsLastFirst(s.table, n, Asked(a4, Reserving), program.segmentCount);
  }

  /** Real selectors put on top of a list, each but once and each unmarked. */
  lemma TopOfList(t: Table, front: seq<Index>, given: seq<Index>)
    requires t.freed == front + given && Distinct(given)
    requires forall k :: 0 <= k < |given| ==> given[k] >= 0 && given[k] !in t.used
    ensures FreeOnTop(t, |given|)
  {
    assert forall k :: |front| <= k < |t.freed| ==> t.freed[k] == given[k - |front|];
  }

  lemma GivenAreOnTop(s: System, t: nat, program: Program)
    requires Sole(s, t, program)
    ensures FreeOnTop(Exited(s, t).table, 5 + program.segmentCount)
  {
    hide Exited, GivenByExit, Distinct, FreeOnTop, LetGo, HeldOnce, Held, IsLast, WellHeld;
    TableAfterExit(s, t);
    GivenAreReal(s, t, program);
    GivenAreApart(s, t);
    TopOfList(Exited(s, t).table, s.table.freed, GivenByExit(s, t));
  }

  /** Answers taken from the top of the list an end leaves are what it gave back. */
  ghost predicate TakenBack(s: System, t: nat, got: Acquisition)
    requires t < |s.tasks|
  {
    var given := GivenByExit(s, t);
    && |got.indices| == |given|
    && (forall k :: 0 <= k < |given| ==> got.indices[k] == given[|given| - 1 - k] >= 0)
    && got.table.freed == s.table.freed
    && forall i: Index :: i >= 0 ==> (i in got.table.used <==> i in s.table.used && i != LetGo(s, t))
  }

  /** As many answers from the top of a list as were put there: those, backwards, and the list as it was. */
  lemma TopReversed(t: Table, front: seq<Index>, given: seq<Index>, got: Acquisition)
    requires t.freed == front + given && |got.indices| == |given| && LastFirst(t, |given|, got)
    ensures forall k :: 0 <= k < |given| ==> got.indices[k] == given[|given| - 1 - k]
    ensures got.table.freed == front
  {
    hide FreeOnTop;
    forall k | 0 <= k < |given| ensures got.indices[k] == given[|given| - 1 - k] {
      assert got.indices[k] == t.freed[|t.freed| - 1 - k];
    }
  }

  lemma TopIsTakenBack(s: System, t: nat, program: Program, got: Acquisition)
    requires Sole(s, t, program) && |got.indices| == 5 + program.segmentCount
    requires LastFirst(Exited(s, t).table, |got.indices|, got) && FreshSince(Exited(s, t).table, got)
    ensures TakenBack(s, t, got)
  {
    hide Held, GivenByExit, WellHeld, HeldOnce, IsLast, GivesBack, Returned, LastFirst, FreeOnTop, Exited, LetGo, Distinct;
    GivenAreReal(s, t, program);
    TableAfterExit(s, t);
    TopReversed(Exited(s, t).table, s.table.freed, GivenByExit(s, t), got);
    TakenBackAreTheSame(s, t, got.indices);
  }

  /**
   * A program ended as its module's last instance and loaded again with
   * nothing between takes exactly the selectors it gave back, the last first,
   * whatever its segments: the free list and the selectors marked are as they
   * were, but for its environment let go.
   */
  lemma ReloadTakesBack(s: System, t: nat, program: Program)
    requires Sole(s, t, program)
    ensures program.path !in Exited(s, t).handles
    ensures TakenBack(s, t, LoadAnswers(Exited(s, t), program))
  {
    ExitedConsistent(s, t);
    GivenAreOnTop(s, t, program);
    LoadTakesLastFirst(Exited(s, t), program);
    LoadAnswersFresh(Exited(s, t), program);
    TopIsTakenBack(s, t, program, LoadAnswers(Exited(s, t), program));
  }

  /** The indices taken back are those given: as many, each one of them. */
  lemma TakenBackAreTheSame(s: System, t: nat, indices: seq<Index>)
    requires Consistent(s) && t < |s.tasks| && |indices| == |GivenByExit(s, t)|
    requires forall k :: 0 <= k < |indices| ==> indices[k] == GivenByExit(s, t)[|indices| - 1 - k]
    ensures forall i: Index :: i in indices <==> i in GivenByExit(s, t)
    ensures forall i: Index :: i in indices && i >= 0 ==> i in s.table.used && i != LetGo(s, t)
  {
    hide SlotsByExit, GivenByExit, Held, GoneByExit, Exited;
    var slots, given := SlotsByExit(s, t), GivenByExit(s, t);
    GivenWasHeld(s, t);
    assert forall i: Index :: i in given <==> exists k :: 0 <= k < |given| && given[k] == i;
    forall i: Index | i in given ensures i in indices {
      var k :| 0 <= k < |given| && given[k] == i;
      assert indices[|given| - 1 - k] == i;
    }
    forall i: Index | i in indices && i >= 0 ensures i in s.table.used && i != LetGo(s, t) {
      var k :| 0 <= k < |indices| && indices[k] == i;
      assert WellHeld(s, slots[|indices| - 1 - k]) && slots[|indices| - 1 - k] in slots;
    }
  }

  /** A program's one instance ended and the program started again. */
  function Again(s: System, t: nat, program: Program): (r: System)
    requires t < |s.tasks|
    ensures |r.tasks| == |s.tasks| + 1
  {
    Launched(Exited(s, t), program)
  }

  /** After a start the place of each request holds its answer. */
  lemma StartHolds(e: System, program: Program, k: nat)
    requires Consistent(e) && k < AnswerCount(e, program)
    ensures Held(Launched(e, program), AnswerSlot(e, program, k)) == LoadAnswers(e, program).indices[k]
  {
    hide LoadAnswers, HeldOnce, Sound;
    var got := LoadAnswers(e, program);
    LoadAnswersFresh(e, program);
    assert got.indices[0] in got.indices;
    HeldInstalled(e, program, got, AnswerSlot(e, program, k));
  }

  lemma GivenFrom(s: System, t: nat, program: Program, k: nat)
    requires Sole(s, t, program) && k < 5 + program.segmentCount
    ensures |SlotsByExit(s, t)| == |GivenByExit(s, t)| == 5 + program.segmentCount
    ensures GivenByExit(s, t)[k] == Held(s, SlotsByExit(s, t)[k])
  {
    GivenWasHeld(s, t);
    GivenAreReal(s, t, program);
  }

  /**
   * Where each selector goes: the place its program's k-th request fills is
   * given what the place k-th from the end of those given back had.
   */
  lemma AgainHolds(s: System, t: nat, program: Program, k: nat)
    requires Sole(s, t, program) && k < 5 + program.segmentCount
    ensures AnswerCount(Exited(s, t), program) == |SlotsByExit(s, t)| == 5 + program.segmentCount
    ensures Held(Again(s, t, program), AnswerSlot(Exited(s, t), program, k))
         == Held(s, SlotsByExit(s, t)[4 + program.segmentCount - k])
  {
    hide Exited, LoadAnswers, SlotsByExit, GivenByExit, Consistent, Held, AnswerSlot, Launched;
    ReloadTakesBack(s, t, program);
    GivenFrom(s, t, program, 4 + program.segmentCount - k);
    ExitedConsistent(s, t);
    StartHolds(Exited(s, t), program, k);
  }

  lemma EndedAreNotRunning(s: System, t: nat, program: Program, task: Task, tasks: seq<Task>)
    requires t < |s.tasks| && IsLast(s, t) && s.tasks[t].path == program.path
    requires task.path == program.path && tasks == Exited(s, t).tasks + [task]
    ensures !Running(Ended(tasks, |s.tasks|), program.path)
  {
    var after, before := Ended(tasks, |s.tasks|), Ended(s.tasks, t);
    forall k | 0 <= k < |after| ensures after[k].ended || Upper(after[k].path) != Upper(program.path) {
      if k < |s.tasks| {
        assert after[k].ended == before[k].ended && after[k].path == before[k].path;
      }
    }
  }

  lemma StartShape(e: System, program: Program, got: Acquisition) returns (task: Task)
    requires |got.indices| == AnswerCount(e, program)
    ensures var r := Prepared(Installed(e, program, got), |e.tasks|);
            && r.tasks == e.tasks + [task] && r.system == e.system && r.kept == e.kept
            && r.table == Mark(got.table, FirstFree(got.table.used, 1))
    ensures task.path == program.path && task.dataSegment == program.dataSegment && !task.ended
    ensures |task.segments| == program.segmentCount && task.own.Some?
    ensures task.environment == Some(FirstFree(got.table.used, 1))
  {
    task := Prepared(Installed(e, program, got), |e.tasks|).tasks[|e.tasks|];
  }

  lemma SlotIsAnswered(e: System, program: Program, a: Slot) returns (k: nat)
    requires program.path !in e.handles
    requires a == ModuleOf(program.path) || (!a.ModuleOf? && a.task == |e.tasks| && SlotOf(a, program))
    ensures k < AnswerCount(e, program) && AnswerSlot(e, program, k) == a
  {
    k := AnswerAt(e, program, a).value;
  }

  /** Started again, it is again its module's one instance. */
  lemma AgainIsSole(s: System, t: nat, program: Program)
    requires Sole(s, t, program)
    ensures Sole(Again(s, t, program), |s.tasks|, program)
  {
    hide LoadAnswers, GivenByExit, HeldOnce, WellShaped, WellHeld, Installed;
    var e := Exited(s, t);
    var got := LoadAnswers(e, program);
    var r := Again(s, t, program);
    ReloadTakesBack(s, t, program);
    ExitedConsistent(s, t);
    AfterConsistent(e, Launch(program));
    var task := StartShape(e, program, got);
    EndedAreNotRunning(s, t, program, task, r.tasks);
    forall a | a == ModuleOf(program.path) || (!a.ModuleOf? && a.task == |s.tasks| && SlotOf(a, program))
      ensures Held(r, a) >= 0
    {
      var k := SlotIsAnswered(e, program, a);
      AgainHolds(s, t, program, k);
      SlotsAreReal(s, t, program, 4 + program.segmentCount - k);
    }
    assert Held(r, ModuleOf(program.path)) >= 0;
  }

  lemma SlotsAreReal(s: System, t: nat, program: Program, k: nat)
    requires Sole(s, t, program) && k < |SlotsByExit(s, t)|
    ensures Held(s, SlotsByExit(s, t)[k]) >= 0
  {
  }

  lemma EnvironmentLetGo(s: System, t: nat, program: Program)
    requires Sole(s, t, program)
    ensures t < |s.tasks| && s.tasks[t].environment == Some(LetGo(s, t))
    ensures LetGo(s, t) >= 0 ==> LetGo(s, t) >= 1 && LetGo(s, t) in s.table.used
  {
    assert WellHeld(s, EnvironmentOf(t));
  }

  /** What a start marks after the selectors taken back: the first free, no higher than the environment let go. */
  lemma NewEnvironment(s: System, t: nat, got: Acquisition)
    requires t < |s.tasks| && TakenBack(s, t, got) && LetGo(s, t) >= 1
    ensures 1 <= FirstFree(got.table.used, 1) <= LetGo(s, t)
  {
    hide GivenByExit, LetGo;
    assert LetGo(s, t) !in got.table.used;
  }

  /**
   * The free list is as it was, and the selectors marked too but for the two
   * environments. Where there was one to let go the new one is no higher, so
   * that the highest selector ever marked does not move.
   */
  lemma AgainMarksNoMore(s: System, t: nat, program: Program)
    requires Sole(s, t, program) && s.tasks[t].environment.value >= 0
    ensures var r := Again(s, t, program);
            var environment := r.tasks[|s.tasks|].environment;
            && r.table.freed == s.table.freed
            && environment.Some? && 1 <= environment.value <= s.tasks[t].environment.value
            && forall i: Index :: i >= 0 ==>
                 (i in r.table.used <==> i == environment.value || (i in s.table.used && i != s.tasks[t].environment.value))
  {
    hide Exited, LoadAnswers, GivenByExit, Sole, LetGo, Installed, FirstFree;
    EnvironmentLetGo(s, t, program);
    ReloadTakesBack(s, t, program);
    ExitedShape(s, t, program);
    var e := Exited(s, t);
    var got := LoadAnswers(e, program);
    NewEnvironment(s, t, got);
    var task := StartShape(e, program, got);
  }

  lemma ExitedShape(s: System, t: nat, program: Program)
    requires Sole(s, t, program)
    ensures t < |s.tasks| && program.path !in Exited(s, t).handles && |Exited(s, t).tasks| == |s.tasks|
  {
  }

  // ------------------------------------------------ any number of runs

  /** A program run so many times more, each ended before the next. */
  function RunMore(s: System, t: nat, program: Program, times: nat): (r: (System, nat))
    requires t < |s.tasks|
    ensures r.1 < |r.0.tasks|
  {
    if times == 0 then (s, t)
    else
      var (before, u) := RunMore(s, t, program, times - 1);
      (Again(before, u, program), |before.tasks|)
  }

  /** Every selector marked is at or below one. */
  predicate MarksUpTo(s: System, top: Index) {
    forall i <- s.table.used :: i <= top
  }

  /** A program's one instance, with an environment, and no selector marked above one. */
  ghost predicate RunsUnder(s: System, t: nat, program: Program, top: Index) {
    Sole(s, t, program) && s.tasks[t].environment.value >= 0 && MarksUpTo(s, top)
  }

  lemma AgainRunsUnder(s: System, t: nat, program: Program, top: Index)
    requires RunsUnder(s, t, program, top)
    ensures RunsUnder(Again(s, t, program), |s.tasks|, program, top)
  {
    hide Again, Sole;
    SoleRuns(s, t, program);
    EnvironmentLetGo(s, t, program);
    AgainIsSole(s, t, program);
    AgainMarksNoMore(s, t, program);
  }

  lemma SoleRuns(s: System, t: nat, program: Program)
    requires Sole(s, t, program)
    ensures t < |s.tasks|
  {
  }

  /** Whatever its segments, and however many times it is run, no selector is marked above those of the first run. */
  lemma {:induction false} RunMoreMarksNoMore(s: System, t: nat, program: Program, times: nat, top: Index)
    requires RunsUnder(s, t, program, top)
    ensures RunsUnder(RunMore(s, t, program, times).0, RunMore(s, t, program, times).1, program, top)
  {
    hide Again, Sole, MarksUpTo;
    SoleRuns(s, t, program);
    if times > 0 {
      RunMoreMarksNoMore(s, t, program, times - 1, top);
      var before := RunMore(s, t, program, times - 1);
      AgainRunsUnder(before.0, before.1, program, top);
    }
  }

  // ------------------------------------------------ one code and one data segment

  /** A program's selectors: module, database, prefix, second, queue, code and data. */
  function Assignment(s: System, t: nat, path: Path): (r: seq<Index>)
    ensures |r| == 7
  {
    [Held(s, ModuleOf(path)), Held(s, DatabaseOf(t)), Held(s, PrefixOf(t)), Held(s, SecondOf(t)),
     Held(s, QueueOf(t)), Held(s, SegmentOf(t, 0)), Held(s, SegmentOf(t, 1))]
  }

  /** Module, database, prefix, second, queue, code and data from the old ones of the next run. */
  function Rotated(a: seq<Index>): (r: seq<Index>)
    requires |a| == 7
    ensures |r| == 7
  {
    [a[1], a[3], a[2], a[5], a[0], a[6], a[4]]
  }

  predicate CodeAndData(program: Program) {
    program.dataSegment == 2 && program.segmentCount == 2
  }

  lemma TwoSegmentSlots(s: System, t: nat, program: Program)
    requires Sole(s, t, program) && CodeAndData(program)
    ensures SlotsByExit(s, t)
         == [QueueOf(t), SegmentOf(t, 1), ModuleOf(program.path), SegmentOf(t, 0), PrefixOf(t), SecondOf(t), DatabaseOf(t)]
  {
    hide IsLast, GivesBack, DatabaseGone, Held, WellHeld, HeldOnce;
    DatabaseGoes(s, t, program);
    assert OtherSlots(t, 2, 2) == [SegmentOf(t, 0)];
    assert DataSlots(t, s.tasks[t]) == [SegmentOf(t, 1)];
  }

  /** The place of the k-th request is given what the place k-th from the end had. */
  lemma AgainGives(s: System, t: nat, program: Program, k: nat, to: Slot, from: Slot)
    requires Sole(s, t, program) && CodeAndData(program) && k < 7
    requires AnswerAt(Exited(s, t), program, to) == Some(k) && to == AnswerSlot(Exited(s, t), program, k)
    requires from == [QueueOf(t), SegmentOf(t, 1), ModuleOf(program.path), SegmentOf(t, 0),
                      PrefixOf(t), SecondOf(t), DatabaseOf(t)][6 - k]
    ensures Held(Again(s, t, program), to) == Held(s, from)
  {
    hide Exited, Again, Held, AnswerSlot, SlotsByExit, Sole;
    TwoSegmentSlots(s, t, program);
    AgainHolds(s, t, program, k);
  }

  /**
   * With one code and one data segment, the module, task database, prefix,
   * second selector, queue, code and data take the old task database, second,
   * prefix, code, module, data and queue.
   */
  lemma AgainRotates(s: System, t: nat, program: Program)
    requires Sole(s, t, program) && CodeAndData(program)
    ensures Assignment(Again(s, t, program), |s.tasks|, program.path) == Rotated(Assignment(s, t, program.path))
  {
    hide Exited, Again, Held, Sole, SlotOf, AnswerCount;
    ExitedShape(s, t, program);
    var u := |s.tasks|;
    AgainGives(s, t, program, 0, ModuleOf(program.path), DatabaseOf(t));
    AgainGives(s, t, program, 1, DatabaseOf(u), SecondOf(t));
    AgainGives(s, t, program, 2, PrefixOf(u), PrefixOf(t));
    AgainGives(s, t, program, 3, SecondOf(u), SegmentOf(t, 0));
    AgainGives(s, t, program, 4, QueueOf(u), ModuleOf(program.path));
    AgainGives(s, t, program, 5, SegmentOf(u, 0), SegmentOf(t, 1));
    AgainGives(s, t, program, 6, SegmentOf(u, 1), QueueOf(t));
  }

  function RotatedTimes(a: seq<Index>, times: nat): (r: seq<Index>)
    requires |a| == 7
    ensures |r| == 7
  {
    if times == 0 then a else Rotated(RotatedTimes(a, times - 1))
  }

  lemma AgainKeepsFreeList(s: System, t: nat, program: Program)
    requires Sole(s, t, program)
    ensures Again(s, t, program).table.freed == s.table.freed
  {
    ReloadTakesBack(s, t, program);
    var task := StartShape(Exited(s, t), program, LoadAnswers(Exited(s, t), program));
  }

  /** A program's one instance, run so far with these selectors and this free list. */
  ghost predicate RunWith(s: System, t: nat, program: Program, assignment: seq<Index>, freed: seq<Index>) {
    Sole(s, t, program) && Assignment(s, t, program.path) == assignment && s.table.freed == freed
  }

  lemma AgainRunsWith(s: System, t: nat, program: Program, assignment: seq<Index>, freed: seq<Index>)
    requires |assignment| == 7 && RunWith(s, t, program, assignment, freed) && CodeAndData(program)
    ensures RunWith(Again(s, t, program), |s.tasks|, program, Rotated(assignment), freed)
  {
    AgainRotates(s, t, program);
    AgainIsSole(s, t, program);
    AgainKeepsFreeList(s, t, program);
  }

  lemma FirstRunsWith(s: System, t: nat, program: Program)
    requires Sole(s, t, program)
    ensures t < |s.tasks| && RunWith(s, t, program, Assignment(s, t, program.path), s.table.freed)
  {
  }

  lemma {:induction false} RunMoreRotates(s: System, t: nat, program: Program, times: nat)
    requires Sole(s, t, program) && CodeAndData(program)
    ensures RunWith(RunMore(s, t, program, times).0, RunMore(s, t, program, times).1, program,
                    RotatedTimes(Assignment(s, t, program.path), times), s.table.freed)
  {
    hide RunWith, Again, Sole, Assignment, Rotated;
    FirstRunsWith(s, t, program);
    if times > 0 {
      RunMoreRotates(s, t, program, times - 1);
      var before := RunMore(s, t, program, times - 1);
      AgainRunsWith(before.0, before.1, program,
                    RotatedTimes(Assignment(s, t, program.path), times - 1), s.table.freed);
    }
  }

  lemma {:induction false} SixTurnsRound(a: seq<Index>, times: nat)
    requires |a| == 7
    ensures RotatedTimes(a, times + 6) == RotatedTimes(a, times)
  {
    assert RotatedTimes(a, times + 1) == Rotated(RotatedTimes(a, times));
    assert RotatedTimes(a, times + 2) == Rotated(RotatedTimes(a, times + 1));
    assert RotatedTimes(a, times + 3) == Rotated(RotatedTimes(a, times + 2));
    assert RotatedTimes(a, times + 4) == Rotated(RotatedTimes(a, times + 3));
    assert RotatedTimes(a, times + 5) == Rotated(RotatedTimes(a, times + 4));
  }

  /** So the assignment repeats every six runs, whatever run it is counted from. */
  lemma AssignmentRepeats(s: System, t: nat, program: Program, times: nat)
    requires Sole(s, t, program) && CodeAndData(program)
    ensures var (r, u) := RunMore(s, t, program, times);
            var (r', u') := RunMore(s, t, program, times + 6);
            Assignment(r', u', program.path) == Assignment(r, u, program.path)
  {
    RunMoreRotates(s, t, program, times);
    RunMoreRotates(s, t, program, times + 6);
    SixTurnsRound(Assignment(s, t, program.path), times);
  }

  // ------------------------------------------------ runs from the system's start

  /** A program's selectors all found, as it is started with no handle and none of it running, make it its module's one instance. */
  lemma StartIsSole(s: System, program: Program)
    requires Consistent(s) && program.path !in s.handles && !Running(s.tasks, program.path)
    requires forall k :: 0 <= k < AnswerCount(s, program) ==> LoadAnswers(s, program).indices[k] >= 0
    ensures Sole(After(s, Launch(program)), |s.tasks|, program)
  {
    hide LoadAnswers, GivenByExit, HeldOnce, WellShaped, WellHeld, Installed, Running;
    var got := LoadAnswers(s, program);
    var r := After(s, Launch(program));
    AfterConsistent(s, Launch(program));
    var task := StartShape(s, program, got);
    NewDatabaseIsFirstAnswer(s, program);
    FirstInstanceTakesDatabase(s, program);
    StartedAloneIsLast(s, program.path, task);
    forall a | a == ModuleOf(program.path) || (!a.ModuleOf? && a.task == |s.tasks| && SlotOf(a, program))
      ensures Held(r, a) >= 0
    {
      var k := SlotIsAnswered(s, program, a);
      StartHolds(s, program, k);
    }
    assert Held(r, ModuleOf(program.path)) >= 0;
  }

  lemma StartedAloneIsLast(s: System, path: Path, task: Task)
    requires !Running(s.tasks, path) && task.path == path
    ensures !Running(Ended(s.tasks + [task], |s.tasks|), path)
  {
    var after := Ended(s.tasks + [task], |s.tasks|);
    forall k | 0 <= k < |after| ensures after[k].ended || Upper(after[k].path) != Upper(path) {
      assert k < |s.tasks| ==> after[k] == s.tasks[k];
    }
  }

  /** The events of a program run so many times more, its one instance being a task. */
  function Reruns(s: System, t: nat, program: Program, times: nat): seq<Event> {
    if times == 0 then []
    else Reruns(s, t, program, times - 1)
         + [Exit(if times == 1 then t else |s.tasks| + times - 2)] + [Launch(program)]
  }

  lemma {:induction false} RerunsAreARun(s: System, t: nat, program: Program, times: nat)
    requires t < |s.tasks|
    ensures var (r, u) := RunMore(s, t, program, times);
            && r == Run(s, Reruns(s, t, program, times))
            && |r.tasks| == |s.tasks| + times && u == if times == 0 then t else |s.tasks| + times - 1
  {
    hide After, Again;
    if times > 0 {
      RerunsAreARun(s, t, program, times - 1);
      var (before, u) := RunMore(s, t, program, times - 1);
      var events := Reruns(s, t, program, times - 1);
      AgainIsTwoEvents(before, u, program);
      assert (events + [Exit(u)])[..|events|] == events;
      assert (events + [Exit(u)] + [Launch(program)])[..|events| + 1] == events + [Exit(u)];
    }
  }

  lemma AgainIsTwoEvents(s: System, t: nat, program: Program)
    requires t < |s.tasks|
    ensures Again(s, t, program) == After(After(s, Exit(t)), Launch(program))
    ensures |Again(s, t, program).tasks| == |s.tasks| + 1
  {
  }

  lemma {:induction false} RunTogether(s: System, a: seq<Event>, b: seq<Event>)
    ensures Run(s, a + b) == Run(Run(s, a), b)
    decreases |b|
  {
    hide After;
    if b == [] {
      assert a + b == a;
    } else {
      assert (a + b)[..|a + b| - 1] == a + b[..|b| - 1];
      RunTogether(s, a, b[..|b| - 1]);
    }
  }

  /**
   * So in a run from the system's start, whatever came before: a program of
   * one code and one data segment, started alone and given every selector it
   * asks for, then run so often again, is assigned what it is six runs later.
   */
  lemma StartedRepeats(s: System, events: seq<Event>, program: Program, times: nat)
    requires Booted(s) && CodeAndData(program)
    requires program.path !in Run(s, events).handles && !Running(Run(s, events).tasks, program.path)
    requires forall k :: 0 <= k < AnswerCount(Run(s, events), program) ==> LoadAnswers(Run(s, events), program).indices[k] >= 0
    ensures var started := events + [Launch(program)];
            var t := |Run(s, events).tasks|;
            var u := t + times;
            && |Run(s, started).tasks| == t + 1
            && Assignment(Run(s, started + Reruns(Run(s, started), t, program, times)), u, program.path)
            == Assignment(Run(s, started + Reruns(Run(s, started), t, program, times + 6)), u + 6, program.path)
  {
    hide After, Again, Sole, Assignment, LoadAnswers, Running, Consistent, Booted, Reruns, RunMore, AnswerCount, CodeAndData;
    var before, started := Run(s, events), events + [Launch(program)];
    RunConsistent(s, events);
    assert started[..|events|] == events;
    StartIsSole(before, program);
    SoleRuns(Run(s, started), |before.tasks|, program);
    StartAddsOne(before, program);
    RerunsAreARun(Run(s, started), |before.tasks|, program, times);
    RerunsAreARun(Run(s, started), |before.tasks|, program, times + 6);
    RunTogether(s, started, Reruns(Run(s, started), |before.tasks|, program, times));
    RunTogether(s, started, Reruns(Run(s, started), |before.tasks|, program, times + 6));
    AssignmentRepeats(Run(s, started), |before.tasks|, program, times);
  }

  lemma StartAddsOne(s: System, program: Program)
    ensures |After(s, Launch(program)).tasks| == |s.tasks| + 1
  {
  }

  /** A system that keeps Program Manager, its database at a descriptor of its own, started. */
  const KEEPING: System := System(Table({0, 1}, []), [], map[], Some(15), {0, 1})

  /** Program Manager started, given its kept handle and ended twice: the second end gives selectors back. */
  lemma KeptEndedTwiceGivesBack(program: Program)
    ensures var once := [Launch(program), Keep(program.path), Exit(0)];
      Booted(KEEPING) && Run(KEEPING, once + [Exit(0)]) != Run(KEEPING, once)
  {
    hide After, Booted;
    var first, once := [Launch(program), Keep(program.path)], [Launch(program), Keep(program.path), Exit(0)];
    assert first + [Exit(0)] == once;
    RunTogether(KEEPING, first, [Exit(0)]);
    RunTogether(KEEPING, once, [Exit(0)]);
    RunOfTwo(KEEPING, Launch(program), Keep(program.path));
    RunOfOne(Run(KEEPING, first), Exit(0));
    RunOfOne(Run(KEEPING, once), Exit(0));
    KeptIsLast(program);
    EndedAgainExactly(Run(KEEPING, first), 0);
    ExitOf(Run(KEEPING, first), 0);
    ExitOf(Run(KEEPING, once), 0);
  }

  lemma ExitOf(s: System, t: nat)
    requires t < |s.tasks|
    ensures After(s, Exit(t)) == Exited(s, t) && |Exited(s, t).tasks| == |s.tasks|
  {
  }

  lemma KeptIsLast(program: Program)
    ensures var s := After(After(KEEPING, Launch(program)), Keep(program.path));
            Booted(KEEPING) && |s.tasks| == 1 && s.tasks[0].path == program.path && s.tasks[0].own.Some?
            && IsKept(s, program.path) && IsLast(s, 0)
  {
    hide LoadAnswers, Running;
    var task := StartShape(KEEPING, program, LoadAnswers(KEEPING, program));
    NothingRuns(program.path);
    StartedAloneIsLast(KEEPING, program.path, task);
  }

  lemma NothingRuns(path: Path)
    ensures !Running([], path)
  {
  }
}
