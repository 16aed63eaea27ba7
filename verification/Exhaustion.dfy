/**
 * Loads that find too few descriptors: how many answers are -1, when a -1
 * comes to be on the list of those given back, and what it does there.
 */
module Exhaustion {
  import opened Wrappers
  import opened SelectorAllocator
  import opened TaskLifecycle
  import opened SelectorConservation
  import opened ReloadCycle
  import opened ModuleHandles

  /** The descriptors that can be found. */
  function Free(t: Table): set<Index> {
    set i: Index | 1 <= i && i !in t.used
  }

  /** A -1 among those given back. */
  ghost predicate ListsMinusOne(t: Table) {
    NO_SELECTOR in t.freed
  }

  /** A table without answers -1 exactly when it has no descriptor free, and one fewer is free after any other answer. */
  lemma AskedOfFree(t: Table, asking: Asking)
    requires Sound(t) && !ListsMinusOne(t)
    ensures TakenIndex(t) < 0 <==> Free(t) == {}
    ensures Free(AfterAsking(t, asking)) == Free(t) - {TakenIndex(t)}
    ensures TakenIndex(t) >= 0 ==> TakenIndex(t) in Free(t)
    ensures !ListsMinusOne(AfterAsking(t, asking))
  {
    AskingIsFresh(t, asking);
    TakeFailsExactly(t);
    var rest := Popped(t.used, t.freed);
    assert TakenIndex(t) >= 0 ==> TakenIndex(t) in Free(t);
  }

  /** Answers given so far from so many free: the first as many found, and the rest -1. */
  ghost predicate ServedFrom(free: nat, a: Acquisition) {
    && Sound(a.table) && !ListsMinusOne(a.table)
    && |Free(a.table)| == (if |a.indices| <= free then free - |a.indices| else 0)
    && forall k :: 0 <= k < |a.indices| ==> (a.indices[k] >= 0 <==> k < free)
  }

  lemma AskedIsServed(free: nat, a: Acquisition, asking: Asking)
    requires ServedFrom(free, a)
    ensures ServedFrom(free, Asked(a, asking))
  {
    hide TakenIndex, AfterAsking, Free, Sound, ListsMinusOne;
    AskingKeepsSound(a.table, asking);
    AskedOfFree(a.table, asking);
    var left := Free(a.table);
    assert |left| == 0 <==> left == {};
    if TakenIndex(a.table) >= 0 {
      assert |left - {TakenIndex(a.table)}| == |left| - 1;
    }
  }

  lemma AskingKeepsSound(t: Table, asking: Asking)
    requires Sound(t)
    ensures Sound(AfterAsking(t, asking))
  {
    AskingIsFresh(t, asking);
  }

  lemma {:induction false} AskedTimesIsServed(free: nat, a: Acquisition, count: nat)
    requires ServedFrom(free, a)
    ensures ServedFrom(free, AskedTimes(a, count))
  {
    hide ServedFrom;
    if count > 0 {
      AskedTimesIsServed(free, a, count - 1);
      AskedIsServed(free, AskedTimes(a, count - 1), Mapping);
    }
  }

  /** A load is answered with descriptors while there are any free, in the order it asks, and then with -1. */
  lemma LoadIsServedExactly(s: System, program: Program)
    requires Sound(s.table) && !ListsMinusOne(s.table)
    ensures ServedFrom(|Free(s.table)|, LoadAnswers(s, program))
    ensures forall k :: 0 <= k < AnswerCount(s, program) ==>
      (LoadAnswers(s, program).indices[k] >= 0 <==> k < |Free(s.table)|)
  {
    hide Asked, Sound, ListsMinusOne, Free, AskedTimes;
    var free := |Free(s.table)|;
    var none := Acquisition([], s.table);
    assert ServedFrom(free, none);
    AskedIsServed(free, none, Mapping);
    var so := if program.path in s.handles then none else Asked(none, Mapping);
    AskedIsServed(free, so, Reserving);
    AskedIsServed(free, Asked(so, Reserving), Mapping);
    AskedIsServed(free, Asked(Asked(so, Reserving), Mapping), Reserving);
    AskedIsServed(free, Asked(Asked(Asked(so, Reserving), Mapping), Reserving), Reserving);
    AskedTimesIsServed(free, OwnAsked(so), program.segmentCount);
  }

  /** A program started alone is its module's one instance, every selector of it a real one, exactly when it finds enough. */
  lemma StartIsSoleExactly(s: System, program: Program)
    requires Consistent(s) && !ListsMinusOne(s.table) && program.path !in s.handles && !Running(s.tasks, program.path)
    ensures Sole(After(s, Launch(program)), |s.tasks|, program) <==> AnswerCount(s, program) <= |Free(s.table)|
  {
    hide After, LoadAnswers, Free, HeldOnce, WellHeld, Running, AnswerSlot, AnswerAt, Held;
    LoadIsServedExactly(s, program);
    if AnswerCount(s, program) <= |Free(s.table)| {
      StartIsSole(s, program);
    } else {
      var last := AnswerCount(s, program) - 1;
      StartHolds(s, program, last);
      AnswerSlotIsOwn(s, program, last);
      AfterIsLaunched(s, program);
    }
  }

  lemma AfterIsLaunched(s: System, program: Program)
    ensures After(s, Launch(program)) == Launched(s, program)
  {
  }

  lemma AnswerSlotIsOwn(s: System, program: Program, k: nat)
    requires k < AnswerCount(s, program)
    ensures var a := AnswerSlot(s, program, k);
            a == ModuleOf(program.path) || (!a.ModuleOf? && a.task == |s.tasks| && SlotOf(a, program))
  {
  }

  // ---------------------------------------------------------------- every run

  /** Whether an end gives back no -1: none among the task's own, nor as its data, nor among the rest where all go. */
  predicate GivesBackWhole(s: System, t: nat)
    requires t < |s.tasks| && s.tasks[t].own.Some?
  {
    var task, own := s.tasks[t], s.tasks[t].own.value;
    && own.database >= 0 && own.prefix >= 0 && own.second >= 0 && own.queue >= 0
    && forall k :: 0 <= k < |task.segments| && (k + 1 == task.dataSegment || IsLast(s, t)) ==> task.segments[k] >= 0
  }

  /** Whether an event puts no -1 on the list, told before it. */
  predicate GivesNoMinusOne(s: System, event: Event) {
    event.Exit? && event.task < |s.tasks| && GivesBack(s, event.task) ==> GivesBackWhole(s, event.task)
  }

  lemma SegmentsGivenBack(task: Task, whole: bool)
    ensures NO_SELECTOR in DataPart(task) + (if whole then Others(task.segments, task.dataSegment) else []) <==>
      exists k :: 0 <= k < |task.segments| && (k + 1 == task.dataSegment || whole) && task.segments[k] == NO_SELECTOR
  {
    OthersAreTheRest(task, NO_SELECTOR);
  }

  lemma MinusOneGivenBack(s: System, t: nat)
    requires t < |s.tasks| && GivesBack(s, t)
    ensures NO_SELECTOR in GivenByExit(s, t) <==> !GivesBackWhole(s, t)
  {
    hide Others, DataPart, IsLast;
    var task := s.tasks[t];
    SegmentsGivenBack(task, IsLast(s, t));
    DatabaseGoneIsReal(s, t);
  }

  lemma DatabaseGoneIsReal(s: System, t: nat)
    requires t < |s.tasks|
    ensures NO_SELECTOR !in DatabasePart(DatabaseGone(s, t))
  {
  }

  lemma EventGivesMinusOneExactly(s: System, event: Event)
    requires Consistent(s) && !ListsMinusOne(s.table)
    ensures ListsMinusOne(After(s, event).table) <==> !GivesNoMinusOne(s, event)
  {
    match event
    case Launch(program) => StartGivesNoMinusOne(s, program);
    case Exit(t) =>
      if t < |s.tasks| {
        ExitGivesMinusOneExactly(s, t);
      }
    case Keep(_) =>
  }

  lemma StartGivesNoMinusOne(s: System, program: Program)
    requires Consistent(s) && !ListsMinusOne(s.table)
    ensures !ListsMinusOne(After(s, Launch(program)).table)
  {
    hide LoadAnswers, Free, HeldOnce, Held;
    LoadIsServedExactly(s, program);
    var task := StartShape(s, program, LoadAnswers(s, program));
  }

  lemma ExitGivesMinusOneExactly(s: System, t: nat)
    requires t < |s.tasks| && !ListsMinusOne(s.table)
    ensures ListsMinusOne(Exited(s, t).table) <==> GivesBack(s, t) && !GivesBackWhole(s, t)
  {
    hide Exited, Returned, GivesBackWhole;
    TableAfterExit(s, t);
    if GivesBack(s, t) {
      MinusOneGivenBack(s, t);
    }
  }

  /** At no point of a run is a -1 on the list. */
  ghost predicate NeverListsMinusOne(s: System, events: seq<Event>) {
    (events != [] ==> NeverListsMinusOne(s, events[..|events| - 1])) && !ListsMinusOne(Run(s, events).table)
  }

  /** No event of a run puts a -1 back, each judged as it happens. */
  predicate AlwaysGivesNoMinusOne(s: System, events: seq<Event>) {
    events == []
    || (AlwaysGivesNoMinusOne(s, events[..|events| - 1])
        && GivesNoMinusOne(Run(s, events[..|events| - 1]), events[|events| - 1]))
  }

  /** Over a run from the system's start a -1 comes to be on the list exactly when a task ends that was given one, and gives it back. */
  lemma {:induction false} NeverListsMinusOneExactly(s: System, events: seq<Event>)
    requires Booted(s)
    ensures NeverListsMinusOne(s, events) <==> AlwaysGivesNoMinusOne(s, events)
  {
    hide After, GivesNoMinusOne, Consistent, ListsMinusOne;
    if events == [] {
      BootedListsNoMinusOne(s);
    } else {
      var before := events[..|events| - 1];
      NeverListsMinusOneExactly(s, before);
      RunConsistent(s, before);
      if NeverListsMinusOne(s, before) {
        EventGivesMinusOneExactly(Run(s, before), events[|events| - 1]);
      }
    }
  }

  lemma BootedListsNoMinusOne(s: System)
    requires Booted(s)
    ensures !ListsMinusOne(s.table)
  {
  }

  /** Whether a start finds every descriptor it asks for. */
  predicate FindsEnough(s: System, event: Event) {
    event.Launch? ==> AnswerCount(s, event.program) <= |Free(s.table)|
  }

  predicate AlwaysFindsEnough(s: System, events: seq<Event>) {
    events == []
    || (AlwaysFindsEnough(s, events[..|events| - 1])
        && FindsEnough(Run(s, events[..|events| - 1]), events[|events| - 1]))
  }

  /** A task's own selectors and its segments, all found. */
  predicate IsWhole(task: Task) {
    && (task.own.Some? ==>
          var own := task.own.value;
          own.database >= 0 && own.prefix >= 0 && own.second >= 0 && own.queue >= 0)
    && forall k :: 0 <= k < |task.segments| ==> task.segments[k] >= 0
  }

  predicate AreWhole(tasks: seq<Task>) {
    forall t :: 0 <= t < |tasks| ==> IsWhole(tasks[t])
  }

  lemma EventKeepsWhole(s: System, event: Event)
    requires Sound(s.table) && !ListsMinusOne(s.table) && AreWhole(s.tasks) && FindsEnough(s, event)
    ensures AreWhole(After(s, event).tasks) && GivesNoMinusOne(s, event)
  {
    hide Free, Sound, ListsMinusOne, LoadAnswers, TableExited, IsLast;
    match event
    case Launch(program) => LoadIsServedExactly(s, program);
    case _ =>
  }

  /** So while every start finds enough no -1 is ever given back, and the list never has one. */
  lemma {:induction false} EnoughListsNoMinusOne(s: System, events: seq<Event>)
    requires Booted(s) && AlwaysFindsEnough(s, events)
    ensures NeverListsMinusOne(s, events) && AreWhole(Run(s, events).tasks)
  {
    hide After, GivesNoMinusOne, FindsEnough, HeldOnce, WellHeld, ListsMinusOne, IsWhole;
    NeverListsMinusOneExactly(s, events);
    if events != [] {
      var before := events[..|events| - 1];
      EnoughListsNoMinusOne(s, before);
      NeverListsMinusOneExactly(s, before);
      RunConsistent(s, before);
      EventKeepsWhole(Run(s, before), events[|events| - 1]);
    }
  }

  // ---------------------------------------------------------------- loads that ask for more than is free

  /** A request that would be answered -1 though there are descriptors free. */
  predicate IsStuck(t: Table) {
    TakenIndex(t) == NO_SELECTOR && Free(t) != {}
  }

  /** The table so many requests later. */
  function AfterRequests(t: Table, count: nat): Table {
    AskedTimes(Acquisition([], t), count).table
  }

  /** How many of those given back last are selectors, up to the latest -1. */
  function RealsOnTop(freed: seq<Index>): (count: nat)
    ensures count <= |freed|
    ensures forall k :: |freed| - count <= k < |freed| ==> freed[k] >= 0
    ensures count < |freed| ==> freed[|freed| - 1 - count] == NO_SELECTOR
  {
    if freed == [] || freed[|freed| - 1] < 0 then 0 else 1 + RealsOnTop(freed[..|freed| - 1])
  }

  /** Requests that take the selectors on top leave the rest of the list, and mark just those. */
  lemma {:induction false} TopTaken(t: Table, count: nat)
    requires FreeOnTop(t, count)
    ensures var r := AfterRequests(t, count);
      && r.freed == t.freed[..|t.freed| - count]
      && forall i: Index :: i in r.used <==> i in t.used || exists k :: |t.freed| - count <= k < |t.freed| && t.freed[k] == i
  {
    hide TakenIndex, AfterAsking;
    if count > 0 {
      TopTaken(t, count - 1);
      TopIsTaken(AfterRequests(t, count - 1), Mapping);
    }
  }

  /** A list with a -1 on it above a free selector comes, some requests later, to answer the -1. */
  lemma BuriedIsStuck(t: Table, buried: nat, minusOne: nat)
    requires Distinct(t.freed) && buried < minusOne < |t.freed| && t.freed[minusOne] == NO_SELECTOR
    requires forall k :: 0 <= k < |t.freed| ==> t.freed[k] !in t.used
    requires t.freed[buried] >= 1
    ensures IsStuck(AfterRequests(t, RealsOnTop(t.freed)))
  {
    hide Free;
    var count := RealsOnTop(t.freed);
    var r := AfterRequests(t, count);
    TopTaken(t, count);
    assert r.freed[|r.freed| - 1] == NO_SELECTOR;
    assert t.freed[buried] !in r.used;
    LatestIsAnswered(r);
    FreeHolds(r, t.freed[buried]);
  }

  lemma LatestIsAnswered(t: Table)
    requires t.freed != [] && t.freed[|t.freed| - 1] !in t.used
    ensures TakenIndex(t) == t.freed[|t.freed| - 1]
  {
  }

  lemma FreeHolds(t: Table, i: Index)
    requires i >= 1 && i !in t.used
    ensures i in Free(t)
  {
  }

  /** Whether a program has a segment and its last is not its data segment. */
  predicate EndsInCode(program: Program) {
    1 <= program.segmentCount != program.dataSegment
  }

  /**
   * Started in any system just started, a program that ends in a segment of
   * code and asks for more than is free, where anything is, leaves at its end
   * a list on which, some requests later, a -1 is answered and descriptors
   * are free.
   */
  lemma ShortLoadDoesNotRecover(s: System, program: Program)
    requires Booted(s) && EndsInCode(program) && 0 < |Free(s.table)| < AnswerCount(s, program)
    ensures var t := Run(s, [Launch(program), Exit(0)]).table;
      ListsMinusOne(t) && IsStuck(AfterRequests(t, RealsOnTop(t.freed)))
  {
    hide After, Booted, Free, IsStuck, LoadAnswers, Consistent, AfterRequests;
    RunConsistent(s, []);
    RunOfTwo(s, Launch(program), Exit(0));
    RunOfOne(s, Launch(program));
    RunConsistent(s, [Launch(program)]);
    ShortStart(s, program);
    var one := After(s, Launch(program));
    ShortEnd(one, program);
    ExitOf(one, 0);
  }

  /** A system's one task, ended as its module's last: its database found, its last segment not, and nothing given back before. */
  predicate IsShort(s: System, program: Program) {
    && |s.tasks| == 1 && s.table.freed == []
    && GivesBack(s, 0) && IsLast(s, 0) && DatabaseGone(s, 0).Some?
    && s.tasks[0].dataSegment == program.dataSegment && |s.tasks[0].segments| == program.segmentCount
    && EndsInCode(program) && s.tasks[0].segments[program.segmentCount - 1] == NO_SELECTOR
  }

  lemma ShortStart(s: System, program: Program)
    requires Booted(s) && EndsInCode(program) && 0 < |Free(s.table)| < AnswerCount(s, program)
    ensures IsShort(After(s, Launch(program)), program)
  {
    hide LoadAnswers, Free, HeldOnce, WellHeld, Consistent, Running;
    assert Run(s, []) == s;
    RunConsistent(s, []);
    ConsistentIsSound(s);
    BootedListsNoMinusOne(s);
    var got := LoadAnswers(s, program);
    LoadIsServedExactly(s, program);
    LoadAnswersFresh(s, program);
    NewDatabaseIsFirstAnswer(s, program);
    FirstInstanceTakesDatabase(s, program);
    NextIsUnheld(s);
    var task := StartShape(s, program, got);
    NothingRuns(program.path);
    StartedAloneIsLast(s, program.path, task);
    LastSegmentIsLastAnswer(s, program, got);
  }

  lemma ConsistentIsSound(s: System)
    requires Consistent(s)
    ensures Sound(s.table)
  {
  }

  lemma LastSegmentIsLastAnswer(s: System, program: Program, got: Acquisition)
    requires |got.indices| == AnswerCount(s, program) && program.segmentCount >= 1
    ensures var tasks := Prepared(Installed(s, program, got), |s.tasks|).tasks;
      |tasks[|s.tasks|].segments| == program.segmentCount
      && tasks[|s.tasks|].segments[program.segmentCount - 1] == got.indices[|got.indices| - 1]
  {
  }

  lemma ShortEnd(s: System, program: Program)
    requires Consistent(s) && IsShort(s, program)
    ensures var t := Exited(s, 0).table;
      ListsMinusOne(t) && IsStuck(AfterRequests(t, RealsOnTop(t.freed)))
  {
    hide Consistent, Returned, IsStuck, AfterRequests, RealsOnTop, Distinct, IsShort, GivenByExit, Exited;
    ShortGives(s, program);
    GivenAreFree(s, 0);
    GivenAreApart(s, 0);
    var given := GivenByExit(s, 0);
    var buried := DatabaseUnderSegment(s.tasks[0], s.tasks[0].own.value, DatabaseGone(s, 0).value);
    BuriedIsStuck(Exited(s, 0).table, buried, |given| - 4);
  }

  lemma ShortGives(s: System, program: Program)
    requires IsShort(s, program)
    ensures |s.tasks| == 1 && s.table.freed == [] && GivesBack(s, 0) && DatabaseGone(s, 0).Some? && DatabaseGone(s, 0).value >= 1
    ensures var task := s.tasks[0];
      && GivenByExit(s, 0) == Returned(task, task.own.value, DatabaseGone(s, 0), true)
      && task.segments != [] && task.dataSegment != |task.segments| && task.segments[|task.segments| - 1] == NO_SELECTOR
  {
    hide Returned, Running;
  }

  lemma GivenAreFree(s: System, t: nat)
    requires t < |s.tasks| && GivesBack(s, t) && s.table.freed == []
    ensures var r := Exited(s, t).table;
      r.freed == GivenByExit(s, t) && forall k :: 0 <= k < |r.freed| ==> r.freed[k] !in r.used
  {
    hide Returned;
  }

  /** Of what an end gives back the database comes before the last of the other segments, fourth from the end. */
  lemma DatabaseUnderSegment(task: Task, own: Own, database: Index) returns (at: nat)
    requires task.segments != [] && task.dataSegment != |task.segments|
    ensures var given := Returned(task, own, Some(database), true);
      at < |given| - 4 && given[at] == database && given[|given| - 4] == task.segments[|task.segments| - 1]
  {
    at := 1 + |DataPart(task)|;
    var others := Others(task.segments, task.dataSegment);
    assert others != [] && others[|others| - 1] == task.segments[|task.segments| - 1];
  }

  // ---------------------------------------------------------------- from a system that has nothing taken

  /** A program of a segment for every descriptor but one. */
  function Largest(path: Path): Program {
    Program(path, 0, SELECTORS - 2)
  }

  /** Started and ended in a system newly booted, it leaves a list that comes to answer -1 with descriptors free. */
  lemma LargestDoesNotRecover(path: Path)
    ensures var t := Run(NEWLY_BOOTED, [Launch(Largest(path)), Exit(0)]).table;
      ListsMinusOne(t) && IsStuck(AfterRequests(t, RealsOnTop(t.freed)))
  {
    hide Run, Free, IsStuck, AfterRequests;
    NewlyBootedIsFree();
    ShortLoadDoesNotRecover(NEWLY_BOOTED, Largest(path));
  }

  /** While it runs, another program started has no handle. */
  lemma LargestLeavesNoHandle(path: Path, other: Program)
    requires other.path != path
    ensures var r := Run(NEWLY_BOOTED, [Launch(Largest(path)), Launch(other)]);
      Running(r.tasks, other.path) && other.path !in r.handles
  {
    hide After, Free, Running;
    NewlyBootedIsFree();
    RunOfTwo(NEWLY_BOOTED, Launch(Largest(path)), Launch(other));
    TakesAll(NEWLY_BOOTED, Largest(path));
    ExhaustedStartHasNoHandle(After(NEWLY_BOOTED, Launch(Largest(path))), other);
  }

  lemma TakesAll(s: System, program: Program)
    requires Booted(s) && |Free(s.table)| < AnswerCount(s, program)
    ensures var r := After(s, Launch(program));
      TakenIndex(r.table) < 0 && forall p :: p in r.handles ==> p == program.path
  {
    hide LoadAnswers, Free, Consistent, TakenIndex;
    assert Run(s, []) == s;
    RunConsistent(s, []);
    ConsistentIsSound(s);
    BootedListsNoMinusOne(s);
    var got := LoadAnswers(s, program);
    LoadIsServedExactly(s, program);
    StartedHandles(s, program, got);
    var task := StartShape(s, program, got);
    NoneFreeMarked(got.table, FirstFree(got.table.used, 1));
  }

  lemma NoneFreeMarked(t: Table, index: Index)
    requires Sound(t) && !ListsMinusOne(t) && |Free(t)| == 0
    ensures TakenIndex(Mark(t, index)) < 0
  {
    assert Free(t) == {} && Free(Mark(t, index)) == {};
    AskedOfFree(Mark(t, index), Mapping);
  }

  lemma NewlyBootedIsFree()
    ensures Booted(NEWLY_BOOTED) && |Free(NEWLY_BOOTED.table)| == SELECTORS - 1
    ensures forall path :: AnswerCount(NEWLY_BOOTED, Largest(path)) == SELECTORS + 3
  {
    hide Below;
    assert Free(NEWLY_BOOTED.table) == Below(SELECTORS);
  }

  /** The descriptors below a place but the first. */
  function Below(n: nat): (indices: set<Index>)
    requires 1 <= n <= SELECTORS
    ensures |indices| == n - 1 && forall i: Index :: i in indices <==> 1 <= i < n
  {
    if n == 1 then {} else Below(n - 1) + {n - 1}
  }
}
