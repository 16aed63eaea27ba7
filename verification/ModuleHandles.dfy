/**
 * When a path has a module handle: exactly while an odd number of starts of
 * it have been made since it last had no instance running.
 */
module ModuleHandles {
  import opened Wrappers
  import opened SelectorAllocator
  import opened TaskLifecycle
  import opened SelectorConservation

  /** Whether a start has the selector it needs for a new module's database. */
  predicate FindsDatabase(s: System, program: Program) {
    program.path in s.handles || TakenIndex(s.table) >= 0
  }

  /**
   * An event as programs are found and started: a path always spelt alike, a
   * selector for each new module's database, and the path not the kept one's.
   */
  predicate PlainEvent(s: System, event: Event, path: Path) {
    match event
    case Launch(program) =>
      Upper(program.path) == Upper(path) ==> program.path == path && FindsDatabase(s, program)
    case Keep(kept) => Upper(kept) != Upper(path)
    case Exit(_) => true
  }

  predicate Plain(s: System, events: seq<Event>, path: Path) {
    events == []
    || (Plain(s, events[..|events| - 1], path)
        && PlainEvent(Run(s, events[..|events| - 1]), events[|events| - 1], path))
  }

  /** The starts of a path since it last had no instance running, an event later. */
  function StartsAfter(s: System, event: Event, starts: nat, path: Path): nat {
    if event.Launch? then if event.program.path == path then starts + 1 else starts
    else if Running(After(s, event).tasks, path) then starts
    else 0
  }

  /** How many starts of a path a run has made since it last had no instance running. */
  function StartsSinceNone(s: System, events: seq<Event>, path: Path): nat {
    if events == [] then 0
    else
      var before := events[..|events| - 1];
      StartsAfter(Run(s, before), events[|events| - 1], StartsSinceNone(s, before, path), path)
  }

  /** What the handle and the instances of a path have to do with each other. */
  ghost predicate Agrees(s: System, starts: nat, path: Path) {
    && (path in s.handles <==> starts % 2 == 1)
    && (Running(s.tasks, path) <==> starts > 0)
    && (path in s.handles ==> !IsKept(s, path))
    && forall t :: 0 <= t < |s.tasks| && Upper(s.tasks[t].path) == Upper(path) ==> s.tasks[t].path == path
  }

  lemma RunningWithOneMore(tasks: seq<Task>, task: Task, path: Path)
    ensures Running(tasks + [task], path)
       <==> Running(tasks, path) || (!task.ended && Upper(task.path) == Upper(path))
  {
    var all := tasks + [task];
    if !task.ended && Upper(task.path) == Upper(path) {
      assert all[|tasks|] == task;
    }
    if t :| 0 <= t < |tasks| && !tasks[t].ended && Upper(tasks[t].path) == Upper(path) {
      assert all[t] == tasks[t];
    }
  }

  lemma StartedTask(s: System, program: Program, got: Acquisition) returns (task: Task)
    requires |got.indices| == AnswerCount(s, program)
    ensures Prepared(Installed(s, program, got), |s.tasks|).tasks == s.tasks + [task]
    ensures task.path == program.path && !task.ended
  {
    task := Prepared(Installed(s, program, got), |s.tasks|).tasks[|s.tasks|];
  }

  /** A database taken for a module is not the kept one's. */
  lemma TakenIsNotKept(s: System)
    requires WellShaped(s) && TakenIndex(s.table) >= 0
    ensures s.kept != Some(Selector(TakenIndex(s.table)))
  {
  }

  lemma StartAgrees(s: System, r: System, task: Task, database: Index, starts: nat, path: Path)
    requires Agrees(s, starts, path)
    requires r.tasks == s.tasks + [task] && !task.ended && r.kept == s.kept
    requires r.handles == HandlesLoaded(s.handles, task.path, database)
    requires Upper(task.path) == Upper(path) ==> task.path == path
    requires task.path == path ==> (database >= 0 <==> path !in s.handles)
    requires database >= 0 ==> s.kept != Some(Selector(database))
    ensures Agrees(r, if task.path == path then starts + 1 else starts, path)
  {
    RunningWithOneMore(s.tasks, task, path);
  }

  lemma LaunchAgrees(s: System, program: Program, starts: nat, path: Path)
    requires Consistent(s) && Agrees(s, starts, path)
    requires Upper(program.path) == Upper(path) ==> program.path == path && FindsDatabase(s, program)
    ensures Agrees(After(s, Launch(program)), if program.path == path then starts + 1 else starts, path)
  {
    var got := LoadAnswers(s, program);
    var database := NO_SELECTOR;
    if program.path !in s.handles {
      NewDatabaseIsFirstAnswer(s, program);
      database := got.indices[0];
      if database >= 0 {
        TakenIsNotKept(s);
      }
    }
    StartedHandles(s, program, got);
    var task := StartedTask(s, program, got);
    StartAgrees(s, After(s, Launch(program)), task, database, starts, path);
  }

  lemma RunningButOne(tasks: seq<Task>, t: nat, path: Path)
    requires t < |tasks|
    ensures Running(Ended(tasks, t), path) ==> Running(tasks, path)
    ensures Upper(tasks[t].path) != Upper(path) ==> (Running(Ended(tasks, t), path) <==> Running(tasks, path))
  {
    var after := Ended(tasks, t);
    if k :| 0 <= k < |after| && !after[k].ended && Upper(after[k].path) == Upper(path) {
      assert after[k] == tasks[k];
    }
    if Upper(tasks[t].path) != Upper(path) {
      if k :| 0 <= k < |tasks| && !tasks[k].ended && Upper(tasks[k].path) == Upper(path) {
        assert after[k] == tasks[k];
      }
    }
  }

  /** Whether a task has its own selectors does not matter to whether it runs. */
  lemma RunningExited(s: System, t: nat, path: Path)
    requires t < |s.tasks|
    ensures Running(Exited(s, t).tasks, path) <==> Running(Ended(s.tasks, t), path)
  {
    var a, b := Exited(s, t).tasks, Ended(s.tasks, t);
    assert |a| == |b| && forall k :: 0 <= k < |a| ==> a[k].ended == b[k].ended && a[k].path == b[k].path;
  }

  lemma ExitAgrees(s: System, t: nat, starts: nat, path: Path)
    requires Agrees(s, starts, path)
    ensures Agrees(After(s, Exit(t)), if Running(After(s, Exit(t)).tasks, path) then starts else 0, path)
  {
    if t < |s.tasks| {
      var r := Exited(s, t);
      RunningExited(s, t, path);
      RunningButOne(s.tasks, t, path);
      assert forall k :: 0 <= k < |r.tasks| ==> r.tasks[k].path == s.tasks[k].path;
      if Upper(s.tasks[t].path) != Upper(path) {
        assert path in r.handles <==> path in s.handles;
      }
    }
  }

  lemma KeepAgrees(s: System, kept: Path, starts: nat, path: Path)
    requires Agrees(s, starts, path) && Upper(kept) != Upper(path)
    ensures Agrees(After(s, Keep(kept)), if Running(After(s, Keep(kept)).tasks, path) then starts else 0, path)
  {
  }

  /** One event more of a plain run. */
  lemma EventAgrees(s: System, event: Event, starts: nat, path: Path)
    requires Consistent(s) && Agrees(s, starts, path) && PlainEvent(s, event, path)
    ensures Agrees(After(s, event), StartsAfter(s, event, starts, path), path)
  {
    match event
    case Launch(program) => LaunchAgrees(s, program, starts, path);
    case Exit(t) => ExitAgrees(s, t, starts, path);
    case Keep(kept) => KeepAgrees(s, kept, starts, path);
  }

  /**
   * After every plain run, a path has a module handle exactly when an odd
   * number of starts of it were made since it last had no instance running.
   * So it never has one with none running.
   */
  lemma {:induction false} HandleIsOddStarts(s: System, events: seq<Event>, path: Path)
    requires Booted(s) && Plain(s, events, path)
    ensures Agrees(Run(s, events), StartsSinceNone(s, events, path), path)
  {
    if events == [] {
      assert !Running([], path);
    } else {
      var before := events[..|events| - 1];
      HandleIsOddStarts(s, before, path);
      RunConsistent(s, before);
      EventAgrees(Run(s, before), events[|events| - 1], StartsSinceNone(s, before, path), path);
    }
  }

  predicate HandleWhileRunning(s: System, path: Path) {
    path in s.handles <==> Running(s.tasks, path)
  }

  /** At every point of a run a path has a handle exactly while it has an instance running. */
  predicate AlwaysHandleWhileRunning(s: System, events: seq<Event>, path: Path) {
    (events != [] ==> AlwaysHandleWhileRunning(s, events[..|events| - 1], path))
    && HandleWhileRunning(Run(s, events), path)
  }

  /**
   * Whether a path keeps its handle just while it runs over an event, told
   * before it: it is started alone and a database is found; a path alike but
   * spelt otherwise is started while it runs, and ended leaving it running;
   * and it is given the kept handle only while it runs.
   */
  predicate KeepsHandle(s: System, event: Event, path: Path) {
    match event
    case Launch(program) =>
      if program.path == path then !Running(s.tasks, path) && TakenIndex(s.table) >= 0
      else Upper(program.path) == Upper(path) ==> Running(s.tasks, path)
    case Exit(t) =>
      t < |s.tasks| && s.tasks[t].path != path && Upper(s.tasks[t].path) == Upper(path) && path in s.handles ==>
        Running(Ended(s.tasks, t), path)
    case Keep(kept) => s.kept.Some? && kept == path ==> Running(s.tasks, path)
  }

  /** So it does over each event of a run, as it happens. */
  predicate AlwaysKeepsHandle(s: System, events: seq<Event>, path: Path) {
    events == []
    || (AlwaysKeepsHandle(s, events[..|events| - 1], path)
        && KeepsHandle(Run(s, events[..|events| - 1]), events[|events| - 1], path))
  }

  lemma StartKeepsHandleExactly(s: System, program: Program, path: Path)
    requires HandleWhileRunning(s, path)
    ensures HandleWhileRunning(After(s, Launch(program)), path) <==> KeepsHandle(s, Launch(program), path)
  {
    hide LoadAnswers, Running;
    var got := LoadAnswers(s, program);
    if program.path !in s.handles {
      NewDatabaseIsFirstAnswer(s, program);
    }
    StartedHandles(s, program, got);
    var task := StartedTask(s, program, got);
    RunningWithOneMore(s.tasks, task, path);
  }

  lemma ExitKeepsHandleExactly(s: System, t: nat, path: Path)
    requires HandleWhileRunning(s, path)
    ensures HandleWhileRunning(After(s, Exit(t)), path) <==> KeepsHandle(s, Exit(t), path)
  {
    hide Running, TableExited;
    if t < |s.tasks| {
      RunningExited(s, t, path);
      RunningButOne(s.tasks, t, path);
    }
  }

  /** One event: a path with a handle just while it runs stays so exactly where its condition is met. */
  lemma EventKeepsHandleExactly(s: System, event: Event, path: Path)
    requires HandleWhileRunning(s, path)
    ensures HandleWhileRunning(After(s, event), path) <==> KeepsHandle(s, event, path)
  {
    match event
    case Launch(program) => StartKeepsHandleExactly(s, program, path);
    case Exit(t) => ExitKeepsHandleExactly(s, t, path);
    case Keep(kept) =>
  }

  /**
   * Over every run from the system's start, of any programs, a path has a
   * handle exactly while an instance of it runs, at every point, if and only
   * if each event, as it happens, meets its condition.
   */
  lemma {:induction false} HandleWhileRunningExactly(s: System, events: seq<Event>, path: Path)
    requires Booted(s)
    ensures AlwaysHandleWhileRunning(s, events, path) <==> AlwaysKeepsHandle(s, events, path)
  {
    hide After, KeepsHandle, HandleWhileRunning;
    if events == [] {
      NothingRunsAtFirst(s, path);
    } else {
      var before := events[..|events| - 1];
      HandleWhileRunningExactly(s, before, path);
      if AlwaysHandleWhileRunning(s, before, path) {
        EventKeepsHandleExactly(Run(s, before), events[|events| - 1], path);
      }
    }
  }

  lemma NothingRunsAtFirst(s: System, path: Path)
    requires Booted(s)
    ensures HandleWhileRunning(s, path)
  {
  }

  /** Every start of a path is made with no instance of it running. */
  predicate OneAtATime(s: System, events: seq<Event>, path: Path) {
    events == []
    || (OneAtATime(s, events[..|events| - 1], path)
        && StartedAlone(Run(s, events[..|events| - 1]), events[|events| - 1], path))
  }

  predicate StartedAlone(s: System, event: Event, path: Path) {
    event.Launch? && event.program.path == path ==> !Running(s.tasks, path)
  }

  /** In a plain run the condition is that the path is never started while it runs. */
  lemma {:induction false} PlainlyOneAtATime(s: System, events: seq<Event>, path: Path)
    requires Booted(s) && Plain(s, events, path)
    ensures AlwaysKeepsHandle(s, events, path) <==> OneAtATime(s, events, path)
  {
    hide After, KeepsHandle, Running, HandleWhileRunning, PlainEvent, StartedAlone, Agrees;
    if events != [] {
      var before := events[..|events| - 1];
      PlainlyOneAtATime(s, before, path);
      if AlwaysKeepsHandle(s, before, path) {
        HandleWhileRunningExactly(s, before, path);
        HandleIsOddStarts(s, before, path);
        PlainEventStartedAlone(Run(s, before), events[|events| - 1], StartsSinceNone(s, before, path), path);
      }
    }
  }

  lemma PlainEventStartedAlone(s: System, event: Event, starts: nat, path: Path)
    requires HandleWhileRunning(s, path) && Agrees(s, starts, path) && PlainEvent(s, event, path)
    ensures KeepsHandle(s, event, path) <==> StartedAlone(s, event, path)
  {
    hide Running, TakenIndex;
  }

  // ---------------------------------------------------------------- two programs

  lemma RunOfThree(s: System, first: Event, second: Event, third: Event)
    ensures Run(s, [first, second, third]) == After(Run(s, [first, second]), third)
  {
    hide After;
    assert [first, second, third][..2] == [first, second];
  }

  /** Two programs started from boot, of paths not spelt alike, and what each start found. */
  lemma TwoStarted(s: System, one: Program, other: Program)
    requires Booted(s) && !SpeltAlike(one.path, other.path)
    requires TakenIndex(s.table) >= 0 && TakenIndex(After(s, Launch(one)).table) >= 0
    ensures var r := Run(s, [Launch(one), Launch(other)]);
      && |r.tasks| == 2 && r.tasks[0].path == one.path && r.tasks[1].path == other.path
      && r.tasks[0].own.Some? && !r.tasks[0].ended && !r.tasks[1].ended
      && |r.tasks[0].segments| == one.segmentCount && r.tasks[0].dataSegment == one.dataSegment
      && one.path in r.handles && r.handles[one.path] == Selector(TakenIndex(s.table)) && !IsKept(r, one.path)
      && other.path in r.handles && Consistent(r) && TakenIndex(s.table) >= 1
  {
    hide LoadAnswers, SpeltAlike, TakenIndex, HeldOnce, WellHeld, IsKept;
    assert Run(s, []) == s;
    RunConsistent(s, []);
    TakenIsPastFirst(s);
    RunConsistent(s, [Launch(one)]);
    RunConsistent(s, [Launch(one), Launch(other)]);
    RunOfOne(s, Launch(one));
    RunOfTwo(s, Launch(one), Launch(other));
    var first := After(s, Launch(one));
    DifferentPaths(one.path, other.path);
    FirstInstanceTakesDatabase(s, one);
    FirstInstanceTakesDatabase(first, other);
    var a := TaskStarted(s, one);
    var b := TaskStarted(first, other);
    NotTheKept(Run(s, [Launch(one), Launch(other)]), one.path, TakenIndex(s.table));
  }

  lemma TakenIsPastFirst(s: System)
    requires Consistent(s) && TakenIndex(s.table) >= 0
    ensures TakenIndex(s.table) >= 1
  {
    AskingIsFresh(s.table, Mapping);
  }

  lemma DifferentPaths(a: Path, b: Path)
    requires !SpeltAlike(a, b)
    ensures a != b
  {
  }

  lemma NotTheKept(s: System, path: Path, index: Index)
    requires WellShaped(s) && index >= 0 && index !in s.system && path in s.handles && s.handles[path] == Selector(index)
    ensures !IsKept(s, path)
  {
  }

  lemma TaskStarted(s: System, program: Program) returns (task: Task)
    ensures After(s, Launch(program)).tasks == s.tasks + [task]
    ensures After(s, Launch(program)).kept == s.kept && After(s, Launch(program)).system == s.system
    ensures task.path == program.path && !task.ended && task.own.Some?
    ensures task.dataSegment == program.dataSegment && |task.segments| == program.segmentCount
  {
    hide LoadAnswers;
    task := Prepared(Installed(s, program, LoadAnswers(s, program)), |s.tasks|).tasks[|s.tasks|];
  }

  lemma AllSegmentsReturned(task: Task, own: Own, database: Index)
    ensures var given := Returned(task, own, Some(database), true);
      && own.queue in given && own.prefix in given && own.second in given && own.database in given && database in given
      && forall k :: 0 <= k < |task.segments| ==> task.segments[k] in given
  {
    var given := Returned(task, own, Some(database), true);
    var module' := ModuleReturned(task, Some(database), true);
    assert given == [own.queue] + module' + [own.prefix, own.second, own.database];
    forall k | 0 <= k < |task.segments| ensures task.segments[k] in module' {
      OthersAreTheRest(task, task.segments[k]);
    }
  }

  /**
   * Two programs started from boot, of paths not spelt alike, and the first
   * ended alone: its handle is gone, its database and every selector it was
   * given are on the list, and the other's handle is what it was.
   */
  lemma OtherRunsOn(s: System, one: Program, other: Program)
    requires Booted(s) && !SpeltAlike(one.path, other.path)
    requires TakenIndex(s.table) >= 0 && TakenIndex(After(s, Launch(one)).table) >= 0
    ensures var before := Run(s, [Launch(one), Launch(other)]);
      var r := Run(s, [Launch(one), Launch(other), Exit(0)]);
      && one.path !in r.handles
      && other.path in before.handles && other.path in r.handles && r.handles[other.path] == before.handles[other.path]
      && |before.tasks| == 2 && before.tasks[0].own.Some?
      && var task, own := before.tasks[0], before.tasks[0].own.value;
         && TakenIndex(s.table) in r.table.freed
         && own.queue in r.table.freed && own.prefix in r.table.freed
         && own.second in r.table.freed && own.database in r.table.freed
         && |task.segments| == one.segmentCount && forall k :: 0 <= k < one.segmentCount ==> task.segments[k] in r.table.freed
  {
    hide Run, After, SpeltAlike, TakenIndex, Consistent, Booted, Returned, IsKept;
    TwoStarted(s, one, other);
    RunOfThree(s, Launch(one), Launch(other), Exit(0));
    EndedAlone(Run(s, [Launch(one), Launch(other)]), one.path, other.path, TakenIndex(s.table));
  }

  lemma EndedAlone(s: System, one: Path, other: Path, database: Index)
    requires |s.tasks| == 2 && s.tasks[0].path == one && s.tasks[1].path == other && !SpeltAlike(one, other)
    requires s.tasks[0].own.Some? && one in s.handles && !IsKept(s, one) && database >= 1
    requires s.handles[one] == Selector(database) && other in s.handles
    ensures var r := After(s, Exit(0));
      && one !in r.handles && other in r.handles && r.handles[other] == s.handles[other]
      && forall i: Index :: i in Returned(s.tasks[0], s.tasks[0].own.value, Some(database), true) ==> i in r.table.freed
    ensures var given, own := Returned(s.tasks[0], s.tasks[0].own.value, Some(database), true), s.tasks[0].own.value;
      && own.queue in given && own.prefix in given && own.second in given && own.database in given && database in given
      && forall k :: 0 <= k < |s.tasks[0].segments| ==> s.tasks[0].segments[k] in given
  {
    hide SpeltAlike, Returned, Upper, Running;
    DifferentPaths(one, other);
    RunningExactly(Ended(s.tasks, 0), one);
    AlikeTurned(one, other);
    AllSegmentsReturned(s.tasks[0], s.tasks[0].own.value, database);
  }

  lemma AlikeTurned(a: Path, b: Path)
    ensures SpeltAlike(a, b) <==> SpeltAlike(b, a)
  {
  }

  // ---------------------------------------------------------------- runs for which it fails

  /** A program started twice: it runs, and its path has no handle. */
  lemma TwoInstancesHaveNoHandle(program: Program)
    ensures var twice := [Launch(program), Launch(program)];
      && Booted(NEWLY_BOOTED)
      && Running(Run(NEWLY_BOOTED, twice).tasks, program.path)
      && program.path !in Run(NEWLY_BOOTED, twice).handles
  {
    hide After, KeepsHandle, TakenIndex;
    var one, two := Run(NEWLY_BOOTED, [Launch(program)]), Run(NEWLY_BOOTED, [Launch(program), Launch(program)]);
    RunOfTwo(NEWLY_BOOTED, Launch(program), Launch(program));
    StartedOnceHasHandle(program);
    StartedTwiceHasNone(one, program);
  }

  lemma StartedOnceHasHandle(program: Program)
    ensures var one := After(NEWLY_BOOTED, Launch(program));
            program.path in one.handles && Running(one.tasks, program.path)
  {
    hide LoadAnswers;
    assert TakenIndex(NEWLY_BOOTED.table) == 1;
    assert !Running([], program.path);
    StartKeepsHandleExactly(NEWLY_BOOTED, program, program.path);
    StartRuns(NEWLY_BOOTED, program);
  }

  lemma StartRuns(s: System, program: Program)
    ensures Running(After(s, Launch(program)).tasks, program.path)
  {
    hide LoadAnswers, Running;
    var task := StartedTask(s, program, LoadAnswers(s, program));
    RunningWithOneMore(s.tasks, task, program.path);
  }

  lemma StartedTwiceHasNone(s: System, program: Program)
    requires program.path in s.handles && Running(s.tasks, program.path)
    ensures var r := After(s, Launch(program));
            program.path !in r.handles && Running(r.tasks, program.path)
  {
    hide LoadAnswers, Running;
    StartedHandles(s, program, LoadAnswers(s, program));
    StartRuns(s, program);
  }

  /** A program started with every descriptor taken, and no handle: it runs, and its path has none. */
  lemma ExhaustedStartHasNoHandle(s: System, program: Program)
    requires program.path !in s.handles && TakenIndex(s.table) < 0
    ensures Running(After(s, Launch(program)).tasks, program.path)
    ensures program.path !in After(s, Launch(program)).handles
  {
    hide LoadAnswers, Running;
    NewDatabaseIsFirstAnswer(s, program);
    StartedHandles(s, program, LoadAnswers(s, program));
    StartRuns(s, program);
  }

  /**
   * A program started by two spellings of its path, and both ended in that
   * order: the first spelling has a handle still, and nothing runs.
   */
  lemma OtherSpellingKeepsHandle(one: Program, other: Program)
    requires one.path != other.path && Upper(one.path) == Upper(other.path)
    ensures var r := Run(NEWLY_BOOTED, [Launch(one), Launch(other), Exit(0), Exit(1)]);
            one.path in r.handles && !Running(r.tasks, one.path)
  {
    hide After, TakenIndex, Running, LoadAnswers;
    var events := [Launch(one), Launch(other), Exit(0), Exit(1)];
    assert events[..3] == [Launch(one), Launch(other), Exit(0)] && events[..3][..2] == [Launch(one), Launch(other)];
    RunOfTwo(NEWLY_BOOTED, Launch(one), Launch(other));
    StartedOnceHasHandle(one);
    var first := StartedIs(NEWLY_BOOTED, one);
    var s := After(NEWLY_BOOTED, Launch(one));
    var second := StartedIs(s, other);
    BothEnded(After(s, Launch(other)), one.path, other.path);
  }

  lemma StartedIs(s: System, program: Program) returns (task: Task)
    ensures After(s, Launch(program)).tasks == s.tasks + [task] && task.path == program.path && !task.ended
    ensures forall p :: p in s.handles && p != program.path ==> p in After(s, Launch(program)).handles
  {
    hide LoadAnswers, Running;
    task := StartedTask(s, program, LoadAnswers(s, program));
    StartedHandles(s, program, LoadAnswers(s, program));
  }

  lemma BothEnded(s: System, one: Path, other: Path)
    requires one != other && Upper(one) == Upper(other) && one in s.handles
    requires |s.tasks| == 2 && s.tasks[0].path == one && s.tasks[1].path == other && !s.tasks[1].ended
    ensures var r := After(After(s, Exit(0)), Exit(1));
            one in r.handles && !Running(r.tasks, one)
  {
    hide TableExited;
    assert Ended(s.tasks, 0)[1] == s.tasks[1];
    assert Running(Ended(s.tasks, 0), one);
  }
}
