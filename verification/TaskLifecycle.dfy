/**
 * Programs loaded, prepared and ended (src/win16.ts), and the selectors and
 * module handles they are given and give back. Value forms of each operation
 * first, then the class whose methods change the state step by step.
 */
module TaskLifecycle {
  import opened Wrappers
  import opened SelectorAllocator

  type Path = string

  /** A module's handle: its database's selector. */
  type Handle = h: int | 0 <= h < 8 * SELECTORS

  /** A path as paths are compared for a program already running: without regard to case. */
  function Upper(path: Path): Path {
    seq(|path|, k requires 0 <= k < |path| => if 'a' <= path[k] <= 'z' then path[k] - 'a' + 'A' else path[k])
  }

  /** A program's file: its data segment's number, from 1 and 0 for none, and how many segments it has. */
  datatype Program = Program(path: Path, dataSegment: nat, segmentCount: nat)

  /** The selectors a task is given for itself (`task.own`). */
  datatype Own = Own(database: Index, prefix: Index, second: Index, queue: Index)

  datatype Task = Task(
    path: Path,
    own: Option<Own>,
    dataSegment: nat,
    segments: seq<Index>,
    environment: Option<Index>,
    ended: bool)

  /**
   * The system's tasks by handle, its modules' handles by path, the handle of
   * the Program Manager it keeps, and the descriptors that are its own.
   */
  datatype System = System(
    table: Table,
    tasks: seq<Task>,
    handles: map<Path, Handle>,
    kept: Option<Handle>,
    system: set<Index>)

  /** A descriptor's selector in the local table, at a program's privilege (src/win16/selectors.ts). */
  function Selector(index: Index): Handle
    requires index >= 0
  {
    8 * index + 7
  }

  /** Whether something runs from a path (`previousInstance`). */
  predicate Running(tasks: seq<Task>, path: Path) {
    exists t :: 0 <= t < |tasks| && !tasks[t].ended && Upper(tasks[t].path) == Upper(path)
  }

  /** One character, or the two cases of one letter. */
  predicate SameLetter(x: char, y: char) {
    || x == y
    || ('A' <= x <= 'Z' && y as int == x as int + 32)
    || ('A' <= y <= 'Z' && x as int == y as int + 32)
  }

  /** Two paths of one length, letter by letter the same but for case. */
  predicate SpeltAlike(a: Path, b: Path) {
    |a| == |b| && forall k :: 0 <= k < |a| ==> SameLetter(a[k], b[k])
  }

  lemma UpperAlike(a: Path, b: Path)
    ensures Upper(a) == Upper(b) <==> SpeltAlike(a, b)
  {
    assert |Upper(a)| == |a| && |Upper(b)| == |b|;
    if SpeltAlike(a, b) {
      forall k | 0 <= k < |a| ensures Upper(a)[k] == Upper(b)[k] {
        assert SameLetter(a[k], b[k]);
      }
    } else if |a| == |b| {
      var k :| 0 <= k < |a| && !SameLetter(a[k], b[k]);
      assert Upper(a)[k] != Upper(b)[k];
    }
  }

  /** A path runs exactly while some task that has not ended is of a path spelt alike. */
  lemma RunningExactly(tasks: seq<Task>, path: Path)
    ensures Running(tasks, path) <==> exists t :: 0 <= t < |tasks| && !tasks[t].ended && SpeltAlike(tasks[t].path, path)
  {
    hide Upper, SpeltAlike;
    forall t | 0 <= t < |tasks| ensures Upper(tasks[t].path) == Upper(path) <==> SpeltAlike(tasks[t].path, path) {
      UpperAlike(tasks[t].path, path);
    }
  }

  // ---------------------------------------------------------------- loading

  /** The four requests a task makes for itself, in order. */
  function OwnAsked(a: Acquisition): (r: Acquisition)
    ensures |r.indices| == |a.indices| + 4 && a.indices <= r.indices
  {
    Asked(Asked(Asked(Asked(a, Reserving), Mapping), Reserving), Reserving)
  }

  /** What a load is answered: a new module's database, the task's own four, and its segments. */
  function LoadAnswers(s: System, program: Program): (r: Acquisition)
    ensures |r.indices| == AnswerCount(s, program)
  {
    var none := Acquisition([], s.table);
    AskedTimes(OwnAsked(if program.path in s.handles then none else Asked(none, Mapping)), program.segmentCount)
  }

  /** The task a load makes from the selectors it was answered, its own from `first`. */
  function TaskOf(program: Program, got: seq<Index>, first: nat): Task
    requires first + 4 <= |got|
  {
    Task(program.path, Some(Own(got[first], got[first + 1], got[first + 2], got[first + 3])),
         program.dataSegment, got[first + 4..], None, false)
  }

  /**
   * The handles after a load: registering the loader puts no handle in the
   * path's place, and only a database made just now is put there again.
   */
  function HandlesLoaded(handles: map<Path, Handle>, path: Path, database: Index): map<Path, Handle> {
    var registered := handles - {path};
    if database >= 0 then registered[path := Selector(database)] else registered
  }

  /** How many answers a load is given. */
  function AnswerCount(s: System, program: Program): nat {
    (if program.path in s.handles then 4 else 5) + program.segmentCount
  }

  /** The state a load leaves, from its answers. */
  function Installed(s: System, program: Program, got: Acquisition): (r: System)
    requires |got.indices| == AnswerCount(s, program)
  {
    var isNew := program.path !in s.handles;
    s.(table := got.table,
       tasks := s.tasks + [TaskOf(program, got.indices, if isNew then 1 else 0)],
       handles := HandlesLoaded(s.handles, program.path, if isNew then got.indices[0] else NO_SELECTOR))
  }

  function Loaded(s: System, program: Program): (r: System) {
    Installed(s, program, LoadAnswers(s, program))
  }

  /** Its environment: the first descriptor found, whatever was given back. */
  function Prepared(s: System, t: nat): (r: System)
    requires t < |s.tasks|
  {
    var environment := FirstFree(s.table.used, 1);
    s.(table := Mark(s.table, environment),
       tasks := s.tasks[t := s.tasks[t].(environment := Some(environment))])
  }

  /** A program loaded and set going. */
  function Launched(s: System, program: Program): (r: System) {
    Prepared(Loaded(s, program), |s.tasks|)
  }

  // ---------------------------------------------------------------- ending

  predicate HasData(task: Task) {
    1 <= task.dataSegment <= |task.segments|
  }

  /** Segments but the data segment, in their order. */
  function Others(segments: seq<Index>, dataSegment: nat): seq<Index> {
    if 1 <= dataSegment <= |segments| then segments[..dataSegment - 1] + segments[dataSegment..]
    else segments
  }

  function DataPart(task: Task): seq<Index> {
    if HasData(task) then [task.segments[task.dataSegment - 1]] else []
  }

  function DatabasePart(database: Option<Index>): seq<Index> {
    match database
    case Some(index) => [index]
    case None => []
  }

  /** `freeModuleSegments`: the data segment, the database where it goes, and the rest where `whole`. */
  function ModuleReturned(task: Task, database: Option<Index>, whole: bool): seq<Index> {
    DataPart(task) + DatabasePart(database) + (if whole then Others(task.segments, task.dataSegment) else [])
  }

  /** Everything a task ending gives back, in order. */
  function Returned(task: Task, own: Own, database: Option<Index>, whole: bool): seq<Index> {
    [own.queue] + ModuleReturned(task, database, whole) + [own.prefix, own.second, own.database]
  }

  function Ended(tasks: seq<Task>, t: nat): (r: seq<Task>)
    requires t < |tasks|
  {
    tasks[t := tasks[t].(ended := true)]
  }

  /** Whether a task's module has a handle and this was its last instance. */
  predicate IsLast(s: System, t: nat)
    requires t < |s.tasks|
  {
    s.tasks[t].path in s.handles && !Running(Ended(s.tasks, t), s.tasks[t].path)
  }

  predicate IsKept(s: System, path: Path) {
    path in s.handles && s.kept == Some(s.handles[path])
  }

  /** The index of the database that goes with a module's last instance. */
  function DatabaseGone(s: System, t: nat): (r: Option<Index>)
    requires t < |s.tasks|
  {
    if IsLast(s, t) && !IsKept(s, s.tasks[t].path) && s.handles[s.tasks[t].path] / 8 > 0
    then Some(s.handles[s.tasks[t].path] / 8) else None
  }

  function TableExited(s: System, t: nat): (r: Table)
    requires t < |s.tasks|
  {
    var task := s.tasks[t];
    if task.own.None? || IsKept(s, task.path) then s.table
    else
      var given := Given(s.table, Returned(task, task.own.value, DatabaseGone(s, t), IsLast(s, t)));
      match task.environment
      case Some(index) => Released(given, index)
      case None => given
  }

  function Exited(s: System, t: nat): (r: System)
    requires t < |s.tasks|
  {
    var task := s.tasks[t];
    s.(table := TableExited(s, t),
       tasks := s.tasks[t := task.(ended := true, own := if IsKept(s, task.path) then task.own else None)],
       handles := if IsLast(s, t) then s.handles - {task.path} else s.handles)
  }

  // ---------------------------------------------------------------- the runs

  /**
   * What happens to the system: a program set going, one of its tasks ended
   * (again, it may be), and its kept Program Manager's handle put in a path's
   * place.
   */
  datatype Event = Launch(program: Program) | Exit(task: nat) | Keep(path: Path)

  function After(s: System, event: Event): (r: System) {
    match event
    case Launch(program) => Launched(s, program)
    case Exit(t) => if t < |s.tasks| then Exited(s, t) else s
    case Keep(path) => if s.kept.Some? then s.(handles := s.handles[path := s.kept.value]) else s
  }

  function Run(s: System, events: seq<Event>): (r: System) {
    if events == [] then s
    else After(Run(s, events[..|events| - 1]), events[|events| - 1])
  }

  /** The system started: its own descriptors marked, no program loaded. */
  predicate Booted(s: System) {
    && s.tasks == [] && s.handles == map[] && s.table == Table(s.system, [])
    && 0 in s.system && NO_SELECTOR !in s.system
    && (s.kept.Some? ==> s.kept.value % 8 == 7 &&  s.kept.value / 8 in s.system)
  }

  /** A system of no descriptor of its own but the first, started. */
  const NEWLY_BOOTED: System := System(Table({0}, []), [], map[], None, {0})

  lemma RunOfOne(s: System, event: Event)
    ensures Run(s, [event]) == After(s, event)
  {
    hide After;
    assert [event][..0] == [];
  }

  lemma RunOfTwo(s: System, first: Event, second: Event)
    ensures Run(s, [first]) == After(s, first)
    ensures Run(s, [first, second]) == After(After(s, first), second)
  {
    hide After;
    assert [first][..0] == [] && [first, second][..1] == [first];
  }

  // ---------------------------------------------------------------- the methods

  class Win16 {
    const allocator: GlobalAllocator
    var tasks: seq<Task>
    var handles: map<Path, Handle>
    var kept: Option<Handle>
    ghost const system: set<Index>

    constructor (allocator: GlobalAllocator, kept: Option<Handle>, ghost system: set<Index>)
      requires allocator.State() == Table(system, [])
      ensures this.allocator == allocator
      ensures State() == System(Table(system, []), [], map[], kept, system)
    {
      this.allocator := allocator;
      this.kept := kept;
      this.system := system;
      tasks := [];
      handles := map[];
    }

    ghost function State(): System
      reads this, allocator
    {
      System(allocator.State(), tasks, handles, kept, system)
    }

    /** One request more of a row. */
    method Ask(asking: Asking, ghost so: Acquisition) returns (index: Index)
      requires allocator.State() == so.table
      modifies allocator
      ensures Acquisition(so.indices + [index], allocator.State()) == Asked(so, asking)
    {
      match asking
      case Reserving => index := allocator.Reserve();
      case Mapping => index := allocator.TakeAndMap();
    }

    method AskOwn(ghost so: Acquisition) returns (own: Own)
      requires allocator.State() == so.table
      modifies allocator
      ensures Acquisition(so.indices + [own.database, own.prefix, own.second, own.queue], allocator.State())
           == OwnAsked(so)
    {
      var database := Ask(Reserving, so);
      var prefix := Ask(Mapping, Asked(so, Reserving));
      var second := Ask(Reserving, Asked(Asked(so, Reserving), Mapping));
      var queue := Ask(Reserving, Asked(Asked(Asked(so, Reserving), Mapping), Reserving));
      own := Own(database, prefix, second, queue);
    }

    /** The segments, each a selector asked for and mapped (`Loader.parse`). */
    method PlaceSegments(count: nat, ghost so: Acquisition) returns (segments: seq<Index>)
      requires allocator.State() == so.table
      modifies allocator
      ensures Acquisition(so.indices + segments, allocator.State()) == AskedTimes(so, count)
    {
      hide Asked;
      segments := [];
      var i := 0;
      while i < count
        invariant i <= count
        invariant Acquisition(so.indices + segments, allocator.State()) == AskedTimes(so, i)
      {
        var segment := Ask(Mapping, AskedTimes(so, i));
        segments := segments + [segment];
        i := i + 1;
      }
    }

    /** Every selector a load asks for, in order: the database only where the module is new. */
    method Acquire(program: Program, isNew: bool) returns (database: Index, own: Own, segments: seq<Index>)
      requires isNew == (program.path !in handles)
      modifies allocator
      ensures !isNew ==> database == NO_SELECTOR
      ensures Acquisition((if isNew then [database] else [])
                            + [own.database, own.prefix, own.second, own.queue] + segments, allocator.State())
           == old(LoadAnswers(State(), program))
    {
      ghost var so := Acquisition([], allocator.State());
      database := NO_SELECTOR;
      if isNew {
        database := Ask(Mapping, so);
        so := Asked(so, Mapping);
      }
      assert so.indices == if isNew then [database] else [];
      own := AskOwn(so);
      segments := PlaceSegments(program.segmentCount, OwnAsked(so));
    }

    /** A task made of the selectors asked for, registered with no handle, and a new database's handle put in. */
    method Install(program: Program, database: Index, own: Own, segments: seq<Index>) returns (handle: nat)
      requires database >= 0 ==> program.path !in handles
      modifies `tasks, `handles
      ensures handle == old(|tasks|)
      ensures tasks == old(tasks) + [Task(program.path, Some(own), program.dataSegment, segments, None, false)]
      ensures handles == HandlesLoaded(old(handles), program.path, database)
    {
      handles := handles - {program.path};
      handle := |tasks|;
      tasks := tasks + [Task(program.path, Some(own), program.dataSegment, segments, None, false)];
      if database >= 0 {
        handles := handles[program.path := Selector(database)];
      }
    }

    method Load(program: Program) returns (handle: nat)
      modifies this, allocator
      ensures handle == old(|tasks|)
      ensures State() == Loaded(old(State()), program)
    {
      hide LoadAnswers, HandlesLoaded;
      var isNew := program.path !in handles;
      ghost var got := LoadAnswers(State(), program);
      var database, own, segments := Acquire(program, isNew);
      AnswersAre(got.indices, isNew, database, own, segments);
      handle := Install(program, database, own, segments);
    }

    method Prepare(t: nat)
      requires t < |tasks|
      modifies this, allocator
      ensures State() == Prepared(old(State()), t)
    {
      var environment := allocator.Find(1);
      allocator.Map(environment);
      tasks := tasks[t := tasks[t].(environment := Some(environment))];
    }

    /** A program loaded and set going (`startExecutable`). */
    method Start(program: Program)
      modifies this, allocator
      ensures State() == After(old(State()), Launch(program))
    {
      var handle := Load(program);
      Prepare(handle);
    }

    /** The kept Program Manager's handle put in a path's place (`startProgman`). */
    method PutKept(path: Path)
      modifies this
      ensures State() == After(old(State()), Keep(path))
    {
      if kept.Some? {
        handles := handles[path := kept.value];
      }
    }

    method IsRunning(path: Path) returns (running: bool)
      ensures running == Running(tasks, path)
    {
      var t := 0;
      while t < |tasks|
        invariant t <= |tasks|
        invariant forall k :: 0 <= k < t ==> tasks[k].ended || Upper(tasks[k].path) != Upper(path)
      {
        if !tasks[t].ended && Upper(tasks[t].path) == Upper(path) {
          return true;
        }
        t := t + 1;
      }
      return false;
    }

    method FreeModuleSegments(task: Task, database: Option<Index>, whole: bool)
      requires database.Some? ==> database.value > 0
      modifies allocator
      ensures allocator.State() == Given(old(allocator.State()), ModuleReturned(task, database, whole))
    {
      ghost var start, given := allocator.State(), [];
      NothingGiven(start);
      if HasData(task) {
        allocator.Give(task.segments[task.dataSegment - 1]);
        given := [task.segments[task.dataSegment - 1]];
      }
      if database.Some? {
        allocator.Give(database.value);
        GivenTogether(start, given, [database.value]);
        given := given + [database.value];
      }
      if !whole {
        return;
      }
      GiveOthers(task);
      GivenTogether(start, given, Others(task.segments, task.dataSegment));
    }

    method GiveOthers(task: Task)
      modifies allocator
      ensures allocator.State() == Given(old(allocator.State()), Others(task.segments, task.dataSegment))
    {
      ghost var start := allocator.State();
      ghost var others: seq<Index> := [];
      NothingGiven(start);
      var number := 1;
      while number <= |task.segments|
        invariant 1 <= number <= |task.segments| + 1
        invariant others == Others(task.segments[..number - 1], task.dataSegment)
        invariant allocator.State() == Given(start, others)
      {
        OthersOneMore(task.segments[..number - 1], task.segments[number - 1], task.dataSegment);
        assert task.segments[..number] == task.segments[..number - 1] + [task.segments[number - 1]];
        if number != task.dataSegment {
          allocator.Give(task.segments[number - 1]);
          GivenTogether(start, others, [task.segments[number - 1]]);
          others := others + [task.segments[number - 1]];
        }
        number := number + 1;
      }
      assert task.segments[..|task.segments|] == task.segments;
    }

    /** What a task was given for itself and its module's segments, after its queue, and its environment. */
    method GiveBack(task: Task, database: Option<Index>, last: bool, ghost start: Table)
      requires database.Some? ==> database.value > 0
      requires task.own.Some? && allocator.State() == Given(start, [task.own.value.queue])
      modifies allocator
      ensures var given := Given(start, Returned(task, task.own.value, database, last));
              allocator.State() == if task.environment.Some? then Released(given, task.environment.value) else given
    {
      var own := task.own.value;
      FreeModuleSegments(task, database, last);
      allocator.Give(own.prefix);
      allocator.Give(own.second);
      allocator.Give(own.database);
      ReturnedInTurn(start, task, own, database, last);
      if task.environment.Some? {
        allocator.Release(task.environment.value);
      }
    }

    method ExitTask(t: nat)
      modifies this, allocator
      ensures State() == After(old(State()), Exit(t))
    {
      hide Given, Returned, Released, Running;
      if t >= |tasks| {
        return;
      }
      ghost var start := allocator.State();
      var task := tasks[t];
      var isLoaded := task.path in handles;
      var isKept := isLoaded && kept == Some(handles[task.path]);
      var owned := task.own.Some? && !isKept;
      if owned {
        allocator.Give(task.own.value.queue);
      }
      tasks := tasks[t := task.(ended := true)];
      var running := IsRunning(task.path);
      var last := isLoaded && !running;
      var database := if last && !isKept && handles[task.path] / 8 > 0 then Some(handles[task.path] / 8) else None;
      if owned {
        GiveBack(task, database, last, start);
        tasks := tasks[t := task.(ended := true, own := None)];
      }
      if last {
        handles := handles - {task.path};
      }
    }
  }

  /** What a load is answered, place by place. */
  lemma AnswersAre(got: seq<Index>, isNew: bool, database: Index, own: Own, segments: seq<Index>)
    requires got == (if isNew then [database] else [])
                    + [own.database, own.prefix, own.second, own.queue] + segments
    ensures var first := if isNew then 1 else 0;
            && |got| == first + 4 + |segments| && (isNew ==> got[0] == database)
            && Own(got[first], got[first + 1], got[first + 2], got[first + 3]) == own && got[first + 4..] == segments
  {
  }

  lemma NothingGiven(t: Table)
    ensures Given(t, []) == t
  {
  }

  lemma OthersOneMore(segments: seq<Index>, last: Index, dataSegment: nat)
    ensures Others(segments + [last], dataSegment)
         == Others(segments, dataSegment) + (if dataSegment == |segments| + 1 then [] else [last])
  {
  }

  lemma ReturnedInTurn(t: Table, task: Task, own: Own, database: Option<Index>, whole: bool)
    ensures Given(Given(Given(Given(Given(t, [own.queue]), ModuleReturned(task, database, whole)),
                              [own.prefix]), [own.second]), [own.database])
         == Given(t, Returned(task, own, database, whole))
  {
    var given := [own.queue] + ModuleReturned(task, database, whole);
    GivenTogether(t, [own.queue], ModuleReturned(task, database, whole));
    GivenTogether(t, given, [own.prefix]);
    GivenTogether(t, given + [own.prefix], [own.second]);
    GivenTogether(t, given + [own.prefix] + [own.second], [own.database]);
    assert given + [own.prefix] + [own.second] + [own.database]
        == Returned(task, own, database, whole);
  }
}
