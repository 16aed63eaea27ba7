/**
 * Reads of one stream made at once (`read` and `readBlock` of src/stream.ts):
 * each runs until it waits, and a fetch's answer may come whenever it will.
 */
module StreamInterleaving {
  import opened Wrappers
  import opened Bytes
  import opened BlockStream

  /** What the reads share. Whether a kept block can be sliced is as `BlockStream.Stream` has it. */
  datatype Shared = Shared(cache: map<nat, bytes>, buffer: Option<bytes>, ranged: bool, size: nat, initialized: bool)

  const UNREAD := Shared(map[], None, true, 0, false)

  /** Where a read is: what it does next, or what it waits for. */
  datatype Phase =
    | Probing                                   // to ask for its first block, nothing having been read
    | ProbeAsked(last: int)                     // waiting for that block, asked for to a last byte
    | Deciding                                  // to look at whether the server has ranges
    | Looping                                   // to ask for its next block, or be done
    | BlockAsked(last: int)                     // waiting for that block
    | Given(block: bytes)                       // to put a block's part in its place
    | Done(answer: Result<bytes, StreamError>)

  /** A read of a region, and the variables of its loop. */
  datatype Reader = Reader(
    offset: nat,
    length: nat,
    phase: Phase,
    position: nat,
    blockStart: nat,
    blockOffset: nat,
    ret: bytes)

  datatype State = State(server: Server, viewsSlice: bool, shared: Shared, readers: seq<Reader>)

  /** A read begun, a read run until it waits next, or its fetch answered. */
  datatype Event = Begin(offset: nat, length: nat) | Turn(reader: nat) | Answered(reader: nat)

  function Begun(shared: Shared, offset: nat, length: nat): Reader {
    Reader(offset, length, if shared.initialized then Deciding else Probing, 0, offset / BLOCK_SIZE,
           offset % BLOCK_SIZE, Zeros(length))
  }

  /** A block kept already, if it is: of the whole file, where the server has no ranges. */
  function Hit(shared: Shared, position: nat): Option<bytes> {
    if !shared.ranged && shared.buffer.Some? then shared.buffer
    else if position in shared.cache then Some(shared.cache[position])
    else None
  }

  /** A read run until it waits next. */
  function Run(viewsSlice: bool, shared: Shared, r: Reader): Reader {
    match r.phase
    case Probing =>
      (match Hit(shared, r.blockStart)
       case Some(_) => r.(phase := Deciding)
       case None => r.(phase := ProbeAsked(LastAsked(r.blockStart, shared.size))))
    case Deciding =>
      if shared.ranged then r.(phase := Looping)
      else if shared.buffer.Some? then
        r.(phase := Done(Success(Slice(shared.buffer.value, r.offset, r.offset + r.length))))
      else r.(phase := Done(Failure(NotSliceable)))
    case Looping =>
      if r.position >= r.length then r.(phase := Done(Success(r.ret)))
      else
        (match Hit(shared, r.blockStart)
         case Some(block) => r.(phase := if viewsSlice then Given(block) else Done(Failure(NotSliceable)))
         case None => r.(phase := BlockAsked(LastAsked(r.blockStart, shared.size))))
    case Given(block) => Placed(r, block)
    case _ => r
  }

  /** A block's part put in its place, and the loop's variables moved on. */
  function Placed(r: Reader, block: bytes): Reader {
    if r.position > r.length || r.blockOffset >= BLOCK_SIZE || |r.ret| != r.length then r
    else
      var count: nat := Min(BLOCK_SIZE - r.blockOffset, r.length - r.position);
      r.(phase := Looping, ret := Set(r.ret, Slice(block, r.blockOffset, r.blockOffset + count), r.position),
         position := r.position + count, blockOffset := 0, blockStart := r.blockStart + 1)
  }

  /** What a good answer leaves shared: the block, or the whole file. */
  function WithBody(server: Server, shared: Shared, position: nat, body: bytes): Shared {
    var known := shared.(initialized := true, ranged := shared.ranged && server.ranges,
                         size := if shared.size != 0 then shared.size else |server.file|);
    if known.ranged then known.(cache := known.cache[position := body]) else known.(buffer := Some(body))
  }

  function LastOf(phase: Phase): int
    requires phase.ProbeAsked? || phase.BlockAsked?
  {
    phase.last
  }

  /** A read's fetch answered, well or not. */
  function AfterAnswer(s: State, i: nat): State
    requires i < |s.readers| && (s.readers[i].phase.ProbeAsked? || s.readers[i].phase.BlockAsked?)
  {
    var r := s.readers[i];
    match Answer(s.server, r.blockStart * BLOCK_SIZE, LastOf(r.phase))
    case None => s.(readers := s.readers[i := r.(phase := Done(Failure(HttpError)))])
    case Some(body) =>
      s.(shared := WithBody(s.server, s.shared, r.blockStart, body),
         readers := s.readers[i := WithAnswer(r, body)])
  }

  function After(s: State, event: Event): State {
    match event
    case Begin(offset, length) => s.(readers := s.readers + [Begun(s.shared, offset, length)])
    case Turn(i) => if i < |s.readers| then s.(readers := s.readers[i := Run(s.viewsSlice, s.shared, s.readers[i])]) else s
    case Answered(i) =>
      if i < |s.readers| && (s.readers[i].phase.ProbeAsked? || s.readers[i].phase.BlockAsked?) then AfterAnswer(s, i)
      else s
  }

  function RunAll(s: State, events: seq<Event>): State
    decreases |events|
  {
    if events == [] then s else After(RunAll(s, events[..|events| - 1]), events[|events| - 1])
  }

  // ---------------------------------------------------------------- what every interleaving keeps

  ghost predicate SharedAgrees(server: Server, shared: Shared) {
    && (forall p :: p in shared.cache ==> p * BLOCK_SIZE < |server.file| && shared.cache[p] == BlockOf(server.file, p))
    && (shared.buffer.Some? ==> shared.buffer.value == server.file)
    && (shared.size == 0 || shared.size == |server.file|) && (shared.initialized ==> shared.size == |server.file|)
    && (shared.initialized ==> shared.ranged == server.ranges && (!shared.ranged ==> shared.buffer.Some?))
    && (!shared.initialized ==> shared.ranged && shared.cache == map[] && shared.buffer == None)
    && (server.ranges ==> shared.ranged && shared.buffer == None)
  }

  predicate AskedWell(server: Server, r: Reader, last: int) {
    last == LastAsked(r.blockStart, 0) || last == LastAsked(r.blockStart, |server.file|)
  }

  /** What a read of a region within the file may be answered. */
  predicate IsAnswer(server: Server, viewsSlice: bool, r: Reader, answer: Result<bytes, StreamError>)
    requires InBounds(server.file, r.offset, r.length)
  {
    || answer == Success(server.file[r.offset..r.offset + r.length])
    || (answer == Failure(NotSliceable) && !viewsSlice && server.ranges)
  }

  /** A read of a region within the file, on its way to the file's bytes, or stopped by a kept block it cannot slice. */
  ghost predicate OnTheWay(server: Server, viewsSlice: bool, initialized: bool, r: Reader)
    requires InBounds(server.file, r.offset, r.length)
  {
    && r.position <= r.length == |r.ret|
    && ReadSoFar(r.ret, server.file, r.offset, r.position)
    && (r.position < r.length ==> r.blockStart * BLOCK_SIZE + r.blockOffset == r.offset + r.position)
    && r.blockOffset < BLOCK_SIZE
    && match r.phase
       case Probing => r.position < r.length
       case ProbeAsked(last) => AskedWell(server, r, last) && r.position < r.length
       case Deciding => initialized
       case Looping => initialized && server.ranges
       case BlockAsked(last) => initialized && server.ranges && AskedWell(server, r, last) && r.position < r.length
       case Given(block) =>
         && initialized && server.ranges && r.position < r.length
         && r.blockStart * BLOCK_SIZE < |server.file| && block == BlockOf(server.file, r.blockStart)
       case Done(answer) => IsAnswer(server, viewsSlice, r, answer)
  }

  /** A read of any region: what it waits for it asked for as the stream asks. */
  ghost predicate Asks(server: Server, r: Reader) {
    (r.phase.ProbeAsked? || r.phase.BlockAsked?) ==> AskedWell(server, r, r.phase.last)
  }

  ghost predicate Agrees(s: State) {
    && SharedAgrees(s.server, s.shared)
    && forall i :: 0 <= i < |s.readers| ==>
         && Asks(s.server, s.readers[i])
         && (InBounds(s.server.file, s.readers[i].offset, s.readers[i].length) ==>
               OnTheWay(s.server, s.viewsSlice, s.shared.initialized, s.readers[i]))
  }

  lemma PlacedAgrees(server: Server, viewsSlice: bool, r: Reader, block: bytes)
    requires InBounds(server.file, r.offset, r.length) && r.phase == Given(block) && OnTheWay(server, viewsSlice, true, r)
    ensures OnTheWay(server, viewsSlice, true, Placed(r, block))
  {
    hide Set, Slice, BlockOf, ReadSoFar, CanSlice;
    var count: nat := Min(BLOCK_SIZE - r.blockOffset, r.length - r.position);
    OneBlockMore(r.ret, server.file, r.offset, r.position, r.blockStart, r.blockOffset, count);
  }

  lemma DoneAgrees(server: Server, viewsSlice: bool, r: Reader)
    requires InBounds(server.file, r.offset, r.length) && OnTheWay(server, viewsSlice, true, r) && r.phase.Looping? && r.position == r.length
    ensures r.ret == server.file[r.offset..r.offset + r.length]
  {
  }

  lemma RunAgrees(server: Server, viewsSlice: bool, shared: Shared, r: Reader)
    requires SharedAgrees(server, shared) && Asks(server, r)
    ensures Asks(server, Run(viewsSlice, shared, r))
    ensures InBounds(server.file, r.offset, r.length) && OnTheWay(server, viewsSlice, shared.initialized, r) ==>
      OnTheWay(server, viewsSlice, shared.initialized, Run(viewsSlice, shared, r))
  {
    hide Set, BlockOf, ReadSoFar, LastAsked;
    if InBounds(server.file, r.offset, r.length) && OnTheWay(server, viewsSlice, shared.initialized, r) {
      match r.phase
      case Given(block) => PlacedAgrees(server, viewsSlice, r, block);
      case Looping => if r.position == r.length { DoneAgrees(server, viewsSlice, r); }
      case _ =>
    }
  }

  lemma KeptAgrees(server: Server, shared: Shared, position: nat, body: bytes)
    requires SharedAgrees(server, shared)
    requires server.ranges ==> position * BLOCK_SIZE < |server.file| && body == BlockOf(server.file, position)
    requires !server.ranges ==> body == server.file
    ensures SharedAgrees(server, WithBody(server, shared, position, body))
    ensures WithBody(server, shared, position, body).initialized
  {
  }

  /** The read whose fetch is answered. */
  function WithAnswer(r: Reader, body: bytes): Reader {
    r.(phase := if r.phase.ProbeAsked? then Deciding else Given(body))
  }

  /** What holds of one read among others. */
  ghost predicate ReaderAgrees(server: Server, viewsSlice: bool, initialized: bool, r: Reader) {
    && Asks(server, r)
    && (InBounds(server.file, r.offset, r.length) ==> OnTheWay(server, viewsSlice, initialized, r))
  }

  lemma ReaderStays(server: Server, viewsSlice: bool, initialized: bool, r: Reader)
    requires ReaderAgrees(server, viewsSlice, initialized, r)
    ensures ReaderAgrees(server, viewsSlice, true, r)
  {
  }

  lemma TurnAgrees(s: State, i: nat)
    requires Agrees(s)
    ensures Agrees(After(s, Turn(i)))
  {
    hide Run, SharedAgrees, Asks, OnTheWay;
    if i < |s.readers| {
      RunAgrees(s.server, s.viewsSlice, s.shared, s.readers[i]);
      RunKeepsRegion(s.viewsSlice, s.shared, s.readers[i]);
    }
  }

  lemma RunKeepsRegion(viewsSlice: bool, shared: Shared, r: Reader)
    ensures Run(viewsSlice, shared, r).offset == r.offset && Run(viewsSlice, shared, r).length == r.length
  {
  }

  lemma AnsweredReader(s: State, r: Reader, body: bytes)
    requires ReaderAgrees(s.server, s.viewsSlice, s.shared.initialized, r) && (r.phase.ProbeAsked? || r.phase.BlockAsked?)
    requires Answer(s.server, r.blockStart * BLOCK_SIZE, r.phase.last) == Some(body)
    ensures ReaderAgrees(s.server, s.viewsSlice, true, WithAnswer(r, body))
    ensures s.server.ranges ==>
      r.blockStart * BLOCK_SIZE < |s.server.file| && body == BlockOf(s.server.file, r.blockStart)
    ensures !s.server.ranges ==> body == s.server.file
  {
  }

  lemma AnswerAgrees(s: State, i: nat)
    requires Agrees(s)
    ensures Agrees(After(s, Answered(i)))
  {
    hide WithBody, SharedAgrees, Asks, OnTheWay, Answer, BlockOf, AskedWell;
    if i < |s.readers| && (s.readers[i].phase.ProbeAsked? || s.readers[i].phase.BlockAsked?) {
      var r := s.readers[i];
      match Answer(s.server, r.blockStart * BLOCK_SIZE, r.phase.last)
      case None =>
        RefusedAgrees(s, i);
      case Some(body) =>
        AnsweredReader(s, r, body);
        KeptAgrees(s.server, s.shared, r.blockStart, body);
        forall k | 0 <= k < |s.readers| ensures ReaderAgrees(s.server, s.viewsSlice, true, s.readers[k]) {
          ReaderStays(s.server, s.viewsSlice, s.shared.initialized, s.readers[k]);
        }
    }
  }

  /** Only a read past the file's end is refused. */
  lemma RefusedAgrees(s: State, i: nat)
    requires Agrees(s) && i < |s.readers| && (s.readers[i].phase.ProbeAsked? || s.readers[i].phase.BlockAsked?)
    requires Answer(s.server, s.readers[i].blockStart * BLOCK_SIZE, s.readers[i].phase.last) == None
    ensures !InBounds(s.server.file, s.readers[i].offset, s.readers[i].length)
    ensures Agrees(s.(readers := s.readers[i := s.readers[i].(phase := Done(Failure(HttpError)))]))
  {
  }

  lemma BeginAgrees(s: State, offset: nat, length: nat)
    requires Agrees(s)
    ensures Agrees(After(s, Begin(offset, length)))
  {
  }

  lemma AfterKeepsServer(s: State, event: Event)
    ensures After(s, event).server == s.server && After(s, event).viewsSlice == s.viewsSlice
  {
  }

  /** No read begun, and nothing read. */
  function Start(server: Server, viewsSlice: bool): State {
    State(server, viewsSlice, UNREAD, [])
  }

  /**
   * Under every interleaving of reads, of any regions, with either kind of
   * server and of views: each block kept is its bytes of the file, the whole
   * file kept is the file, and every read of a region not empty and within
   * the file is on its way to, or has been answered, the file's bytes, but
   * for those stopped by a kept block where views cannot be sliced.
   */
  lemma {:induction false} EveryInterleavingAgrees(server: Server, viewsSlice: bool, events: seq<Event>)
    ensures var s := RunAll(Start(server, viewsSlice), events);
            Agrees(s) && s.server == server && s.viewsSlice == viewsSlice
    decreases |events|
  {
    hide After, SharedAgrees, Asks, OnTheWay;
    if events == [] {
      UnreadAgrees(server);
    } else {
      var before := RunAll(Start(server, viewsSlice), events[..|events| - 1]);
      EveryInterleavingAgrees(server, viewsSlice, events[..|events| - 1]);
      AfterKeepsServer(before, events[|events| - 1]);
      match events[|events| - 1]
      case Begin(offset, length) => BeginAgrees(before, offset, length);
      case Turn(i) => TurnAgrees(before, i);
      case Answered(i) => AnswerAgrees(before, i);
    }
  }

  lemma UnreadAgrees(server: Server)
    ensures SharedAgrees(server, UNREAD)
  {
  }

  /**
   * So every read that ends, whatever went on beside it, is answered the
   * file's bytes, or that a kept block cannot be sliced where that is so.
   */
  lemma EveryReadIsTheFile(server: Server, viewsSlice: bool, events: seq<Event>, i: nat)
    requires i < |RunAll(Start(server, viewsSlice), events).readers|
    ensures var r := RunAll(Start(server, viewsSlice), events).readers[i];
            InBounds(server.file, r.offset, r.length) && r.phase.Done? ==> IsAnswer(server, viewsSlice, r, r.phase.answer)
  {
    hide RunAll, SharedAgrees;
    EveryInterleavingAgrees(server, viewsSlice, events);
    var s := RunAll(Start(server, viewsSlice), events);
    assert InBounds(server.file, s.readers[i].offset, s.readers[i].length) ==>
      OnTheWay(s.server, s.viewsSlice, s.shared.initialized, s.readers[i]);
  }

  // ---------------------------------------------------------------- reads end

  predicate IsWaiting(r: Reader) {
    r.phase.ProbeAsked? || r.phase.BlockAsked?
  }

  /** Whether an event is one a read goes on by: its answer while it waits, and its turn while it does not. */
  predicate Serves(s: State, event: Event, i: nat)
    requires i < |s.readers|
  {
    !s.readers[i].phase.Done?
    && ((event == Turn(i) && !IsWaiting(s.readers[i])) || (event == Answered(i) && IsWaiting(s.readers[i])))
  }

  /** How many of a run's events a read went on by. */
  function Served(s: State, events: seq<Event>, i: nat): nat
    requires i < |s.readers|
    decreases |events|
  {
    if events == [] then 0
    else
      var before := RunAll(s, events[..|events| - 1]);
      ReadersStay(s, events[..|events| - 1]);
      Served(s, events[..|events| - 1], i) + if Serves(before, events[|events| - 1], i) then 1 else 0
  }

  lemma {:induction false} ReadersStay(s: State, events: seq<Event>)
    ensures |RunAll(s, events).readers| >= |s.readers|
    decreases |events|
  {
    hide Run, Answer;
    if events != [] {
      ReadersStay(s, events[..|events| - 1]);
    }
  }

  /** A read's loop is where the loop can be. */
  predicate IsShaped(r: Reader) {
    && r.position <= r.length == |r.ret| && r.blockOffset < BLOCK_SIZE
    && (r.phase.BlockAsked? || r.phase.Given? ==> r.position < r.length)
  }

  /** The blocks a region reaches, from so far into its first. */
  function Blocks(blockOffset: nat, length: nat): nat {
    if length == 0 then 0 else (blockOffset + length - 1) / BLOCK_SIZE + 1
  }

  /** The most events a read may yet go on by. */
  function Steps(r: Reader): nat
    requires r.position <= r.length
  {
    var blocks := Blocks(r.blockOffset, r.length - r.position);
    match r.phase
    case Probing => 3 * blocks + 4
    case ProbeAsked(_) => 3 * blocks + 3
    case Deciding => 3 * blocks + 2
    case Looping => 3 * blocks + 1
    case BlockAsked(_) => 3 * blocks
    case Given(_) => if blocks == 0 then 0 else 3 * blocks - 1
    case Done(_) => 0
  }

  lemma PlacedSteps(r: Reader, block: bytes)
    requires IsShaped(r) && r.phase == Given(block)
    ensures IsShaped(Placed(r, block)) && Steps(Placed(r, block)) < Steps(r)
  {
    hide Set, Slice;
    var count: nat := Min(BLOCK_SIZE - r.blockOffset, r.length - r.position);
    if count < r.length - r.position {
      assert r.blockOffset + (r.length - r.position) - 1 == BLOCK_SIZE + (r.length - r.position - count) - 1;
    }
  }

  /** A turn of a read that does not wait. */
  lemma TurnSteps(viewsSlice: bool, shared: Shared, r: Reader)
    requires IsShaped(r)
    ensures IsShaped(Run(viewsSlice, shared, r))
    ensures !IsWaiting(r) && !r.phase.Done? ==> Steps(Run(viewsSlice, shared, r)) < Steps(r)
    ensures IsWaiting(r) || r.phase.Done? ==> Run(viewsSlice, shared, r) == r
  {
    hide Placed, Blocks;
    if r.phase.Given? {
      PlacedSteps(r, r.phase.block);
    }
    BlocksNone(r.blockOffset, r.length - r.position);
  }

  lemma BlocksNone(blockOffset: nat, length: nat)
    ensures Blocks(blockOffset, length) == 0 <==> length == 0
  {
  }

  /** One event: a read it serves has fewer steps left, and any other is as it was. */
  lemma EventSteps(s: State, event: Event, i: nat)
    requires i < |s.readers| && IsShaped(s.readers[i])
    ensures i < |After(s, event).readers| && IsShaped(After(s, event).readers[i])
    ensures Serves(s, event, i) ==> Steps(After(s, event).readers[i]) < Steps(s.readers[i])
    ensures !Serves(s, event, i) ==> After(s, event).readers[i] == s.readers[i]
  {
    hide Run, Blocks, Answer;
    TurnSteps(s.viewsSlice, s.shared, s.readers[i]);
    BlocksNone(s.readers[i].blockOffset, s.readers[i].length - s.readers[i].position);
  }

  /** A read's steps left and the events it has gone on by are together no more than it had. */
  lemma {:induction false} ServedWithin(s: State, events: seq<Event>, i: nat)
    requires i < |s.readers| && IsShaped(s.readers[i])
    ensures i < |RunAll(s, events).readers| && IsShaped(RunAll(s, events).readers[i])
    ensures Served(s, events, i) + Steps(RunAll(s, events).readers[i]) <= Steps(s.readers[i])
    decreases |events|
  {
    hide After, Serves, IsShaped, Steps;
    if events != [] {
      ServedWithin(s, events[..|events| - 1], i);
      EventSteps(RunAll(s, events[..|events| - 1]), events[|events| - 1], i);
      ShapedPosition(RunAll(s, events).readers[i]);
    }
    ShapedPosition(s.readers[i]);
  }

  lemma ShapedPosition(r: Reader)
    requires IsShaped(r)
    ensures r.position <= r.length
  {
  }

  /** A read that has not ended is served by its turn or its answer, so it is never without an event to go on by. */
  lemma NeverStuck(s: State, i: nat)
    requires i < |s.readers| && !s.readers[i].phase.Done?
    ensures Serves(s, Turn(i), i) || Serves(s, Answered(i), i)
  {
  }

  lemma OnlyDoneHasNoSteps(r: Reader)
    requires IsShaped(r) && Steps(r) == 0
    ensures r.phase.Done?
  {
    BlocksNone(r.blockOffset, r.length - r.position);
  }

  /** The most events a read of a region goes on by: three a block, and four more. */
  function MostSteps(offset: nat, length: nat): nat {
    3 * Blocks(offset % BLOCK_SIZE, length) + 4
  }

  lemma BegunSteps(shared: Shared, offset: nat, length: nat)
    ensures IsShaped(Begun(shared, offset, length)) && Steps(Begun(shared, offset, length)) <= MostSteps(offset, length)
  {
    hide Blocks;
  }

  lemma {:induction false} RunAllTogether(s: State, a: seq<Event>, b: seq<Event>)
    ensures RunAll(s, a + b) == RunAll(RunAll(s, a), b)
    decreases |b|
  {
    hide After;
    if b == [] {
      assert a + b == a;
    } else {
      assert (a + b)[..|a + b| - 1] == a + b[..|b| - 1];
      RunAllTogether(s, a, b[..|b| - 1]);
    }
  }

  /**
   * A read begun at any time, of any region, has ended once so many of the
   * events after it were ones it goes on by, whatever the others do: and then
   * a region not empty and within the file has been answered the file's
   * bytes, or that a kept block cannot be sliced where that is so.
   */
  lemma EveryReadEnds(server: Server, viewsSlice: bool, before: seq<Event>, offset: nat, length: nat, after: seq<Event>)
    ensures var begun := RunAll(Start(server, viewsSlice), before + [Begin(offset, length)]);
      var i := |RunAll(Start(server, viewsSlice), before).readers|;
      && i < |begun.readers| && begun.readers[i].offset == offset && begun.readers[i].length == length
      && (Served(begun, after, i) >= MostSteps(offset, length) ==>
            var s := RunAll(begun, after);
            && i < |s.readers| && s.readers[i].phase.Done?
            && s.readers[i].offset == offset && s.readers[i].length == length
            && (InBounds(server.file, offset, length) ==> IsAnswer(server, viewsSlice, s.readers[i], s.readers[i].phase.answer)))
  {
    hide RunAll, Steps, IsShaped, Served, MostSteps, IsAnswer, InBounds;
    var start := Start(server, viewsSlice);
    var i := |RunAll(start, before).readers|;
    var begun := RunAll(start, before + [Begin(offset, length)]);
    BegunNext(start, before, offset, length);
    BegunSteps(RunAll(start, before).shared, offset, length);
    ServedWithin(begun, after, i);
    var s := RunAll(begun, after);
    ShapedPosition(s.readers[i]);
    if Served(begun, after, i) >= MostSteps(offset, length) {
      OnlyDoneHasNoSteps(s.readers[i]);
      RunAllTogether(start, before + [Begin(offset, length)], after);
      RegionStays(begun, after, i);
      EveryReadIsTheFile(server, viewsSlice, before + [Begin(offset, length)] + after, i);
    }
  }

  lemma BegunNext(s: State, before: seq<Event>, offset: nat, length: nat)
    ensures var one := RunAll(s, before);
            RunAll(s, before + [Begin(offset, length)]).readers == one.readers + [Begun(one.shared, offset, length)]
  {
    assert (before + [Begin(offset, length)])[..|before|] == before;
  }

  lemma {:induction false} RegionStays(s: State, events: seq<Event>, i: nat)
    requires i < |s.readers|
    ensures i < |RunAll(s, events).readers|
    ensures RunAll(s, events).readers[i].offset == s.readers[i].offset
    ensures RunAll(s, events).readers[i].length == s.readers[i].length
    decreases |events|
  {
    hide Run, Answer, WithBody;
    if events != [] {
      var before := RunAll(s, events[..|events| - 1]);
      RegionStays(s, events[..|events| - 1], i);
      RunKeepsRegion(before.viewsSlice, before.shared, before.readers[i]);
    }
  }

  // ---------------------------------------------------------------- which reads fail

  /** Whether an event is a read's coming to a block that is kept already. */
  predicate MeetsKept(s: State, event: Event, i: nat)
    requires i < |s.readers|
  {
    var r := s.readers[i];
    event == Turn(i) && r.phase.Looping? && r.position < r.length && Hit(s.shared, r.blockStart).Some?
  }

  /** Whether over a run a read came to a block that was kept by then. */
  predicate HasMetKept(s: State, events: seq<Event>, i: nat)
    requires i < |s.readers|
    decreases |events|
  {
    if events == [] then false
    else
      var before := RunAll(s, events[..|events| - 1]);
      ReadersStay(s, events[..|events| - 1]);
      HasMetKept(s, events[..|events| - 1], i) || MeetsKept(before, events[|events| - 1], i)
  }

  /** A read not yet stopped is, over an event, stopped where it meets a kept block it cannot slice, and is else on its way. */
  lemma EventStopsExactly(s: State, event: Event, i: nat)
    requires Agrees(s) && i < |s.readers| && InBounds(s.server.file, s.readers[i].offset, s.readers[i].length)
    requires OnTheWay(s.server, true, s.shared.initialized, s.readers[i])
    ensures var t := After(s, event);
      && i < |t.readers| && t.readers[i].offset == s.readers[i].offset && t.readers[i].length == s.readers[i].length
      && if MeetsKept(s, event, i) && !s.viewsSlice then t.readers[i].phase == Done(Failure(NotSliceable))
         else OnTheWay(s.server, true, t.shared.initialized, t.readers[i])
  {
    hide Run, OnTheWay, SharedAgrees, Asks, Answer, WithBody, BlockOf;
    var r := s.readers[i];
    match event
    case Begin(_, _) =>
    case Turn(j) =>
      RunKeepsRegion(s.viewsSlice, s.shared, r);
      if j == i {
        TurnStopsExactly(s, i);
      }
    case Answered(j) =>
      AnswerKeepsWay(s, j, i);
  }

  lemma TurnStopsExactly(s: State, i: nat)
    requires SharedAgrees(s.server, s.shared) && i < |s.readers| && Asks(s.server, s.readers[i])
    requires InBounds(s.server.file, s.readers[i].offset, s.readers[i].length)
    requires OnTheWay(s.server, true, s.shared.initialized, s.readers[i])
    ensures var r := Run(s.viewsSlice, s.shared, s.readers[i]);
      && r.offset == s.readers[i].offset && r.length == s.readers[i].length
      && if MeetsKept(s, Turn(i), i) && !s.viewsSlice then r.phase == Done(Failure(NotSliceable))
         else OnTheWay(s.server, true, s.shared.initialized, r)
  {
    hide OnTheWay, SharedAgrees, Asks, LastAsked, Placed;
    RunKeepsRegion(s.viewsSlice, s.shared, s.readers[i]);
    RunAgrees(s.server, true, s.shared, s.readers[i]);
  }

  lemma AnswerKeepsWay(s: State, j: nat, i: nat)
    requires Agrees(s) && i < |s.readers| && InBounds(s.server.file, s.readers[i].offset, s.readers[i].length)
    requires OnTheWay(s.server, true, s.shared.initialized, s.readers[i])
    ensures var t := After(s, Answered(j));
      && i < |t.readers| && t.readers[i].offset == s.readers[i].offset && t.readers[i].length == s.readers[i].length
      && OnTheWay(s.server, true, t.shared.initialized, t.readers[i])
  {
    hide SharedAgrees, Asks, OnTheWay, Answer, BlockOf, AskedWell;
    if j < |s.readers| && IsWaiting(s.readers[j]) {
      var r := s.readers[j];
      match Answer(s.server, r.blockStart * BLOCK_SIZE, r.phase.last)
      case None =>
        RefusedAgrees(s, j);
      case Some(body) =>
        if j == i {
          AnsweredReader(s.(viewsSlice := true), r, body);
        } else {
          ReaderStays(s.server, true, s.shared.initialized, s.readers[i]);
        }
    }
  }

  /**
   * A read begun at any time, of a region not empty and within the file: where
   * kept views cannot be sliced and it came to a block that was kept by then,
   * it has failed, and otherwise, once it has ended, it is answered the file's
   * bytes.
   */
  lemma {:induction false} ReadFailsExactly(server: Server, viewsSlice: bool, before: seq<Event>, offset: nat, length: nat, after: seq<Event>)
    requires InBounds(server.file, offset, length)
    ensures var begun := RunAll(Start(server, viewsSlice), before + [Begin(offset, length)]);
      var i := |RunAll(Start(server, viewsSlice), before).readers|;
      var s := RunAll(begun, after);
      && i < |begun.readers| && i < |s.readers| && s.readers[i].offset == offset && s.readers[i].length == length
      && if HasMetKept(begun, after, i) && !viewsSlice then s.readers[i].phase == Done(Failure(NotSliceable))
         else OnTheWay(server, true, s.shared.initialized, s.readers[i])
    decreases |after|
  {
    hide After, Agrees, OnTheWay, MeetsKept;
    var start := Start(server, viewsSlice);
    var i := |RunAll(start, before).readers|;
    var begun := RunAll(start, before + [Begin(offset, length)]);
    BegunNext(start, before, offset, length);
    if after == [] {
      BegunOnTheWay(server, viewsSlice, before, offset, length);
    } else {
      var n := |after| - 1;
      var s := RunAll(begun, after[..n]);
      ReadFailsExactly(server, viewsSlice, before, offset, length, after[..n]);
      RunAllTogether(start, before + [Begin(offset, length)], after[..n]);
      EveryInterleavingAgrees(server, viewsSlice, before + [Begin(offset, length)] + after[..n]);
      if HasMetKept(begun, after[..n], i) && !viewsSlice {
        DoneStays(s, after[n], i);
      } else {
        EventStopsExactly(s, after[n], i);
      }
    }
  }

  lemma DoneStays(s: State, event: Event, i: nat)
    requires i < |s.readers| && s.readers[i].phase.Done?
    ensures i < |After(s, event).readers| && After(s, event).readers[i] == s.readers[i]
  {
    hide Answer, WithBody;
  }

  lemma BegunOnTheWay(server: Server, viewsSlice: bool, before: seq<Event>, offset: nat, length: nat)
    requires InBounds(server.file, offset, length)
    ensures var one := RunAll(Start(server, viewsSlice), before);
      var s := RunAll(Start(server, viewsSlice), before + [Begin(offset, length)]);
      s.shared == one.shared && OnTheWay(server, true, s.shared.initialized, Begun(one.shared, offset, length))
  {
    assert (before + [Begin(offset, length)])[..|before|] == before;
    BegunAgrees(server, RunAll(Start(server, viewsSlice), before).shared, offset, length);
  }

  lemma BegunAgrees(server: Server, shared: Shared, offset: nat, length: nat)
    requires InBounds(server.file, offset, length)
    ensures OnTheWay(server, true, shared.initialized, Begun(shared, offset, length))
  {
  }

  /** The first block of a read that asked whether the server has ranges is kept when it comes to it. */
  ghost predicate HasProbed(s: State, i: nat)
    requires i < |s.readers|
  {
    var r := s.readers[i];
    match r.phase
    case Probing => true
    case ProbeAsked(_) => true
    case Deciding => r.position == 0 < r.length && r.blockStart in s.shared.cache
    case Looping => r.position == 0 < r.length && r.blockStart in s.shared.cache
    case Done(answer) => answer == Failure(NotSliceable)
    case _ => false
  }

  /** So it never gets past it where views cannot be sliced. */
  lemma ProbedStays(s: State, event: Event, i: nat)
    requires Agrees(s) && s.server.ranges && !s.viewsSlice && i < |s.readers| && HasProbed(s, i)
    requires InBounds(s.server.file, s.readers[i].offset, s.readers[i].length)
    requires s.readers[i].phase.Probing? || s.readers[i].phase.ProbeAsked? ==> s.readers[i].position == 0
    ensures i < |After(s, event).readers| && HasProbed(After(s, event), i)
    ensures var r := After(s, event).readers[i];
      r.phase.Probing? || r.phase.ProbeAsked? ==> r.position == 0
  {
    hide OnTheWay, BlockOf, Answer, AskedWell, Placed, LastAsked;
    var r := s.readers[i];
    if event == Answered(i) && IsWaiting(r) && Answer(s.server, r.blockStart * BLOCK_SIZE, r.phase.last).None? {
      RefusedAgrees(s, i);
    }
  }

  /** A read begun before anything was read, from a server with ranges and with views as they are, does not succeed. */
  lemma {:induction false} FirstReadsFail(server: Server, before: seq<Event>, offset: nat, length: nat, after: seq<Event>)
    requires InBounds(server.file, offset, length) && server.ranges
    requires !RunAll(Start(server, false), before).shared.initialized
    ensures var begun := RunAll(Start(server, false), before + [Begin(offset, length)]);
      var i := |RunAll(Start(server, false), before).readers|;
      var s := RunAll(begun, after);
      && i < |s.readers| && HasProbed(s, i) && s.readers[i].offset == offset && s.readers[i].length == length
      && (s.readers[i].phase.Probing? || s.readers[i].phase.ProbeAsked? ==> s.readers[i].position == 0)
    decreases |after|
  {
    hide After, Agrees, OnTheWay;
    var start := Start(server, false);
    var i := |RunAll(start, before).readers|;
    var begun := RunAll(start, before + [Begin(offset, length)]);
    BegunNext(start, before, offset, length);
    if after != [] {
      var n := |after| - 1;
      FirstReadsFail(server, before, offset, length, after[..n]);
      RunAllTogether(start, before + [Begin(offset, length)], after[..n]);
      EveryInterleavingAgrees(server, false, before + [Begin(offset, length)] + after[..n]);
      ProbedStays(RunAll(begun, after[..n]), after[n], i);
      RegionStays(RunAll(begun, after[..n]), [after[n]], i);
      assert [after[n]][..0] == [];
    }
  }
}
