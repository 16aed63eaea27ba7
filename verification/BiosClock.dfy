/** INT 1Ah, the BIOS's clock (`clockInvoke` of src/dos.ts). */
module BiosClock {
  import opened Wrappers
  import opened Bytes

  const TICKS_A_DAY := 1573040

  /** A date and a time of day, as the machine's clock gives them: the month from 0. */
  datatype Moment = Moment(year: nat, month: nat, date: nat, hours: nat, minutes: nat, seconds: nat, milliseconds: nat)

  predicate IsMoment(m: Moment) {
    && m.month < 12 && 1 <= m.date <= 31
    && m.hours < 24 && m.minutes < 60 && m.seconds < 60 && m.milliseconds < 1000
  }

  /** Days told apart by one number. */
  function Day(m: Moment): nat {
    m.year * 400 + m.month * 32 + m.date
  }

  predicate SameDate(a: Moment, b: Moment) {
    a.year == b.year && a.month == b.month && a.date == b.date
  }

  /** The milliseconds since midnight. */
  function SinceMidnight(m: Moment): nat {
    1000 * (m.hours * 3600 + m.minutes * 60 + m.seconds) + m.milliseconds
  }

  /** The ticks since midnight, in whole numbers. */
  function Ticks(m: Moment): nat {
    SinceMidnight(m) * TICKS_A_DAY / 86400000
  }

  class Clock {
    var ax: word
    var cx: word
    var dx: word
    var clockDay: Option<nat>

    constructor ()
      ensures clockDay == None
    {
      ax, cx, dx := 0, 0, 0;
      clockDay := None;
    }

    /** Function 0: the ticks in CX:DX, and in AL whether a day has turned since it was last asked. */
    method Invoke(now: Moment)
      requires IsMoment(now)
      modifies this
      ensures old(ax) / 0x100 != 0 ==> ax == old(ax) && cx == old(cx) && dx == old(dx) && clockDay == old(clockDay)
      ensures old(ax) / 0x100 == 0 ==>
        && 0x1_0000 * cx as int + dx == Ticks(now) < TICKS_A_DAY
        && ax == Turned(old(clockDay), now)
        && clockDay == Some(Day(now))
    {
      hide Ticks, Day;
      if ax / 0x100 == 0 {
        var ticks := Ticks(now);
        TicksWithinDay(now);
        cx, dx := Halves(ticks).0, Halves(ticks).1;
        ax := if clockDay.Some? && clockDay.value != Day(now) then 1 else 0;
        clockDay := Some(Day(now));
      }
    }
  }

  /** A number's halves, the high one first. */
  function Halves(n: nat): (r: (word, word))
    ensures n < 0x1_0000_0000 ==> 0x1_0000 * r.0 as int + r.1 == n
  {
    (n / 0x1_0000 % 0x1_0000, n % 0x1_0000)
  }

  /** What AL is answered. */
  function Turned(clockDay: Option<nat>, now: Moment): word {
    if clockDay.Some? && clockDay.value != Day(now) then 1 else 0
  }

  lemma TicksWithinDay(m: Moment)
    requires IsMoment(m)
    ensures Ticks(m) < TICKS_A_DAY
  {
  }

  /** The ticks are how many whole ones of 1,573,040 a day the hours, minutes, seconds and milliseconds hold. */
  lemma TicksOfTheTime(m: Moment)
    ensures var t := Ticks(m);
      t * 86_400_000
      <= (3_600_000 * m.hours + 60_000 * m.minutes + 1000 * m.seconds + m.milliseconds) * 1_573_040
      < (t + 1) * 86_400_000
  {
    var total := 3_600_000 * m.hours + 60_000 * m.minutes + 1000 * m.seconds + m.milliseconds;
    assert SinceMidnight(m) == total;
  }

  /** Whether one moment of a day is another or before it, by the hour, then the minute, the second and the millisecond. */
  predicate NoLater(a: Moment, b: Moment) {
    || a.hours < b.hours
    || (a.hours == b.hours
        && (|| a.minutes < b.minutes
            || (a.minutes == b.minutes
                && (a.seconds < b.seconds || (a.seconds == b.seconds && a.milliseconds <= b.milliseconds)))))
  }

  /** The ticks never fall within a day. */
  lemma TicksRise(a: Moment, b: Moment)
    requires IsMoment(a) && IsMoment(b) && NoLater(a, b)
    ensures Ticks(a) <= Ticks(b)
  {
    assert SinceMidnight(a) <= SinceMidnight(b);
    TicksGrow(SinceMidnight(a), SinceMidnight(b));
  }

  lemma TicksGrow(x: nat, y: nat)
    requires x <= y
    ensures x * TICKS_A_DAY / 86400000 <= y * TICKS_A_DAY / 86400000
    ensures x + 1000 <= y ==> x * TICKS_A_DAY / 86400000 + 18 <= y * TICKS_A_DAY / 86400000
  {
  }

  /** And a second later there are at least eighteen more. */
  lemma ASecondLater(a: Moment, b: Moment)
    requires IsMoment(a) && IsMoment(b)
    requires a.hours * 3600 + a.minutes * 60 + a.seconds < b.hours * 3600 + b.minutes * 60 + b.seconds && a.milliseconds <= b.milliseconds
    ensures Ticks(a) + 18 <= Ticks(b)
  {
    assert SinceMidnight(a) + 1000 <= SinceMidnight(b);
    TicksGrow(SinceMidnight(a), SinceMidnight(b));
  }

  /** The number for a day is no other day's. */
  lemma DayIsTheDate(a: Moment, b: Moment)
    requires IsMoment(a) && IsMoment(b)
    ensures Day(a) == Day(b) <==> SameDate(a, b)
  {
    if a.year != b.year {
      var early, late := if a.year < b.year then a else b, if a.year < b.year then b else a;
      assert early.year * 400 + 400 <= late.year * 400;
      assert early.month * 32 + early.date <= 11 * 32 + 31;
    } else if a.month < b.month {
      assert a.month * 32 + 32 <= b.month * 32;
    } else if b.month < a.month {
      assert b.month * 32 + 32 <= a.month * 32;
    }
  }

  // ---------------------------------------------------------------- over a run of calls

  /** A call, of the function in AH, and when it was made. */
  datatype Call = Call(function_: byte, now: Moment)

  predicate AreCalls(calls: seq<Call>) {
    forall k :: 0 <= k < |calls| ==> IsMoment(calls[k].now)
  }

  /** The day kept after a run of calls. */
  function DayKept(calls: seq<Call>): Option<nat> {
    if calls == [] then None
    else
      var last := calls[|calls| - 1];
      if last.function_ == 0 then Some(Day(last.now)) else DayKept(calls[..|calls| - 1])
  }

  /** The last of the calls that asked for the clock, -1 for none. */
  function LastAsk(calls: seq<Call>): (last: int)
    ensures -1 <= last < |calls|
    ensures last >= 0 ==> calls[last].function_ == 0
    ensures forall k :: last < k < |calls| ==> calls[k].function_ != 0
  {
    if calls == [] then -1
    else if calls[|calls| - 1].function_ == 0 then |calls| - 1
    else LastAsk(calls[..|calls| - 1])
  }

  lemma {:induction false} DayKeptIsTheLast(calls: seq<Call>)
    ensures DayKept(calls) == if LastAsk(calls) < 0 then None else Some(Day(calls[LastAsk(calls)].now))
  {
    if calls != [] {
      DayKeptIsTheLast(calls[..|calls| - 1]);
    }
  }

  /** Over any run of calls, AL is 1 exactly when the date has changed since the clock was last asked for. */
  lemma {:induction false} TurnedExactly(calls: seq<Call>, now: Moment)
    requires AreCalls(calls) && IsMoment(now)
    ensures Turned(DayKept(calls), now) == 1
       <==> LastAsk(calls) >= 0 && !SameDate(calls[LastAsk(calls)].now, now)
    ensures Turned(DayKept(calls), now) in {0, 1}
  {
    DayKeptIsTheLast(calls);
    if LastAsk(calls) >= 0 {
      DayIsTheDate(calls[LastAsk(calls)].now, now);
    }
  }

  /** The clock's own calls, made one after another, answer as that run does. */
  method InvokeAll(clock: Clock, calls: seq<Call>) returns (answers: seq<(word, word, word)>)
    requires AreCalls(calls) && clock.clockDay == None
    modifies clock
    ensures |answers| == |calls| && clock.clockDay == DayKept(calls)
    ensures forall k :: 0 <= k < |calls| && calls[k].function_ == 0 ==>
      && answers[k].0 == Turned(DayKept(calls[..k]), calls[k].now)
      && 0x1_0000 * answers[k].1 as int + answers[k].2 == Ticks(calls[k].now) < TICKS_A_DAY
  {
    hide Ticks, Turned;
    answers := [];
    var i := 0;
    while i < |calls|
      invariant 0 <= i == |answers| <= |calls|
      invariant clock.clockDay == DayKept(calls[..i])
      invariant forall k :: 0 <= k < i && calls[k].function_ == 0 ==>
        && answers[k].0 == Turned(DayKept(calls[..k]), calls[k].now)
        && 0x1_0000 * answers[k].1 as int + answers[k].2 == Ticks(calls[k].now) < TICKS_A_DAY
    {
      clock.ax := 0x100 * calls[i].function_;
      clock.Invoke(calls[i].now);
      assert calls[..i + 1][..i] == calls[..i];
      answers := answers + [(clock.ax, clock.cx, clock.dx)];
      i := i + 1;
    }
    assert calls[..i] == calls;
  }
}
