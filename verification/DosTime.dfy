/**
 * The date and time a zip archive keeps for an entry (`dosTime` of
 * src/zip.ts; section 4.4.6 of PKWARE's APPNOTE.TXT), against the calendar
 * counted year by year and month by month.
 */
module DosTime {
  import opened Wrappers
  import opened Bytes

  // ---------------------------------------------------------------- the program

  /** The days from 1970 to a year's start, as `Date.UTC` reckons them. */
  function DayFromYear(year: int): int {
    365 * (year - 1970) + (year - 1969) / 4 - (year - 1901) / 100 + (year - 1601) / 400
  }

  predicate IsLeap(year: int) {
    year % 4 == 0 && (year % 100 != 0 || year % 400 == 0)
  }

  /** The days from a year's start to a month's, the first month 1. */
  function DayWithinYear(year: int, month: int): int
    requires 1 <= month <= 12
  {
    [0, 31, 59, 90, 120, 151, 181, 212, 243, 273, 304, 334][month - 1] + (if month > 2 && IsLeap(year) then 1 else 0)
  }

  /** What `dosTime` makes of an archive's two fields. */
  function FromDos(time: word, date: word): (r: Option<int>) {
    var month := date / 32 % 16;
    var day := date % 32;
    if month < 1 || month > 12 || day < 1 then None
    else
      var year := 1980 + date / 512;
      var days := DayFromYear(year) + DayWithinYear(year, month) + day - 1;
      Some(86400 * days + 3600 * (time / 2048) + 60 * (time / 32 % 64) + time % 32 * 2)
  }

  // ---------------------------------------------------------------- the calendar

  function YearLength(year: int): nat {
    if IsLeap(year) then 366 else 365
  }

  function MonthLength(year: int, month: int): nat
    requires 1 <= month <= 12
  {
    if month == 2 then (if IsLeap(year) then 29 else 28)
    else if month in {4, 6, 9, 11} then 30
    else 31
  }

  /** The days of the years from 1970 to one. */
  function DaysToYear(year: int): nat
    requires year >= 1970
  {
    if year == 1970 then 0 else DaysToYear(year - 1) + YearLength(year - 1)
  }

  /** The days of a year's months before one. */
  function DaysToMonth(year: int, month: int): nat
    requires 1 <= month <= 12
    decreases month
  {
    if month == 1 then 0 else DaysToMonth(year, month - 1) + MonthLength(year, month - 1)
  }

  /** A moment as the format can keep it: to two seconds, 1980 to 2107. */
  datatype Moment = Moment(year: int, month: int, day: int, hour: int, minute: int, second: int)

  predicate OnCalendar(m: Moment) {
    && 1980 <= m.year <= 2107 && 1 <= m.month <= 12 && 1 <= m.day <= MonthLength(m.year, m.month)
    && 0 <= m.hour < 24 && 0 <= m.minute < 60 && 0 <= m.second < 60 && m.second % 2 == 0
  }

  function DayNumber(m: Moment): int
    requires OnCalendar(m)
  {
    DaysToYear(m.year) + DaysToMonth(m.year, m.month) + m.day - 1
  }

  function Seconds(m: Moment): int
    requires OnCalendar(m)
  {
    86400 * DayNumber(m) + 3600 * m.hour + 60 * m.minute + m.second
  }

  function TimeField(m: Moment): word
    requires OnCalendar(m)
  {
    2048 * m.hour + 32 * m.minute + m.second / 2
  }

  function DateField(m: Moment): word
    requires OnCalendar(m)
  {
    512 * (m.year - 1980) + 32 * m.month + m.day
  }

  predicate Earlier(a: Moment, b: Moment) {
    || a.year < b.year
    || (a.year == b.year && a.month < b.month)
    || (a.year == b.year && a.month == b.month && a.day < b.day)
    || (a.year == b.year && a.month == b.month && a.day == b.day && a.hour < b.hour)
    || (a.year == b.year && a.month == b.month && a.day == b.day && a.hour == b.hour && a.minute < b.minute)
    || (a.year == b.year && a.month == b.month && a.day == b.day && a.hour == b.hour && a.minute == b.minute
        && a.second < b.second)
  }

  // ---------------------------------------------------------------- the proofs

  lemma FoursCounted(x: int)
    ensures (x + 1) / 4 == x / 4 + (if (x + 1) % 4 == 0 then 1 else 0)
  {
  }

  lemma HundredsCounted(x: int)
    ensures (x + 1) / 100 == x / 100 + (if (x + 1) % 100 == 0 then 1 else 0)
  {
  }

  lemma FourHundredsCounted(x: int)
    ensures (x + 1) / 400 == x / 400 + (if (x + 1) % 400 == 0 then 1 else 0)
  {
  }

  lemma YearCounted(year: int)
    ensures DayFromYear(year + 1) == DayFromYear(year) + YearLength(year)
  {
    FoursCounted(year - 1969);
    HundredsCounted(year - 1901);
    FourHundredsCounted(year - 1601);
    HundredsAreFours(year);
    FourHundredsAreHundreds(year);
  }

  lemma HundredsAreFours(year: int)
    ensures (year - 1900) % 100 == 0 <==> year % 100 == 0
    ensures year % 100 == 0 ==> year % 4 == 0
  {
  }

  lemma FourHundredsAreHundreds(year: int)
    ensures (year - 1600) % 400 == 0 <==> year % 400 == 0
    ensures year % 400 == 0 ==> year % 100 == 0
  {
    hide *;
    FourHundredsOn(year);
    FourHundredIsHundreds(year);
  }

  lemma FourHundredsOn(year: int)
    ensures (year - 1600) % 400 == year % 400
  {
    var q, r := year / 400, year % 400;
    assert year - 1600 == 400 * (q - 4) + r;
  }

  lemma FourHundredIsHundreds(year: int)
    ensures year % 400 == 0 ==> year % 100 == 0
  {
    var q := year / 400;
    assert year == 400 * q + year % 400;
    assert year % 400 == 0 ==> year == 100 * (4 * q);
  }

  /** The formula's years are the calendar's. */
  lemma {:induction false} YearsCounted(year: int)
    requires year >= 1970
    ensures DayFromYear(year) == DaysToYear(year)
  {
    if year > 1970 {
      YearsCounted(year - 1);
      YearCounted(year - 1);
    }
  }

  /** The table's months are the calendar's. */
  lemma {:induction false} MonthsCounted(year: int, month: int)
    requires 1 <= month <= 12
    ensures DayWithinYear(year, month) == DaysToMonth(year, month)
  {
    hide IsLeap;
    if month > 1 {
      MonthsCounted(year, month - 1);
    }
  }

  lemma FieldsOfDate(m: Moment)
    requires OnCalendar(m)
    ensures DateField(m) / 512 == m.year - 1980 && DateField(m) / 32 % 16 == m.month && DateField(m) % 32 == m.day
  {
    assert DateField(m) / 32 == 16 * (m.year - 1980) + m.month;
  }

  lemma FieldsOfTime(m: Moment)
    requires OnCalendar(m)
    ensures TimeField(m) / 2048 == m.hour && TimeField(m) / 32 % 64 == m.minute && TimeField(m) % 32 == m.second / 2
  {
    assert TimeField(m) / 32 == 64 * m.hour + m.minute;
  }

  /** What the program reads of a moment's two fields. */
  function ReadBack(m: Moment): Option<int>
    requires OnCalendar(m)
  {
    FromDos(TimeField(m), DateField(m))
  }

  /** Every moment on the calendar, put in the format's two fields, is read back as its seconds since 1970. */
  lemma ReadsWhatWasKept(m: Moment)
    requires OnCalendar(m)
    ensures ReadBack(m) == Some(Seconds(m))
  {
    FieldsOfDate(m);
    FieldsOfTime(m);
    YearsCounted(m.year);
    MonthsCounted(m.year, m.month);
  }

  /** None exactly when the month's field or the day's is out of range. */
  lemma NoneExactly(time: word, date: word)
    ensures FromDos(time, date) == None <==> date / 32 % 16 == 0 || date / 32 % 16 > 12 || date % 32 == 0
  {
  }

  lemma {:induction false} YearsIncrease(a: int, b: int)
    requires 1970 <= a < b
    ensures DaysToYear(a) + YearLength(a) <= DaysToYear(b)
    decreases b - a
  {
    if a + 1 < b {
      YearsIncrease(a, b - 1);
    }
  }

  lemma {:induction false} MonthsIncrease(year: int, a: int, b: int)
    requires 1 <= a < b <= 12
    ensures DaysToMonth(year, a) + MonthLength(year, a) <= DaysToMonth(year, b)
    decreases b - a
  {
    if a + 1 < b {
      MonthsIncrease(year, a, b - 1);
    }
  }

  /** A day falls within its year. */
  lemma DayWithinItsYear(m: Moment)
    requires OnCalendar(m)
    ensures DaysToYear(m.year) <= DayNumber(m) < DaysToYear(m.year) + YearLength(m.year)
  {
    if m.month < 12 {
      MonthsIncrease(m.year, m.month, 12);
    }
    MonthsCounted(m.year, 12);
  }

  lemma DaysIncrease(a: Moment, b: Moment)
    requires OnCalendar(a) && OnCalendar(b)
    requires a.year < b.year || (a.year == b.year && (a.month < b.month || (a.month == b.month && a.day < b.day)))
    ensures DayNumber(a) < DayNumber(b)
  {
    if a.year < b.year {
      YearsIncrease(a.year, b.year);
      DayWithinItsYear(a);
      DayWithinItsYear(b);
    } else if a.month < b.month {
      MonthsIncrease(a.year, a.month, b.month);
    }
  }

  /** Later moments are read as more seconds: no two are read alike, and none out of order. */
  lemma ReadInOrder(a: Moment, b: Moment)
    requires OnCalendar(a) && OnCalendar(b) && Earlier(a, b)
    ensures ReadBack(a).Some? && ReadBack(b).Some? && ReadBack(a).value < ReadBack(b).value
  {
    hide ReadBack;
    ReadsWhatWasKept(a);
    ReadsWhatWasKept(b);
    if a.year != b.year || a.month != b.month || a.day != b.day {
      hide DayNumber;
      DaysIncrease(a, b);
    }
  }

  /** The day after one, as the calendar turns. */
  function NextDay(m: Moment): Moment
    requires OnCalendar(m)
  {
    if m.day < MonthLength(m.year, m.month) then m.(day := m.day + 1)
    else if m.month < 12 then m.(month := m.month + 1, day := 1)
    else m.(year := m.year + 1, month := 1, day := 1)
  }

  /** A day later is read as a day's seconds more, over every month's end and leap day. */
  lemma NextDayIsADayMore(m: Moment)
    requires OnCalendar(m) && OnCalendar(NextDay(m))
    ensures ReadBack(m).Some? && ReadBack(NextDay(m)) == Some(ReadBack(m).value + 86400)
  {
    hide ReadBack, DayNumber;
    ReadsWhatWasKept(m);
    ReadsWhatWasKept(NextDay(m));
    NextDayNumber(m);
  }

  lemma NextDayNumber(m: Moment)
    requires OnCalendar(m) && OnCalendar(NextDay(m))
    ensures DayNumber(NextDay(m)) == DayNumber(m) + 1
  {
  }

  // ---------------------------------------------------------------- known moments

  /** The calendar's lengths. */
  lemma Lengths(year: int)
    ensures MonthLength(year, 1) == 31 && MonthLength(year, 3) == 31 && MonthLength(year, 4) == 30 && MonthLength(year, 5) == 31
    ensures MonthLength(year, 6) == 30 && MonthLength(year, 7) == 31 && MonthLength(year, 8) == 31 && MonthLength(year, 9) == 30
    ensures MonthLength(year, 10) == 31 && MonthLength(year, 11) == 30 && MonthLength(year, 12) == 31
    ensures MonthLength(year, 2) == if year % 4 == 0 && (year % 100 != 0 || year % 400 == 0) then 29 else 28
  {
  }

  /** Midnight as 1980 begins, two seconds before 2000, and one leap day's noon. */
  lemma KnownMoments()
    ensures FromDos(0, 0x0021) == Some(315_532_800)
    ensures FromDos(0xbf7d, 0x279f) == Some(946_684_798)
    ensures FromDos(0x6000, 0x285d) == Some(951_825_600)
  {
    hide FromDos, DayFromYear, DayWithinYear;
    DateOf(0, 0x0021, 1980, 1, 1);
    DateOf(0xbf7d, 0x279f, 1999, 12, 31);
    DateOf(0x6000, 0x285d, 2000, 2, 29);
    KnownDays();
  }

  lemma KnownDays()
    ensures DayFromYear(1980) == 3652 && DayFromYear(1999) == 10592 && DayFromYear(2000) == 10957
    ensures DayWithinYear(1980, 1) == 0 && DayWithinYear(1999, 12) == 334 && DayWithinYear(2000, 2) == 31
  {
  }

  lemma DateOf(time: word, date: word, year: int, month: int, day: int)
    requires 1 <= month <= 12 && 1 <= day <= 31 && date == 512 * (year - 1980) + 32 * month + day
    ensures FromDos(time, date)
         == Some(86400 * (DayFromYear(year) + DayWithinYear(year, month) + day - 1)
                 + time / 2048 * 3600 + time / 32 % 64 * 60 + time % 32 * 2)
  {
    hide DayFromYear, DayWithinYear;
    var years := year - 1980;
    DateDigits(date, years, month, day);
  }

  lemma DateDigits(date: word, years: int, month: int, day: int)
    requires 1 <= month <= 12 && 1 <= day <= 31 && date == 512 * years + 32 * month + day
    ensures date % 32 == day && date / 32 % 16 == month && date / 512 == years
  {
    assert years >= 0;
    Divided(date, 32, 16 * years + month, day);
    Divided(16 * years + month, 16, years, month);
    Divided(date, 512, years, 32 * month + day);
  }

  /** The time's field: five bits of hours, six of minutes and five of twos of seconds. */
  lemma TimesOfADay(time: word, date: word)
    requires FromDos(0, date).Some?
    ensures FromDos(time, date)
         == Some(FromDos(0, date).value + time / 2048 * 3600 + time / 32 % 64 * 60 + time % 32 * 2)
  {
  }
}
