/**
 * A row of the screen written as runs: with separators (`capture` of
 * oracle/probes/alttab.c) and without (`pixels` of oracle/probes/choosclr.c).
 */
module ScreenRuns {
  import opened Wrappers
  import opened Bytes
  import opened Decimal

  /** No pixel's: what stands before a row and after it. */
  const NO_PIXEL := '\0'

  datatype Run = Run(pixel: char, count: nat)

  function Ended(last: char, count: nat): seq<Run> {
    if count > 0 then [Run(last, count)] else []
  }

  /** The runs of a row's rest, from one of so many begun. */
  function RunsFrom(last: char, count: nat, rest: string): seq<Run>
    decreases |rest|
  {
    if rest == [] then Ended(last, count)
    else if rest[0] == last then RunsFrom(last, count + 1, rest[1..])
    else Ended(last, count) + RunsFrom(rest[0], 1, rest[1..])
  }

  function RunsOf(row: string): seq<Run> {
    RunsFrom(NO_PIXEL, 0, row)
  }

  /** A row of pixels: none the mark that stands for none. */
  predicate IsRow(row: string) {
    forall k :: 0 <= k < |row| ==> row[k] != NO_PIXEL
  }

  // ---------------------------------------------------------------- colours

  const LETTERS := "abcdefghijklmnop"
  const HEX := "0123456789abcdef"
  const UNKNOWN := '?'

  const SHADES := 16

  /** The sixteen colours told apart, whatever they are. */
  type Palette = p: seq<dword> | |p| == SHADES
    witness [0, 0, 0, 0, 0, 0, 0, 0, 0, 0, 0, 0, 0, 0, 0, 0]

  /** A colour's place in the palette, its length for none. */
  function PlaceFrom(palette: Palette, colour: dword, index: nat): (k: nat)
    requires index <= SHADES
    ensures index <= k <= SHADES
    ensures k < SHADES ==> palette[k] == colour % 0x100_0000
    ensures forall j :: index <= j < k ==> palette[j] != colour % 0x100_0000
    decreases SHADES - index
  {
    if index == SHADES || palette[index] == colour % 0x100_0000 then index else PlaceFrom(palette, colour, index + 1)
  }

  predicate AreShades(shades: string) {
    shades == LETTERS || shades == HEX
  }

  /** What stands for a colour. */
  function Shade(palette: Palette, colour: dword, shades: string): char
    requires AreShades(shades)
  {
    var k := PlaceFrom(palette, colour, 0);
    if k < SHADES then shades[k] else UNKNOWN
  }

  function Shades(palette: Palette, colours: seq<dword>, shades: string): (row: string)
    requires AreShades(shades)
    ensures |row| == |colours|
    ensures forall k :: 0 <= k < |row| ==> row[k] == Shade(palette, colours[k], shades)
  {
    seq(|colours|, k requires 0 <= k < |colours| => Shade(palette, colours[k], shades))
  }

  method ReadShade(palette: Palette, colour: dword, shades: string) returns (shade: char)
    requires AreShades(shades)
    ensures shade == Shade(palette, colour, shades)
  {
    var index := 0;
    while index < SHADES
      invariant 0 <= index <= SHADES
      invariant PlaceFrom(palette, colour, 0) == PlaceFrom(palette, colour, index)
    {
      if palette[index] == colour % 0x100_0000 {
        return shades[index];
      }
      index := index + 1;
    }
    return UNKNOWN;
  }

  lemma ShadesDiffer(shades: string)
    requires AreShades(shades)
    ensures |shades| == SHADES && forall j, k :: 0 <= j < k < SHADES ==> shades[j] != shades[k]
    ensures forall k :: 0 <= k < SHADES ==>
      shades[k] != UNKNOWN && shades[k] != NO_PIXEL && (shades == LETTERS ==> !IsDigit(shades[k]))
  {
  }

  /** What stands for a colour is no end mark, is a letter or the unknown's mark in the one set, and tells the colour's place. */
  lemma ShadeTells(palette: Palette, a: dword, b: dword, shades: string)
    requires AreShades(shades)
    ensures Shade(palette, a, shades) != NO_PIXEL && (shades == LETTERS ==> !IsDigit(Shade(palette, a, shades)))
    ensures Shade(palette, a, shades) == Shade(palette, b, shades) <==> PlaceFrom(palette, a, 0) == PlaceFrom(palette, b, 0)
  {
    hide PlaceFrom, AreShades;
    ShadesDiffer(shades);
  }

  /** A colour's character: by the first of the palette's that is its red, green and blue, and a question mark for none. */
  lemma ShadeExactly(palette: Palette, colour: dword)
    ensures (forall j :: 0 <= j < 16 ==> palette[j] != colour % 0x100_0000) ==>
      Shade(palette, colour, LETTERS) == '?' && Shade(palette, colour, HEX) == '?'
    ensures forall k :: 0 <= k < 16 && palette[k] == colour % 0x100_0000 && (forall j :: 0 <= j < k ==> palette[j] != colour % 0x100_0000) ==>
      Shade(palette, colour, LETTERS) == "abcdefghijklmnop"[k] && Shade(palette, colour, HEX) == "0123456789abcdef"[k]
  {
    var at := PlaceFrom(palette, colour, 0);
  }

  lemma ShadesAreARow(palette: Palette, colours: seq<dword>, shades: string)
    requires AreShades(shades)
    ensures IsRow(Shades(palette, colours, shades))
    ensures shades == LETTERS ==> HasNoDigit(Shades(palette, colours, shades))
  {
    hide Shade;
    forall k | 0 <= k < |colours|
      ensures Shades(palette, colours, shades)[k] != NO_PIXEL && (shades == LETTERS ==> !IsDigit(Shades(palette, colours, shades)[k]))
    {
      ShadeTells(palette, colours[k], colours[k], shades);
    }
  }

  predicate HasNoDigit(row: string) {
    forall k :: 0 <= k < |row| ==> !IsDigit(row[k])
  }

  /** Two rows of colours alike but for colours that are not in the palette. */
  predicate AreAlike(palette: Palette, a: seq<dword>, b: seq<dword>) {
    |a| == |b| && forall k :: 0 <= k < |a| ==> PlaceFrom(palette, a[k], 0) == PlaceFrom(palette, b[k], 0)
  }

  lemma SameShadesAreAlike(palette: Palette, a: seq<dword>, b: seq<dword>, shades: string)
    requires AreShades(shades)
    ensures Shades(palette, a, shades) == Shades(palette, b, shades) <==> AreAlike(palette, a, b)
  {
    hide Shade, PlaceFrom;
    var x, y := Shades(palette, a, shades), Shades(palette, b, shades);
    if |a| == |b| {
      forall k | 0 <= k < |a| ensures x[k] == y[k] <==> PlaceFrom(palette, a[k], 0) == PlaceFrom(palette, b[k], 0) {
        ShadeTells(palette, a[k], b[k], shades);
      }
    }
  }

  // ---------------------------------------------------------------- what runs are

  function Expanded(runs: seq<Run>): string
    decreases |runs|
  {
    if runs == [] then [] else Repeated(runs[0].pixel, runs[0].count) + Expanded(runs[1..])
  }

  function Total(runs: seq<Run>): nat
    decreases |runs|
  {
    if runs == [] then 0 else runs[0].count + Total(runs[1..])
  }

  /** Runs of at least one pixel each, none the same as the next. */
  predicate AreMaximal(runs: seq<Run>) {
    && (forall k :: 0 <= k < |runs| ==> runs[k].count > 0)
    && (forall k :: 0 <= k < |runs| - 1 ==> runs[k].pixel != runs[k + 1].pixel)
  }

  lemma ExpandedEnded(last: char, count: nat, runs: seq<Run>)
    ensures Expanded(Ended(last, count) + runs) == Repeated(last, count) + Expanded(runs)
    ensures Total(Ended(last, count) + runs) == count + Total(runs)
  {
    if count > 0 {
      assert (Ended(last, count) + runs)[1..] == runs;
    } else {
      assert Ended(last, count) + runs == runs;
      assert Repeated(last, 0) + Expanded(runs) == Expanded(runs);
    }
  }

  lemma {:induction false} RunsExpand(last: char, count: nat, rest: string)
    ensures Expanded(RunsFrom(last, count, rest)) == Repeated(last, count) + rest
    ensures Total(RunsFrom(last, count, rest)) == count + |rest|
    decreases |rest|
  {
    if rest == [] {
      ExpandedEnded(last, count, []);
      assert Ended(last, count) + [] == Ended(last, count);
    } else if rest[0] == last {
      RunsExpand(last, count + 1, rest[1..]);
      assert Repeated(last, count + 1) + rest[1..] == Repeated(last, count) + rest;
    } else {
      RunsExpand(rest[0], 1, rest[1..]);
      ExpandedEnded(last, count, RunsFrom(rest[0], 1, rest[1..]));
      assert Repeated(rest[0], 1) + rest[1..] == rest;
    }
  }

  lemma {:induction false} RunsMaximal(last: char, count: nat, rest: string)
    requires IsRow(rest) && (count == 0 ==> last == NO_PIXEL)
    ensures AreMaximal(RunsFrom(last, count, rest))
    ensures count > 0 ==> RunsFrom(last, count, rest) != [] && RunsFrom(last, count, rest)[0].pixel == last
    decreases |rest|
  {
    if rest != [] {
      assert IsRow(rest[1..]);
      if rest[0] == last {
        RunsMaximal(last, count + 1, rest[1..]);
      } else {
        RunsMaximal(rest[0], 1, rest[1..]);
      }
    }
  }

  lemma {:induction false} CountsWithin(runs: seq<Run>)
    ensures forall k :: 0 <= k < |runs| ==> runs[k].count <= Total(runs)
    decreases |runs|
  {
    if runs != [] {
      CountsWithin(runs[1..]);
      assert forall k :: 1 <= k < |runs| ==> runs[k] == runs[1..][k - 1];
    }
  }

  /** A row's runs are maximal, add up to its width, none more than it, and spell it out again. */
  lemma RunsAreTheRow(row: string)
    requires IsRow(row)
    ensures Expanded(RunsOf(row)) == row && Total(RunsOf(row)) == |row| && AreMaximal(RunsOf(row))
    ensures forall k :: 0 <= k < |RunsOf(row)| ==> RunsOf(row)[k].count <= |row|
  {
    CountsWithin(RunsOf(row));
    RunsExpand(NO_PIXEL, 0, row);
    RunsMaximal(NO_PIXEL, 0, row);
    assert Repeated(NO_PIXEL, 0) + row == row;
  }

  // ---------------------------------------------------------------- with separators

  function Starred(run: Run): string {
    [run.pixel] + (if run.count > 1 then "*" + Printed(run.count) else "")
  }

  /** Runs written after a text, a comma before each but at its start. */
  function WrittenAfter(text: string, runs: seq<Run>): string
    decreases |runs|
  {
    if runs == [] then text
    else WrittenAfter(text + (if text != [] then "," else "") + Starred(runs[0]), runs[1..])
  }

  lemma WrittenOne(text: string, run: Run, rest: seq<Run>)
    ensures WrittenAfter(text, [run] + rest)
         == WrittenAfter(text + (if text != [] then "," else "") + Starred(run), rest)
  {
  }

  /** A run written: its separator, its pixel, and its count where more than one. */
  method WriteRun(before: string, last: char, count: nat) returns (text: string)
    ensures text == before + (if before != [] then "," else "") + Starred(Run(last, count))
  {
    text := before;
    if text != [] {
      text := text + ",";
    }
    text := text + [last];
    if count > 1 {
      text := text + "*" + Printed(count);
      assert text == before + (if before != [] then "," else "") + ([last] + ("*" + Printed(count)));
    }
  }

  /** A row's pixels, and then the mark past its end, each a run's last or the next one's first. */
  method Capture(palette: Palette, colours: seq<dword>) returns (text: string)
    ensures text == WrittenAfter([], RunsOf(Shades(palette, colours, HEX)))
  {
    hide Starred, Shade, RunsFrom;
    text := [];
    var last := NO_PIXEL;
    var count: nat := 0;
    var x := 0;
    ghost var row := Shades(palette, colours, HEX);
    ShadesAreARow(palette, colours, HEX);
    assert row[0..] == row;
    while x <= |colours|
      invariant 0 <= x <= |row| + 1
      invariant x <= |row| ==> (count == 0 <==> last == NO_PIXEL)
      invariant WrittenAfter([], RunsOf(row))
             == if x <= |row| then WrittenAfter(text, RunsFrom(last, count, row[x..])) else text
    {
      var one := NO_PIXEL;
      if x < |colours| {
        one := ReadShade(palette, colours[x], HEX);
      }
      RunsAt(row, x, last, count);
      ghost var rest := if x < |row| then RunsFrom(one, 1, row[x + 1..]) else [];
      if one == last {
        count := count + 1;
      } else {
        if count > 0 {
          WrittenOne(text, Run(last, count), rest);
          text := WriteRun(text, last, count);
        }
        last := one;
        count := 1;
      }
      x := x + 1;
    }
  }

  /** The runs from a place in a row: the run begun goes on, or ends there. */
  lemma RunsAt(row: string, x: nat, last: char, count: nat)
    requires x <= |row| && IsRow(row) && (count == 0 <==> last == NO_PIXEL)
    ensures x < |row| && row[x] == last ==> RunsFrom(last, count, row[x..]) == RunsFrom(last, count + 1, row[x + 1..])
    ensures x < |row| && row[x] != last && count > 0 ==>
      RunsFrom(last, count, row[x..]) == [Run(last, count)] + RunsFrom(row[x], 1, row[x + 1..])
    ensures x < |row| && row[x] != last && count == 0 ==> RunsFrom(last, count, row[x..]) == RunsFrom(row[x], 1, row[x + 1..])
    ensures x == |row| ==> RunsFrom(last, count, row[x..]) == if count > 0 then [Run(last, count)] + [] else []
  {
    if x < |row| {
      assert row[x..][0] == row[x] && row[x..][1..] == row[x + 1..];
      assert [] + RunsFrom(row[x], 1, row[x + 1..]) == RunsFrom(row[x], 1, row[x + 1..]);
    } else {
      assert row[x..] == [] && [Run(last, count)] + [] == [Run(last, count)];
    }
  }

  // ------------------------------------------------ read back, with separators

  /** What is left of a row after its first run, each run after a comma. */
  function Tailed(runs: seq<Run>): string
    decreases |runs|
  {
    if runs == [] then "" else "," + Starred(runs[0]) + Tailed(runs[1..])
  }

  lemma {:induction false} WrittenIsTailed(text: string, runs: seq<Run>)
    requires text != []
    ensures WrittenAfter(text, runs) == text + Tailed(runs)
    decreases |runs|
  {
    if runs == [] {
      assert text + "" == text;
    } else {
      var more := text + "," + Starred(runs[0]);
      WrittenIsTailed(more, runs[1..]);
      assert more + Tailed(runs[1..]) == text + ("," + Starred(runs[0]) + Tailed(runs[1..]));
    }
  }

  /** A run, its count after a star or one, then the runs after it. */
  function DecodeRun(text: string): (row: Option<string>)
    decreases |text|, 1
  {
    if text == [] then None
    else if |text| > 1 && text[1] == '*' then
      var digits := DigitsAhead(text[2..]);
      match DecodeTail(text[2 + digits..])
      case Some(rest) => Some(Repeated(text[0], ValueAfter(0, text[2..][..digits])) + rest)
      case None => None
    else
      match DecodeTail(text[1..])
      case Some(rest) => Some([text[0]] + rest)
      case None => None
  }

  function DecodeTail(text: string): (row: Option<string>)
    decreases |text|, 0
  {
    if text == [] then Some([]) else if text[0] == ',' then DecodeRun(text[1..]) else None
  }

  /** A written row read back: runs between commas. */
  function Decode(text: string): Option<string> {
    if text == [] then Some([]) else DecodeRun(text)
  }

  predicate HaveCounts(runs: seq<Run>) {
    forall k :: 0 <= k < |runs| ==> runs[k].count > 0
  }

  lemma StarredReads(run: Run, rest: string)
    requires run.count > 0 && (rest != [] ==> rest[0] == ',')
    ensures DecodeRun(Starred(run) + rest)
         == match DecodeTail(rest) case Some(row) => Some(Repeated(run.pixel, run.count) + row) case None => None
  {
    hide Printed, ValueAfter, DigitsAhead, AreDigits;
    var text := Starred(run) + rest;
    if run.count > 1 {
      var digits := Printed(run.count);
      assert text[2..] == digits + rest;
      DigitsThenNone(digits, rest);
      PrintedReads(run.count);
      assert (digits + rest)[..|digits|] == digits && text[2 + |digits|..] == rest;
    } else {
      assert text[1..] == rest;
      assert Repeated(run.pixel, 1) == [run.pixel];
    }
  }

  lemma {:induction false} TailReads(runs: seq<Run>)
    requires HaveCounts(runs)
    ensures DecodeTail(Tailed(runs)) == Some(Expanded(runs))
    decreases |runs|
  {
    hide Starred, DecodeRun;
    if runs != [] {
      TailReads(runs[1..]);
      var rest := Tailed(runs[1..]);
      StarredReads(runs[0], rest);
      assert Tailed(runs)[1..] == Starred(runs[0]) + rest;
    }
  }

  /** Every row captured is read back. */
  lemma CaptureRoundTrip(row: string)
    requires IsRow(row)
    ensures Decode(WrittenAfter([], RunsOf(row))) == Some(row)
  {
    RunsAreTheRow(row);
    var runs := RunsOf(row);
    hide RunsFrom, DecodeRun, IsRow;
    if runs != [] {
      var first := Starred(runs[0]);
      assert [] + "" + first == first;
      WrittenIsTailed(first, runs[1..]);
      StarredReads(runs[0], Tailed(runs[1..]));
      TailReads(runs[1..]);
    }
  }

  // ---------------------------------------------------------------- without separators

  function Counted(run: Run): string {
    [run.pixel] + (if run.count > 1 then Printed(run.count) else "")
  }

  function Written(runs: seq<Run>): string
    decreases |runs|
  {
    if runs == [] then "" else Counted(runs[0]) + Written(runs[1..])
  }

  lemma WrittenFirst(run: Run, rest: seq<Run>)
    ensures Written([run] + rest) == Counted(run) + Written(rest)
  {
  }

  method Pixels(palette: Palette, colours: seq<dword>) returns (out: string)
    ensures out == Written(RunsOf(Shades(palette, colours, LETTERS)))
  {
    hide Counted, Shade, RunsFrom;
    out := [];
    var last := NO_PIXEL;
    var count: nat := 0;
    var x := 0;
    ghost var row := Shades(palette, colours, LETTERS);
    ShadesAreARow(palette, colours, LETTERS);
    assert row[0..] == row;
    WrittenTo([], RunsOf(row));
    while x <= |colours|
      invariant 0 <= x <= |row| + 1
      invariant x <= |row| ==> (count == 0 <==> last == NO_PIXEL)
      invariant Written(RunsOf(row)) == if x <= |row| then out + Written(RunsFrom(last, count, row[x..])) else out
    {
      var now := NO_PIXEL;
      if x < |colours| {
        now := ReadShade(palette, colours[x], LETTERS);
      }
      RunsAt(row, x, last, count);
      ghost var rest := if x < |row| then RunsFrom(now, 1, row[x + 1..]) else [];
      if now == last {
        WrittenTo(out, []);
        count := count + 1;
      } else {
        if count > 0 {
          var counted := WriteCounted(last, count);
          WrittenOnce(out, Run(last, count), rest);
          out := out + counted;
        }
        WrittenTo(out, []);
        last := now;
        count := 1;
      }
      x := x + 1;
    }
  }

  lemma WrittenTo(out: string, runs: seq<Run>)
    ensures [] + Written(runs) == Written(runs) && out + Written([]) == out
  {
  }

  lemma WrittenOnce(out: string, run: Run, rest: seq<Run>)
    ensures out + Written([run] + rest) == out + Counted(run) + Written(rest)
  {
    hide Counted;
    WrittenFirst(run, rest);
    assert out + (Counted(run) + Written(rest)) == out + Counted(run) + Written(rest);
  }

  /** A run written: its pixel, and its count where more than one. */
  method WriteCounted(last: char, count: nat) returns (text: string)
    ensures text == Counted(Run(last, count))
  {
    text := [last];
    if count > 1 {
      text := text + Printed(count);
    }
  }

  /** A written row read back: each pixel with the digits after it, none for one. */
  function DecodeCounted(text: string): string
    decreases |text|
  {
    if text == [] then []
    else
      var digits := DigitsAhead(text[1..]);
      Repeated(text[0], if digits == 0 then 1 else ValueAfter(0, text[1..][..digits]))
      + DecodeCounted(text[1 + digits..])
  }

  /** Runs of pixels that are not written as digits. */
  predicate HaveLetters(runs: seq<Run>) {
    forall k :: 0 <= k < |runs| ==> runs[k].count > 0 && !IsDigit(runs[k].pixel)
  }

  lemma CountedReads(run: Run, rest: string)
    requires run.count > 0 && (rest != [] ==> !IsDigit(rest[0]))
    ensures DecodeCounted(Counted(run) + rest) == Repeated(run.pixel, run.count) + DecodeCounted(rest)
  {
    hide Printed, ValueAfter, DigitsAhead, AreDigits;
    var text := Counted(run) + rest;
    var digits := if run.count > 1 then Printed(run.count) else "";
    assert text[1..] == digits + rest;
    DigitsThenNone(digits, rest);
    PrintedReads(run.count);
    assert (digits + rest)[..|digits|] == digits && text[1 + |digits|..] == rest;
  }

  lemma {:induction false} WrittenReads(runs: seq<Run>)
    requires HaveLetters(runs)
    ensures DecodeCounted(Written(runs)) == Expanded(runs)
    ensures runs != [] ==> Written(runs) != [] && !IsDigit(Written(runs)[0])
    decreases |runs|
  {
    if runs != [] {
      WrittenReads(runs[1..]);
      CountedReads(runs[0], Written(runs[1..]));
    }
  }

  /** The pixels of runs that expand to a row are the row's. */
  lemma {:induction false} PixelsAreOfRow(runs: seq<Run>, row: string)
    requires Expanded(runs) == row && HaveCounts(runs) && HasNoDigit(row)
    ensures HaveLetters(runs)
    decreases |runs|
  {
    if runs != [] {
      var first := runs[0];
      assert row[0] == Repeated(first.pixel, first.count)[0];
      assert forall k :: 0 <= k < |Expanded(runs[1..])| ==> Expanded(runs[1..])[k] == row[first.count + k];
      PixelsAreOfRow(runs[1..], Expanded(runs[1..]));
    }
  }

  /** A row without digits is read back from its runs, though nothing is between them. */
  lemma NoDigitsRoundTrip(row: string)
    requires IsRow(row) && HasNoDigit(row)
    ensures DecodeCounted(Written(RunsOf(row))) == row
  {
    RunsAreTheRow(row);
    PixelsAreOfRow(RunsOf(row), row);
    WrittenReads(RunsOf(row));
  }

  /** Every row of colours is read back as what stands for them: the letters are no digits. */
  lemma PixelsRoundTrip(palette: Palette, colours: seq<dword>)
    ensures DecodeCounted(Written(RunsOf(Shades(palette, colours, LETTERS)))) == Shades(palette, colours, LETTERS)
  {
    hide Shade, Written, RunsOf, DecodeCounted;
    ShadesAreARow(palette, colours, LETTERS);
    NoDigitsRoundTrip(Shades(palette, colours, LETTERS));
  }

  /** So rows are written alike exactly when their colours are alike, in either code. */
  lemma WrittenAlikeExactly(palette: Palette, a: seq<dword>, b: seq<dword>)
    ensures Written(RunsOf(Shades(palette, a, LETTERS))) == Written(RunsOf(Shades(palette, b, LETTERS))) <==> AreAlike(palette, a, b)
    ensures WrittenAfter([], RunsOf(Shades(palette, a, HEX))) == WrittenAfter([], RunsOf(Shades(palette, b, HEX))) <==> AreAlike(palette, a, b)
  {
    hide Shades, Written, WrittenAfter, RunsOf, DecodeCounted, Decode, AreAlike, IsRow, HasNoDigit;
    PixelsRoundTrip(palette, a);
    PixelsRoundTrip(palette, b);
    SameShadesAreAlike(palette, a, b, LETTERS);
    ShadesAreARow(palette, a, HEX);
    ShadesAreARow(palette, b, HEX);
    CaptureRoundTrip(Shades(palette, a, HEX));
    CaptureRoundTrip(Shades(palette, b, HEX));
    SameShadesAreAlike(palette, a, b, HEX);
  }

  /** A pixel and three of another, in either code. */
  lemma WrittenOut()
    ensures WrittenAfter([], RunsOf("0fff")) == "0,f*3" && Written(RunsOf("abbb")) == "ab3"
  {
    hide RunsOf;
    OneAndThree('0', 'f');
    OneAndThree('a', 'b');
    PrintedExactly(3);
    assert [Run('0', 1), Run('f', 3)][1..] == [Run('f', 3)] && [Run('f', 3)][1..] == [];
    assert [Run('a', 1), Run('b', 3)][1..] == [Run('b', 3)] && [Run('b', 3)][1..] == [];
    assert Starred(Run('0', 1)) == "0" && Starred(Run('f', 3)) == "f*3";
    assert Counted(Run('a', 1)) == "a" && Counted(Run('b', 3)) == "b3";
  }

  lemma OneAndThree(x: char, y: char)
    requires x != y && x != NO_PIXEL && y != NO_PIXEL
    ensures RunsOf([x, y, y, y]) == [Run(x, 1), Run(y, 3)]
  {
    var row := [x, y, y, y];
    RunsAt(row, 0, NO_PIXEL, 0);
    RunsAt(row, 1, x, 1);
    RunsAt(row, 2, y, 1);
    RunsAt(row, 3, y, 2);
    RunsAt(row, 4, y, 3);
    assert row[0..] == row;
  }

  /** Were a pixel written as a digit, two rows could be written alike. */
  lemma DigitPixelsAreAmbiguous()
    ensures "a2" != "aa" && IsRow("a2") && IsRow("aa") && Written(RunsOf("a2")) == Written(RunsOf("aa"))
  {
  }
}
