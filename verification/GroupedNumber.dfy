/**
 * A number read with its thousands between commas (`shown` of
 * oracle/probes/about.c).
 */
module GroupedNumber {
  import opened Decimal

  /** A sum as a `long` of 32 bits keeps it. */
  function Long(x: int): (r: int)
    ensures -0x8000_0000 <= r < 0x8000_0000 && (r - x) % 0x1_0000_0000 == 0
  {
    var low := x % 0x1_0000_0000;
    if low < 0x8000_0000 then low else low - 0x1_0000_0000
  }

  /** Where a scan stops, with the number so far, its digits and those since a comma; or refuses. */
  datatype Scan = Refused | Stopped(rest: string, n: int, digits: nat, group: int)

  /** Whether a comma may come: after from one to three digits, and then after each three. */
  predicate CommaMay(digits: nat, group: int) {
    digits > 0 && (if group < 0 then digits <= 3 else group == 3)
  }

  function Scanned(text: string, n: int, digits: nat, group: int): Scan
    decreases |text|
  {
    if text == [] then Stopped(text, n, digits, group)
    else if IsDigit(text[0]) then
      if group >= 0 && group + 1 > 3 then Refused
      else Scanned(text[1..], Long(n * 10 + DigitValue(text[0])), digits + 1, if group >= 0 then group + 1 else group)
    else if text[0] == ',' && CommaMay(digits, group) then Scanned(text[1..], n, digits, 0)
    else Stopped(text, n, digits, group)
  }

  /** The number a scan answers, what stopped it being exactly what is to follow. */
  function Answered(scan: Scan, after: string): int {
    match scan
    case Refused => -1
    case Stopped(rest, n, digits, group) =>
      if digits == 0 || (group >= 0 && group != 3) || rest != after then -1 else n
  }

  method Shown(text: string, after: string) returns (r: int)
    ensures r == Answered(Scanned(text, 0, 0, -1), after)
  {
    var n, digits: nat, group := 0, 0, -1;
    var at := 0;
    while at < |text|
      invariant 0 <= at <= |text|
      invariant Scanned(text, 0, 0, -1) == Scanned(text[at..], n, digits, group)
      decreases |text| - at
    {
      assert text[at..][0] == text[at] && text[at..][1..] == text[at + 1..];
      if IsDigit(text[at]) {
        n := Long(n * 10 + DigitValue(text[at]));
        digits := digits + 1;
        if group >= 0 {
          group := group + 1;
          if group > 3 {
            return -1;
          }
        }
      } else if text[at] == ',' && digits > 0 && (if group < 0 then digits <= 3 else group == 3) {
        group := 0;
      } else {
        break;
      }
      at := at + 1;
    }
    if digits == 0 || (group >= 0 && group != 3) || text[at..] != after {
      return -1;
    }
    return n;
  }

  // ---------------------------------------------------------------- what a numeral is

  /** Threes of digits, a comma before each. */
  predicate AreThrees(text: string)
    decreases |text|
  {
    text == [] || (|text| >= 4 && text[0] == ',' && AreDigits(text[1..4]) && AreThrees(text[4..]))
  }

  predicate IsGrouped(text: string, first: nat) {
    1 <= first <= 3 && first < |text| && AreDigits(text[..first]) && AreThrees(text[first..])
  }

  /** Digits alone, or one to three and then threes between commas. */
  predicate IsNumeral(text: string) {
    (text != [] && AreDigits(text)) || exists first | 1 <= first <= 3 :: IsGrouped(text, first)
  }

  /** The number a numeral's digits make, its commas passed over, after a number so far. */
  function ValueOf(n: int, text: string): int
    decreases |text|
  {
    if text == [] then n
    else if IsDigit(text[0]) then ValueOf(n * 10 + DigitValue(text[0]), text[1..])
    else ValueOf(n, text[1..])
  }

  /** What the scan can go through to a numeral's end, so many digits and a group begun. */
  predicate Finishes(text: string, digits: nat, group: int)
    decreases |text|
  {
    if text == [] then digits > 0 && (group < 0 || group == 3)
    else if IsDigit(text[0]) then
      (group >= 0 ==> group + 1 <= 3) && Finishes(text[1..], digits + 1, if group >= 0 then group + 1 else group)
    else text[0] == ',' && CommaMay(digits, group) && Finishes(text[1..], digits, 0)
  }

  lemma LongOfLong(n: int, d: nat)
    ensures Long(Long(n) * 10 + d) == Long(n * 10 + d)
  {
    var k := (Long(n) - n) / 0x1_0000_0000;
    assert Long(n) == n + 0x1_0000_0000 * k;
    LongRepeats(n * 10 + d, 10 * k);
  }

  lemma LongRepeats(x: int, k: int)
    ensures Long(x + 0x1_0000_0000 * k) == Long(x)
  {
  }

  /** The digits and the group a scan comes to at a text's end. */
  function AtEnd(text: string, digits: nat, group: int): (nat, int)
    decreases |text|
  {
    if text == [] then (digits, group)
    else if IsDigit(text[0]) then AtEnd(text[1..], digits + 1, if group >= 0 then group + 1 else group)
    else AtEnd(text[1..], digits, 0)
  }

  /** What a scan does not go on into. */
  predicate Stops(after: string, at: (nat, int)) {
    after == [] || (!IsDigit(after[0]) && !(after[0] == ',' && CommaMay(at.0, at.1)))
  }

  /** What begins neither with a digit nor with a comma. */
  predicate EndsANumeral(after: string) {
    after == [] || (!IsDigit(after[0]) && after[0] != ',')
  }

  /** A scan answers a number exactly where it goes through to what follows, and the number is the digits'. */
  lemma {:induction false} ScanGoesThrough(text: string, n: int, digits: nat, group: int, after: string)
    requires Finishes(text, digits, group) && Stops(after, AtEnd(text, digits, group))
    ensures var scan := Scanned(text + after, Long(n), digits, group);
            && scan.Stopped? && scan.rest == after && scan.digits > 0 && (scan.group < 0 || scan.group == 3)
            && scan.n == Long(ValueOf(n, text))
    decreases |text|
  {
    var whole := text + after;
    if text == [] {
      assert whole == after;
    } else {
      assert whole[0] == text[0] && whole[1..] == text[1..] + after;
      if IsDigit(text[0]) {
        LongOfLong(n, DigitValue(text[0]));
        ScanGoesThrough(text[1..], n * 10 + DigitValue(text[0]), digits + 1, if group >= 0 then group + 1 else group, after);
      } else {
        ScanGoesThrough(text[1..], n, digits, 0, after);
      }
    }
  }

  lemma {:induction false} StopsAtANumeralsEnd(text: string, n: int, digits: nat, group: int) returns (through: string)
    requires var scan := Scanned(text, n, digits, group);
             scan.Stopped? && scan.digits > 0 && (scan.group < 0 || scan.group == 3)
    ensures text == through + Scanned(text, n, digits, group).rest
    ensures Finishes(through, digits, group)
    ensures Stops(Scanned(text, n, digits, group).rest, AtEnd(through, digits, group))
    decreases |text|
  {
    hide Long;
    if Stops(text, (digits, group)) {
      through := [];
    } else {
      var more;
      if IsDigit(text[0]) {
        more := StopsAtANumeralsEnd(text[1..], Long(n * 10 + DigitValue(text[0])), digits + 1,
                                    if group >= 0 then group + 1 else group);
      } else {
        more := StopsAtANumeralsEnd(text[1..], n, digits, 0);
      }
      through := [text[0]] + more;
      assert text == [text[0]] + text[1..] && through[1..] == more;
    }
  }

  // ------------------------------------------------ the scan's numerals are the grammar's

  lemma {:induction false} GroupFinishes(text: string, digits: nat, group: nat)
    requires digits > 0 && group <= 3
    ensures Finishes(text, digits, group)
       <==> |text| >= 3 - group && AreDigits(text[..3 - group]) && AreThrees(text[3 - group..])
    decreases |text|
  {
    if text != [] {
      if group == 3 {
        ThreesFinish(text, digits);
      } else if IsDigit(text[0]) {
        GroupFinishes(text[1..], digits + 1, group + 1);
        if |text| >= 3 - group {
          assert text[..3 - group] == [text[0]] + text[1..][..2 - group];
          assert text[1..][2 - group..] == text[3 - group..];
        }
      } else if |text| >= 3 - group {
        assert text[..3 - group][0] == text[0];
      }
    }
  }

  lemma {:induction false} ThreesFinish(text: string, digits: nat)
    requires digits > 0 && text != []
    ensures Finishes(text, digits, 3) <==> AreThrees(text)
    decreases |text|, 0
  {
    if text[0] == ',' {
      GroupFinishes(text[1..], digits, 0);
      if |text| >= 4 {
        assert text[1..][..3] == text[1..4] && text[1..][3..] == text[4..];
      }
    }
  }

  /** Digits to a comma and threes, so many having come before with no comma. */
  predicate IsGroupedAfter(text: string, digits: nat, more: nat) {
    more < |text| && 1 <= digits + more <= 3 && AreDigits(text[..more]) && AreThrees(text[more..])
  }

  lemma GroupedAfterOne(text: string, digits: nat, more: nat)
    requires text != [] && IsDigit(text[0])
    ensures IsGroupedAfter(text[1..], digits + 1, more) ==> IsGroupedAfter(text, digits, more + 1)
    ensures IsGroupedAfter(text, digits, more) ==> more > 0 && IsGroupedAfter(text[1..], digits + 1, more - 1)
  {
    hide AreThrees, AreDigits;
    if more < |text[1..]| {
      GroupedOneLater(text, digits, more);
    }
    if IsGroupedAfter(text, digits, more) {
      ThreesBegin(text, digits, more);
      GroupedOneLater(text, digits, more - 1);
    }
  }

  /** A digit before digits, and before what is grouped. */
  lemma GroupedOneLater(text: string, digits: nat, more: nat)
    requires text != [] && IsDigit(text[0]) && more < |text[1..]|
    ensures IsGroupedAfter(text[1..], digits + 1, more) <==> IsGroupedAfter(text, digits, more + 1)
  {
    hide AreThrees;
    var rest := text[1..];
    assert rest[more..] == text[more + 1..];
    var front := text[..more + 1];
    assert front == [text[0]] + rest[..more];
    assert AreDigits(front) <==> AreDigits(rest[..more]) by {
      if AreDigits(front) {
        forall k | 0 <= k < more ensures IsDigit(rest[..more][k]) {
          assert front[k + 1] == rest[..more][k];
        }
      }
    }
  }

  /** Threes do not begin with a digit. */
  lemma ThreesBegin(text: string, digits: nat, more: nat)
    requires text != [] && IsDigit(text[0]) && IsGroupedAfter(text, digits, more)
    ensures more > 0
  {
    assert text[more..][0] == text[more];
  }

  lemma {:induction false} UngroupedFinishes(text: string, digits: nat)
    ensures Finishes(text, digits, -1)
       <==> (AreDigits(text) && digits + |text| > 0) || exists more :: IsGroupedAfter(text, digits, more)
    decreases |text|
  {
    if text == [] {
    } else if IsDigit(text[0]) {
      var rest, next := text[1..], digits + 1;
      UngroupedFinishes(rest, next);
      assert text == [text[0]] + rest;
      if more: nat :| IsGroupedAfter(rest, next, more) {
        GroupedAfterOne(text, digits, more);
      }
      if more: nat :| IsGroupedAfter(text, digits, more) {
        GroupedAfterOne(text, digits, more);
      }
    } else {
      NoDigitFinishes(text, digits);
    }
  }

  lemma NoDigitFinishes(text: string, digits: nat)
    requires text != [] && !IsDigit(text[0])
    ensures Finishes(text, digits, -1) <==> exists more :: IsGroupedAfter(text, digits, more)
  {
    assert text[..0] == [] && text[0..] == text;
    if 1 <= digits <= 3 && text[0] == ',' {
      ThreesFinish(text, digits);
      assert Finishes(text, digits, -1) <==> Finishes(text, digits, 3);
      assert AreThrees(text) <==> IsGroupedAfter(text, digits, 0);
    }
    if more: nat :| IsGroupedAfter(text, digits, more) {
      if more > 0 {
        assert text[..more][0] == text[0];
      }
    }
  }

  /** From its start the scan goes through exactly the numerals. */
  lemma NumeralsFinish(text: string)
    ensures Finishes(text, 0, -1) <==> IsNumeral(text)
  {
    UngroupedFinishes(text, 0);
    if first: nat :| IsGroupedAfter(text, 0, first) {
      assert IsGrouped(text, first);
    }
    if first: nat :| 1 <= first <= 3 && IsGrouped(text, first) {
      assert IsGroupedAfter(text, 0, first);
    }
  }

  // ---------------------------------------------------------------- what is answered

  /** A text that is a numeral and then exactly what is to follow. */
  predicate IsShown(text: string, after: string) {
    && |after| <= |text| && text[|text| - |after|..] == after
    && IsNumeral(text[..|text| - |after|])
  }

  /** Whether a numeral ends where what follows it begins: not with a digit, and with a comma only after digits too many to group. */
  predicate EndsBefore(numeral: string, after: string) {
    after == [] || (!IsDigit(after[0]) && (after[0] == ',' ==> AreDigits(numeral) && |numeral| > 3))
  }

  lemma {:induction false} GroupedAtEnd(text: string, digits: nat, group: int)
    requires group >= 0
    ensures AtEnd(text, digits, group).1 >= 0
    decreases |text|
  {
    if text != [] {
      GroupedAtEnd(text[1..], if IsDigit(text[0]) then digits + 1 else digits, if IsDigit(text[0]) then group + 1 else 0);
    }
  }

  lemma {:induction false} UngroupedAtEnd(text: string, digits: nat)
    ensures if AreDigits(text) then AtEnd(text, digits, -1) == (digits + |text|, -1) else AtEnd(text, digits, -1).1 >= 0
    decreases |text|
  {
    if text != [] {
      assert text == [text[0]] + text[1..];
      if IsDigit(text[0]) {
        UngroupedAtEnd(text[1..], digits + 1);
      } else {
        GroupedAtEnd(text[1..], digits, 0);
      }
    }
  }

  lemma {:induction false} FinishesAtThree(text: string, digits: nat, group: int)
    requires Finishes(text, digits, group)
    ensures AtEnd(text, digits, group).0 > 0 && (AtEnd(text, digits, group).1 < 0 || AtEnd(text, digits, group).1 == 3)
    decreases |text|
  {
    if text != [] {
      FinishesAtThree(text[1..], if IsDigit(text[0]) then digits + 1 else digits,
                      if !IsDigit(text[0]) then 0 else if group >= 0 then group + 1 else group);
    }
  }

  lemma EndsWhereItStops(numeral: string, after: string)
    requires Finishes(numeral, 0, -1)
    ensures EndsBefore(numeral, after) <==> Stops(after, AtEnd(numeral, 0, -1))
  {
    hide AtEnd, Finishes;
    UngroupedAtEnd(numeral, 0);
    FinishesAtThree(numeral, 0, -1);
  }

  /**
   * Of every text and whatever is to follow, a number is answered exactly
   * where the text is a numeral that ends before it and then exactly what is
   * to follow: the numeral's number, in 32 bits. Else -1 is.
   */
  lemma AnsweredExactly(text: string, after: string)
    ensures Answered(Scanned(text, 0, 0, -1), after)
         == if IsShown(text, after) && EndsBefore(text[..|text| - |after|], after)
            then Long(ValueOf(0, text[..|text| - |after|])) else -1
  {
    hide Scanned, ValueOf, IsNumeral, Finishes, AtEnd, EndsBefore, Stops, AreDigits;
    var scan := Scanned(text, 0, 0, -1);
    if IsShown(text, after) && EndsBefore(text[..|text| - |after|], after) {
      var numeral := text[..|text| - |after|];
      NumeralsFinish(numeral);
      EndsWhereItStops(numeral, after);
      ScanGoesThrough(numeral, 0, 0, -1, after);
      assert numeral + after == text;
    } else if scan.Stopped? && scan.digits > 0 && (scan.group < 0 || scan.group == 3) && scan.rest == after {
      var through := StopsAtANumeralsEnd(text, 0, 0, -1);
      NumeralsFinish(through);
      EndsWhereItStops(through, after);
    }
  }

  /** What follows beginning with neither a digit nor a comma, every numeral followed by it is answered. */
  lemma ShownIsAnswered(text: string, after: string)
    requires EndsANumeral(after)
    ensures Answered(Scanned(text, 0, 0, -1), after)
         == if IsShown(text, after) then Long(ValueOf(0, text[..|text| - |after|])) else -1
  {
    hide Scanned, ValueOf, IsNumeral;
    AnsweredExactly(text, after);
  }

  // ---------------------------------------------------------------- grouped and read

  /** A number below a thousand in three digits. */
  function Three(n: nat): (text: string)
    requires n < 1000
    ensures |text| == 3 && AreDigits(text)
  {
    [('0' as int + n / 100) as char, ('0' as int + n / 10 % 10) as char, ('0' as int + n % 10) as char]
  }

  /** A number with commas between its thousands. */
  function WithCommas(n: nat): (text: string) {
    if n < 1000 then Printed(n) else WithCommas(n / 1000) + ("," + Three(n % 1000))
  }

  lemma {:induction false} ThreesOneMore(text: string, three: string)
    requires AreThrees(text) && |three| == 3 && AreDigits(three)
    ensures AreThrees(text + ("," + three))
    decreases |text|
  {
    var more := text + ("," + three);
    if text == [] {
      assert more[1..4] == three && more[4..] == [];
    } else {
      ThreesOneMore(text[4..], three);
      assert more[1..4] == text[1..4] && more[4..] == text[4..] + ("," + three);
    }
  }

  lemma GroupedOneMore(text: string, first: nat, three: string)
    requires |three| == 3 && AreDigits(three)
    requires IsGrouped(text, first) || (first == |text| && 1 <= first <= 3 && AreDigits(text))
    ensures IsGrouped(text + ("," + three), first)
  {
    var more := text + ("," + three);
    assert more[..first] == text[..first] && more[first..] == text[first..] + ("," + three);
    ThreesOneMore(text[first..], three);
  }

  lemma {:induction false} CommasAreGrouped(n: nat) returns (first: nat)
    ensures if n < 1000 then first == |WithCommas(n)| && 1 <= first <= 3 && AreDigits(WithCommas(n))
            else IsGrouped(WithCommas(n), first)
  {
    if n < 1000 {
      first := |Printed(n)|;
      PrintedUnderThousand(n);
    } else {
      first := CommasAreGrouped(n / 1000);
      GroupedOneMore(WithCommas(n / 1000), first, Three(n % 1000));
    }
  }

  lemma PrintedUnderThousand(n: nat)
    requires n < 1000
    ensures 1 <= |Printed(n)| <= 3
  {
    if n >= 10 {
      assert |Printed(n)| == |Printed(n / 10)| + 1;
      if n / 10 >= 10 {
        assert |Printed(n / 10)| == |Printed(n / 10 / 10)| + 1;
        assert |Printed(n / 10 / 10)| == 1;
      }
    }
  }

  lemma {:induction false} ValueOfBoth(n: int, a: string, b: string)
    ensures ValueOf(n, a + b) == ValueOf(ValueOf(n, a), b)
    decreases |a|
  {
    if a == [] {
      assert a + b == b;
    } else {
      assert (a + b)[0] == a[0] && (a + b)[1..] == a[1..] + b;
      ValueOfBoth(if IsDigit(a[0]) then n * 10 + DigitValue(a[0]) else n, a[1..], b);
    }
  }

  lemma {:induction false} ValueOfDigits(n: nat, digits: string)
    requires AreDigits(digits)
    ensures ValueOf(n, digits) == ValueAfter(n, digits)
    decreases |digits|
  {
    if digits != [] {
      ValueOfDigits(10 * n + DigitValue(digits[0]), digits[1..]);
    }
  }

  lemma ValueOfOne(n: int, c: char, rest: string)
    ensures ValueOf(n, [c] + rest) == if IsDigit(c) then ValueOf(n * 10 + DigitValue(c), rest) else ValueOf(n, rest)
  {
  }

  lemma ValueOfThree(n: int, three: nat)
    requires three < 1000
    ensures ValueOf(n, "," + Three(three)) == n * 1000 + three
  {
    hide ValueOf;
    var a, b, c := Three(three)[0], Three(three)[1], Three(three)[2];
    assert Three(three) == [a] + ([b] + ([c] + []));
    ValueOfOne(n, ',', Three(three));
    ValueOfOne(n, a, [b] + ([c] + []));
    ValueOfOne(n * 10 + DigitValue(a), b, [c] + []);
    ValueOfOne((n * 10 + DigitValue(a)) * 10 + DigitValue(b), c, []);
    NoValue(((n * 10 + DigitValue(a)) * 10 + DigitValue(b)) * 10 + DigitValue(c));
    ThreeDigits(three);
  }

  lemma NoValue(n: int)
    ensures ValueOf(n, []) == n
  {
  }

  lemma ThreeDigits(n: nat)
    requires n < 1000
    ensures n == 100 * (n / 100) + 10 * (n / 10 % 10) + n % 10
  {
  }

  lemma {:induction false} CommasValue(n: nat)
    ensures ValueOf(0, WithCommas(n)) == n
  {
    if n < 1000 {
      ValueOfDigits(0, Printed(n));
      PrintedReads(n);
    } else {
      CommasValue(n / 1000);
      ValueOfBoth(0, WithCommas(n / 1000), "," + Three(n % 1000));
      ValueOfThree(n / 1000, n % 1000);
    }
  }

  lemma CommasAreNumerals(n: nat)
    ensures IsNumeral(WithCommas(n))
  {
    var first := CommasAreGrouped(n);
  }

  /** Every number below 2 to the 31st, its thousands between commas, is read as itself. */
  lemma CommasRoundTrip(n: nat, after: string)
    requires n < 0x8000_0000 && EndsANumeral(after)
    ensures Answered(Scanned(WithCommas(n) + after, 0, 0, -1), after) == n
  {
    hide Scanned, ValueOf, WithCommas, IsNumeral;
    var text := WithCommas(n) + after;
    CommasAreNumerals(n);
    CommasValue(n);
    ShownIsAnswered(text, after);
    assert text[..|text| - |after|] == WithCommas(n) && text[|text| - |after|..] == after;
  }

  /** A number below a thousand has no comma, and any other the number of its thousands, a comma, and three digits more. */
  lemma WithCommasExactly(n: nat)
    ensures n < 1000 ==> WithCommas(n) == Printed(n)
    ensures n >= 1000 ==> WithCommas(n) == WithCommas(n / 1000) + "," + Printed(1000 + n % 1000)[1..]
  {
    if n >= 1000 {
      hide WithCommas;
      WithCommasMore(n);
      ThreePrinted(n % 1000);
      assert WithCommas(n / 1000) + ("," + Three(n % 1000)) == WithCommas(n / 1000) + "," + Three(n % 1000);
    }
  }

  lemma WithCommasMore(n: nat)
    requires n >= 1000
    ensures WithCommas(n) == WithCommas(n / 1000) + ("," + Three(n % 1000))
  {
  }

  lemma ThreePrinted(n: nat)
    requires n < 1000
    ensures Printed(1000 + n) == "1" + Three(n)
  {
    var m := 1000 + n;
    assert m / 10 == 100 + n / 10 && m / 100 == 10 + n / 100 && m / 1000 == 1;
    PrintedOnce(m);
    PrintedOnce(m / 10);
    PrintedOnce(m / 10 / 10);
    assert m / 10 / 10 / 10 == 1 && Printed(1) == "1";
  }

  lemma PrintedOnce(n: nat)
    requires n >= 10
    ensures Printed(n) == Printed(n / 10) + [('0' as int + n % 10) as char]
  {
  }
}
