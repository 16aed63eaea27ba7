/** Numbers as their decimal digits, the way a program prints one and reads one back. */
module Decimal {
  predicate IsDigit(c: char) {
    '0' <= c <= '9'
  }

  function DigitValue(c: char): nat
    requires IsDigit(c)
  {
    c as int - '0' as int
  }

  predicate AreDigits(text: string) {
    forall k :: 0 <= k < |text| ==> IsDigit(text[k])
  }

  /** A number printed. */
  function Printed(n: nat): (text: string)
    ensures text != [] && AreDigits(text)
  {
    if n < 10 then [('0' as int + n) as char] else Printed(n / 10) + [('0' as int + n % 10) as char]
  }

  /** Digits read from the left, after a number read so far. */
  function ValueAfter(n: nat, digits: string): nat
    requires AreDigits(digits)
    decreases |digits|
  {
    if digits == [] then n else ValueAfter(10 * n + DigitValue(digits[0]), digits[1..])
  }

  lemma {:induction false} ValueOfTwo(n: nat, a: string, b: string)
    requires AreDigits(a) && AreDigits(b)
    ensures ValueAfter(n, a + b) == ValueAfter(ValueAfter(n, a), b)
    decreases |a|
  {
    if a == [] {
      assert a + b == b;
    } else {
      assert (a + b)[1..] == a[1..] + b;
      ValueOfTwo(10 * n + DigitValue(a[0]), a[1..], b);
    }
  }

  /** What is printed is read back. */
  lemma {:induction false} PrintedReads(n: nat)
    ensures ValueAfter(0, Printed(n)) == n
  {
    if n >= 10 {
      PrintedReads(n / 10);
      ValueOfTwo(0, Printed(n / 10), [('0' as int + n % 10) as char]);
    }
  }

  /** How many digits a text starts with. */
  function DigitsAhead(text: string): (count: nat)
    ensures count <= |text| && AreDigits(text[..count])
    ensures count < |text| ==> !IsDigit(text[count])
  {
    if text == [] || !IsDigit(text[0]) then 0
    else
      assert forall k :: 1 <= k < |text| ==> text[k] == text[1..][k - 1];
      1 + DigitsAhead(text[1..])
  }

  /** Digits before what is no digit are all the digits ahead. */
  lemma {:induction false} DigitsThenNone(digits: string, rest: string)
    requires AreDigits(digits) && (rest != [] ==> !IsDigit(rest[0]))
    ensures DigitsAhead(digits + rest) == |digits|
    decreases |digits|
  {
    if digits == [] {
      assert digits + rest == rest;
    } else {
      assert (digits + rest)[1..] == digits[1..] + rest;
      DigitsThenNone(digits[1..], rest);
    }
  }

  /** A number below ten is its digit, and any other the number of its tens before its units. */
  lemma PrintedExactly(n: nat)
    ensures n < 10 ==> Printed(n) == ["0123456789"[n]]
    ensures n >= 10 ==> Printed(n) == Printed(n / 10) + Printed(n % 10)
  {
  }
}
