/**
 * Worked examples of `parse` on concrete texts, each derived from the
 * general facts of the other modules.
 */
module Samples {
  import opened Wrappers
  import opened Chars
  import opened Fields
  import opened Dates

  /**
   * A date text `DD-DD-DDDD` is parsed from its three numbers, the four-digit
   * one being the year.
   */
  lemma ParseDayMonthDate(x: string, a: nat, b: nat, c: nat)
    requires DayMonthText(x, a, b, c)
    ensures IsNumericDate(x)
    ensures var d := Resolve(a, b, c, false);
      ParseDate(x) == if IsValid(d) then Ok(Format(d)) else Err(InvalidDate)
  {
    assert DateWithSeps(x, 2, 5);
    RunEndIs(x, 0, Digit, 2);
    RunEndIs(x, 3, Digit, 5);
  }

  /** The value of the digit at `k`. */
  function DigitAt(s: string, k: nat): (d: nat)
    requires k < |s| && IsDigit(s[k])
    ensures d <= 9
  {
    s[k] as int - '0' as int
  }

  /** Two digits read as a number. */
  lemma TwoDigits(s: string)
    requires |s| == 2 && IsDigit(s[0]) && IsDigit(s[1])
    ensures DecimalValue(s) == 10 * DigitAt(s, 0) + DigitAt(s, 1)
  {
    assert s[..1][..0] == [];
  }

  /** Four digits read as a number. */
  lemma FourDigits(s: string)
    requires |s| == 4 && forall k :: 0 <= k < 4 ==> IsDigit(s[k])
    ensures DecimalValue(s) == 1000 * DigitAt(s, 0) + 100 * DigitAt(s, 1) + 10 * DigitAt(s, 2) + DigitAt(s, 3)
  {
    TwoDigits(s[..2]);
    assert s[..3][..2] == s[..2];
  }

  /** The text is a `DD-DD-DDDD` date whose fields read as `a`, `b` and `c`. */
  predicate DayMonthText(x: string, a: nat, b: nat, c: nat) {
    && |x| == 10 && x[2] == '-' && x[5] == '-'
    && (forall k :: 0 <= k < 10 && k != 2 && k != 5 ==> IsDigit(x[k]))
    && a == DecimalValue(x[..2]) && b == DecimalValue(x[3..5]) && c == DecimalValue(x[6..])
  }

  /** The three fields of a `DD-DD-DDDD` text, digit by digit. */
  lemma DayMonthDigits(x: string)
    requires |x| == 10 && x[2] == '-' && x[5] == '-'
    requires forall k :: 0 <= k < 10 && k != 2 && k != 5 ==> IsDigit(x[k])
    ensures DayMonthText(x, 10 * DigitAt(x, 0) + DigitAt(x, 1), 10 * DigitAt(x, 3) + DigitAt(x, 4),
                         1000 * DigitAt(x, 6) + 100 * DigitAt(x, 7) + 10 * DigitAt(x, 8) + DigitAt(x, 9))
  {
    TwoDigits(x[..2]);
    TwoDigits(x[3..5]);
    FourDigits(x[6..]);
  }

  /** `29-01-2025`: 29 cannot be a month, so it is the day. */
  lemma DayFirstDate(x: string)
    requires x == "29-01-2025"
    ensures IsNumericDate(x) && ParseDate(x) == Ok("2025-01-29")
  {
    DayMonthDigits(x);
    ParseDayMonthDate(x, 29, 1, 2025);
    DayFirstResolved();
  }

  /** `01-02-2025`: both could be the month, and dateutil takes the first. */
  lemma MonthFirstDate(x: string)
    requires x == "01-02-2025"
    ensures IsNumericDate(x) && ParseDate(x) == Ok("2025-01-02")
  {
    DayMonthDigits(x);
    ParseDayMonthDate(x, 1, 2, 2025);
    MonthFirstResolved();
  }

  /** `31-02-2025`: the 31st of February does not exist, so `parse` raises. */
  lemma NoSuchDate(x: string)
    requires x == "31-02-2025"
    ensures IsNumericDate(x) && ParseDate(x) == Err(InvalidDate)
  {
    DayMonthDigits(x);
    ParseDayMonthDate(x, 31, 2, 2025);
    assert !IsValid(Resolve(31, 2, 2025, false));
  }

  /** 29, 1, 2025 resolve to the 29th of January 2025. */
  lemma DayFirstResolved()
    ensures var d := Resolve(29, 1, 2025, false); IsValid(d) && Format(d) == "2025-01-29"
  {
  }

  /** 1, 2, 2025 resolve to the 2nd of January 2025. */
  lemma MonthFirstResolved()
    ensures var d := Resolve(1, 2, 2025, false); IsValid(d) && Format(d) == "2025-01-02"
  {
  }
}
