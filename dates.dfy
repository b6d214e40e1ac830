/**
 * The visit-date rule of `parse` (project.py:159-161): the leftmost match of
 * `\d{1,2}[-/]\d{1,2}[-/]\d{4}|\d{4}[-/]\d{1,2}[-/]\d{1,2}` is handed to
 * dateutil's `parser.parse` and printed with `strftime("%Y-%m-%d")`. Only the
 * two numeric shapes the pattern admits are modelled, with dateutil's default
 * reading (`dayfirst=False`, `yearfirst=False`).
 */
module Dates {
  import opened Wrappers
  import opened Chars
  import opened Fields

  /** `[-/]` */
  predicate IsDateSep(c: char) {
    c == '-' || c == '/'
  }

  predicate AllDigits(s: string) {
    forall k :: 0 <= k < |s| ==> IsDigit(s[k])
  }

  /** `\d{lo,hi}` as a whole string. */
  predicate IsField(s: string, lo: nat, hi: nat) {
    lo <= |s| <= hi && AllDigits(s)
  }

  /**
   * `x` reads as the visit-date pattern with its separators at `j1` and `j2`:
   * three digit fields, either day-or-month, day-or-month, four-digit year,
   * or four-digit year, month, day.
   */
  predicate DateWithSeps(x: string, j1: nat, j2: nat) {
    && 0 < j1 < j2 < |x| && IsDateSep(x[j1]) && IsDateSep(x[j2])
    && IsField(x[j1 + 1..j2], 1, 2)
    && (|| (IsField(x[..j1], 1, 2) && IsField(x[j2 + 1..], 4, 4))
        || (IsField(x[..j1], 4, 4) && IsField(x[j2 + 1..], 1, 2)))
  }

  /** The language of the visit-date pattern. */
  predicate IsNumericDate(x: string) {
    exists j1: nat, j2: nat | j1 < |x| && j2 < |x| :: DateWithSeps(x, j1, j2)
  }

  /** A stretch inside a digit run is a digit field. */
  lemma RunField(t: string, p: nat, q: nat, lo: nat, hi: nat)
    requires p <= |t| && p <= q <= RunEnd(t, p, Digit) && lo <= q - p <= hi
    ensures IsField(t[p..q], lo, hi)
  {
  }

  /** A digit field inside a slice is a stretch of digits of the whole text. */
  lemma FieldDigits(t: string, i: nat, e: nat, a: nat, b: nat)
    requires i <= e <= |t| && a <= b <= e - i && AllDigits(t[i..e][a..b])
    ensures forall k :: i + a <= k < i + b ==> IsDigit(t[k])
  {
    assert forall k :: i + a <= k < i + b ==> t[k] == t[i..e][a..b][k - (i + a)];
  }

  /**
   * The attempt of the visit-date pattern at `i`. A digit field of the
   * pattern is always followed by a separator or ends the match, so every
   * field but the last is a whole digit run; the first alternative needs a
   * first run of one or two digits and four digits at the end, the second
   * a first run of exactly four digits and takes up to two digits at the
   * end.
   */
  function DateAt(t: string, i: nat): (r: Option<nat>)
    requires i <= |t|
    ensures r.Some? ==> i < r.value <= |t|
  {
    var r1 := RunEnd(t, i, Digit);
    if r1 == |t| || !IsDateSep(t[r1]) then None
    else
      var r2 := RunEnd(t, r1 + 1, Digit);
      if r2 == |t| || !IsDateSep(t[r2]) || r2 == r1 + 1 || r2 > r1 + 3 then None
      else
        var r3 := RunEnd(t, r2 + 1, Digit);
        if i < r1 <= i + 2 && r3 >= r2 + 5 then Some(r2 + 5)
        else if r1 == i + 4 && r3 > r2 + 1 then Some(if r3 > r2 + 3 then r2 + 3 else r3)
        else None
  }

  /** Fields and separators found in the text make its slice a numeric date. */
  lemma DateInText(t: string, i: nat, r1: nat, r2: nat, e: nat)
    requires i < r1 < r2 < e <= |t| && IsDateSep(t[r1]) && IsDateSep(t[r2])
    requires IsField(t[r1 + 1..r2], 1, 2)
    requires || (IsField(t[i..r1], 1, 2) && IsField(t[r2 + 1..e], 4, 4))
             || (IsField(t[i..r1], 4, 4) && IsField(t[r2 + 1..e], 1, 2))
    ensures DateWithSeps(t[i..e], r1 - i, r2 - i)
  {
    var x := t[i..e];
    SliceOfSlice(t, i, e, 0, r1 - i);
    SliceOfSlice(t, i, e, r1 - i + 1, r2 - i);
    SliceOfSlice(t, i, e, r2 - i + 1, e - i);
    assert x[..r1 - i] == x[0..r1 - i] && x[r2 - i + 1..] == x[r2 - i + 1..e - i];
  }

  /** A slice of a slice is a slice of the whole. */
  lemma SliceOfSlice(t: string, i: nat, e: nat, a: nat, b: nat)
    requires i <= e <= |t| && a <= b <= e - i
    ensures t[i..e][a..b] == t[i + a..i + b]
  {
    assert forall k :: 0 <= k < b - a ==> t[i..e][a..b][k] == t[i + a + k];
  }

  /** What the attempt finds is a numeric date, with its separators where the digit runs stop. */
  lemma DateAtSound(t: string, i: nat)
    requires i <= |t| && DateAt(t, i).Some?
    ensures IsNumericDate(t[i..DateAt(t, i).value])
  {
    var e := DateAt(t, i).value;
    var r1 := RunEnd(t, i, Digit);
    var r2 := RunEnd(t, r1 + 1, Digit);
    RunField(t, r1 + 1, r2, 1, 2);
    if e == r2 + 5 && r1 <= i + 2 {
      RunField(t, i, r1, 1, 2);
      RunField(t, r2 + 1, e, 4, 4);
    } else {
      RunField(t, i, r1, 4, 4);
      RunField(t, r2 + 1, e, 1, 2);
    }
    DateInText(t, i, r1, r2, e);
  }

  /** Wherever a numeric date starts, the attempt there succeeds. */
  lemma DateAtComplete(t: string, i: nat, e: nat)
    requires i <= e <= |t| && IsNumericDate(t[i..e])
    ensures DateAt(t, i).Some?
  {
    var x := t[i..e];
    var j1: nat, j2: nat :| j1 < |x| && j2 < |x| && DateWithSeps(x, j1, j2);
    FieldDigits(t, i, e, 0, j1);
    assert x[..j1] == x[0..j1];
    FieldDigits(t, i, e, j1 + 1, j2);
    FieldDigits(t, i, e, j2 + 1, e - i);
    assert x[j2 + 1..] == x[j2 + 1..e - i];
    assert t[i + j1] == x[j1] && t[i + j2] == x[j2];
    DateAtRuns(t, i, i + j1, i + j2, e);
  }

  /** Digit runs split by two separators, with the lengths of one of the two shapes. */
  lemma DateAtRuns(t: string, i: nat, a: nat, b: nat, e: nat)
    requires i < a < b < e <= |t| && IsDateSep(t[a]) && IsDateSep(t[b])
    requires forall k :: i <= k < a ==> IsDigit(t[k])
    requires forall k :: a < k < b ==> IsDigit(t[k])
    requires forall k :: b < k < e ==> IsDigit(t[k])
    requires a + 1 < b <= a + 3
    requires (a <= i + 2 && e == b + 5) || (a == i + 4 && b + 1 < e <= b + 3)
    ensures DateAt(t, i).Some?
  {
    RunEndIs(t, i, Digit, a);
    RunEndIs(t, a + 1, Digit, b);
    RunEndPast(t, b + 1, Digit, e);
  }

  /** The positions at which the visit-date attempt succeeds. */
  function DateStarts(t: string): set<nat> {
    set i: nat | i <= |t| && DateAt(t, i).Some?
  }

  /** `re.search` for the visit-date pattern: the leftmost start from `i` on. */
  function DateFrom(t: string, i: nat): (r: Option<nat>)
    requires i <= |t|
    ensures r.Some? ==> i <= r.value <= |t| && DateAt(t, r.value).Some?
    ensures r.Some? ==> forall k :: i <= k < r.value ==> DateAt(t, k).None?
    ensures r.None? ==> forall k :: i <= k <= |t| ==> DateAt(t, k).None?
  {
    var r := FirstIn(DateStarts(t), i, |t|);
    assert forall k: nat :: k <= |t| && k !in DateStarts(t) ==> DateAt(t, k).None?;
    r
  }

  /** `visit_date_matches.group(1)`, or `None` when nothing matches. */
  function DateText(t: string): (r: Option<string>)
    ensures r.Some? ==> IsNumericDate(r.value)
  {
    match DateFrom(t, 0)
    case None => None
    case Some(i) => DateAtSound(t, i); Some(t[i..DateAt(t, i).value])
  }

  /** No attempt of the visit-date pattern anywhere in `s` succeeds. */
  predicate NoDateIn(s: string) {
    forall k :: 0 <= k <= |s| ==> DateAt(s, k).None?
  }

  /** A date text holds only digits and separators. */
  lemma DateChars(x: string)
    requires IsNumericDate(x)
    ensures forall k :: 0 <= k < |x| ==> IsDigit(x[k]) || IsDateSep(x[k])
  {
    var j1: nat, j2: nat :| j1 < |x| && j2 < |x| && DateWithSeps(x, j1, j2);
    forall k | 0 <= k < |x| ensures IsDigit(x[k]) || IsDateSep(x[k]) {
      if k < j1 {
        assert x[..j1][k] == x[k];
      } else if j1 < k < j2 {
        assert x[j1 + 1..j2][k - j1 - 1] == x[k];
      } else if j2 < k {
        assert x[j2 + 1..][k - j2 - 1] == x[k];
      }
    }
  }

  /** What the attempt at `k` reads is digits and separators of the text. */
  lemma DateAtChars(t: string, k: nat)
    requires k <= |t| && DateAt(t, k).Some?
    ensures forall j :: k <= j < DateAt(t, k).value ==> IsDigit(t[j]) || IsDateSep(t[j])
  {
    var e := DateAt(t, k).value;
    DateAtSound(t, k);
    DateChars(t[k..e]);
    assert forall j :: k <= j < e ==> t[j] == t[k..e][j - k];
  }

  /**
   * A date read in `a + b` from inside `a`, when `a` ends in a space, is a
   * date of `a`: it cannot reach that space.
   */
  lemma DateInPrefix(a: string, b: string, k: nat)
    requires k < |a| && a[|a| - 1] == ' ' && DateAt(a + b, k).Some?
    ensures DateAt(a, k).Some?
  {
    var t := a + b;
    var e := DateAt(t, k).value;
    DateAtChars(t, k);
    assert t[|a| - 1] == ' ';
    assert e < |a|;
    DateAtSound(t, k);
    assert t[k..e] == a[k..e];
    DateAtComplete(a, k, e);
  }

  /** A date read in `a + b` from the end of `a` on is a date of `b`. */
  lemma DateInSuffix(a: string, b: string, k: nat)
    requires |a| <= k <= |a| + |b| && DateAt(a + b, k).Some?
    ensures DateAt(b, k - |a|).Some?
  {
    var t := a + b;
    var e := DateAt(t, k).value;
    DateAtSound(t, k);
    assert t[k..e] == b[k - |a|..e - |a|];
    DateAtComplete(b, k - |a|, e - |a|);
  }

  /** Cut after a space, a text has a date only where one of its pieces has it. */
  lemma NoDateInJoin(a: string, b: string)
    requires |a| > 0 && a[|a| - 1] == ' ' && NoDateIn(a) && NoDateIn(b)
    ensures NoDateIn(a + b)
  {
    forall k | 0 <= k <= |a + b| ensures DateAt(a + b, k).None? {
      if DateAt(a + b, k).Some? {
        if k < |a| {
          DateInPrefix(a, b, k);
        } else {
          DateInSuffix(a, b, k);
        }
      }
    }
  }

  /** No date is read from inside a prefix that ends in a space and holds none. */
  lemma NoDateInPrefix(a: string, b: string)
    requires |a| > 0 && a[|a| - 1] == ' ' && NoDateIn(a)
    ensures forall k :: 0 <= k < |a| ==> DateAt(a + b, k).None?
  {
    forall k | 0 <= k < |a| ensures DateAt(a + b, k).None? {
      if DateAt(a + b, k).Some? {
        DateInPrefix(a, b, k);
      }
    }
  }

  /**
   * The attempt at `k` sees a separator right after a digit, and the second
   * digit field stops at a separator one or two digits later.
   */
  lemma DateAtFields(t: string, k: nat)
    requires k <= |t| && DateAt(t, k).Some?
    ensures var r1 := RunEnd(t, k, Digit); var r2 := RunEnd(t, r1 + 1, Digit);
      && k < r1 < r2 < |t| && IsDigit(t[r1 - 1]) && IsDateSep(t[r1])
      && r1 + 2 <= r2 <= r1 + 3 && IsDateSep(t[r2]) && IsDigit(t[r1 + 1])
  {
  }

  /**
   * No date is read from `s` when every separator after a digit is followed
   * by three digits: the middle field of a date has one or two.
   */
  lemma NoDateByFields(s: string)
    requires forall j :: 0 < j < |s| && IsDateSep(s[j]) && IsDigit(s[j - 1]) ==>
      j + 3 < |s| && IsDigit(s[j + 1]) && IsDigit(s[j + 2]) && IsDigit(s[j + 3])
    ensures NoDateIn(s)
  {
    forall k | 0 <= k <= |s| ensures DateAt(s, k).None? {
      if DateAt(s, k).Some? {
        DateAtFields(s, k);
      }
    }
  }

  /** The three digit fields of a date text, in the order written. */
  datatype Tokens = Tokens(first: string, second: string, third: string)

  /** The date text cut at its first two non-digits, as dateutil's lexer splits it. */
  function SplitDate(x: string): (r: Option<Tokens>)
  {
    var j1 := RunEnd(x, 0, Digit);
    if j1 == |x| then None
    else
      var j2 := RunEnd(x, j1 + 1, Digit);
      if j2 == |x| then None
      else Some(Tokens(x[..j1], x[j1 + 1..j2], x[j2 + 1..]))
  }

  /** A numeric date splits into its three fields, in one of the two shapes. */
  lemma SplitNumericDate(x: string)
    requires IsNumericDate(x)
    ensures SplitDate(x).Some?
    ensures var f := SplitDate(x).value;
      && IsField(f.second, 1, 2)
      && (|| (IsField(f.first, 1, 2) && IsField(f.third, 4, 4))
          || (IsField(f.first, 4, 4) && IsField(f.third, 1, 2)))
  {
    var j1: nat, j2: nat :| j1 < |x| && j2 < |x| && DateWithSeps(x, j1, j2);
    assert forall k :: 0 <= k < j1 ==> x[k] == x[..j1][k];
    RunEndIs(x, 0, Digit, j1);
    assert forall k :: j1 + 1 <= k < j2 ==> x[k] == x[j1 + 1..j2][k - (j1 + 1)];
    RunEndIs(x, j1 + 1, Digit, j2);
  }

  /** A calendar date as year, month and day numbers. */
  datatype Ymd = Ymd(year: nat, month: nat, day: nat)

  /**
   * dateutil's resolution of three numbers when the four-digit one is known
   * to be the year: year first when it is written first; otherwise the first
   * number is the year when above 31, the day when above 12, and the month
   * by default.
   */
  function Resolve(a: nat, b: nat, c: nat, yearFirst: bool): (d: Ymd)
  {
    if yearFirst || a > 31 then Ymd(a, b, c)
    else if a > 12 then Ymd(c, b, a)
    else Ymd(c, a, b)
  }

  predicate IsLeap(y: nat) {
    y % 4 == 0 && (y % 100 != 0 || y % 400 == 0)
  }

  function DaysInMonth(y: nat, m: nat): (n: nat)
    requires 1 <= m <= 12
    ensures 28 <= n <= 31
  {
    if m == 2 then (if IsLeap(y) then 29 else 28)
    else if m == 4 || m == 6 || m == 9 || m == 11 then 30
    else 31
  }

  /** What `datetime` accepts: years 1 to 9999, months 1 to 12, days within the month. */
  predicate IsValid(d: Ymd) {
    1 <= d.year <= 9999 && 1 <= d.month <= 12 && 1 <= d.day <= DaysInMonth(d.year, d.month)
  }

  /** `n` written with exactly `w` decimal digits, zero-padded on the left. */
  function Pad(n: nat, w: nat): (s: string)
    ensures |s| == w && AllDigits(s)
  {
    if w == 0 then []
    else Pad(n / 10, w - 1) + [('0' as int + n % 10) as char]
  }

  /** Reading a padded number gives the number back. */
  lemma {:induction false} PadValue(n: nat, w: nat)
    requires n < Pow10(w)
    ensures DecimalValue(Pad(n, w)) == n
  {
    if w > 0 {
      var s := Pad(n, w);
      assert s[..w - 1] == Pad(n / 10, w - 1);
      PadValue(n / 10, w - 1);
    }
  }

  /** `strftime("%Y-%m-%d")`: ten characters, dashes at 4 and 7, digits elsewhere. */
  function Format(d: Ymd): (r: string)
    ensures |r| == 10 && r[4] == '-' && r[7] == '-'
    ensures forall k :: 0 <= k < 10 && k != 4 && k != 7 ==> IsDigit(r[k])
  {
    var y, m, dd := Pad(d.year, 4), Pad(d.month, 2), Pad(d.day, 2);
    assert forall k :: 0 <= k < 2 ==> IsDigit(m[k]) && IsDigit(dd[k]);
    y + "-" + m + "-" + dd
  }

  datatype DateError = InvalidDate

  /**
   * `parser.parse(x).strftime("%Y-%m-%d")` for a date text: the fields are
   * read as numbers, resolved, and printed when they form a real date;
   * otherwise dateutil raises.
   */
  function ParseDate(x: string): (r: Result<string, DateError>)
    requires IsNumericDate(x)
  {
    SplitNumericDate(x);
    var f := SplitDate(x).value;
    var d := Resolve(DecimalValue(f.first), DecimalValue(f.second), DecimalValue(f.third), |f.first| == 4);
    if IsValid(d) then Ok(Format(d)) else Err(InvalidDate)
  }

  /**
   * The visit date: `None` when the text has no numeric date, otherwise the
   * outcome of parsing the leftmost one.
   */
  function VisitDate(t: string): (r: Option<Result<string, DateError>>)
  {
    match DateText(t)
    case None => None
    case Some(x) => Some(ParseDate(x))
  }

  /** A formatted date is a year-first numeric date whose fields are the padded numbers. */
  lemma FormatSplits(d: Ymd)
    ensures DateWithSeps(Format(d), 4, 7) && IsNumericDate(Format(d))
    ensures SplitDate(Format(d)) == Some(Tokens(Pad(d.year, 4), Pad(d.month, 2), Pad(d.day, 2)))
  {
    var r := Format(d);
    assert r[..4] == Pad(d.year, 4);
    assert r[5..7] == Pad(d.month, 2);
    assert r[8..] == Pad(d.day, 2);
    assert IsField(r[..4], 4, 4) && IsField(r[5..7], 1, 2) && IsField(r[8..], 1, 2);
    assert DateWithSeps(r, 4, 7);
    RunEndIs(r, 0, Digit, 4);
    RunEndIs(r, 5, Digit, 7);
  }

  /** Parsing a formatted real date gives the same text back. */
  lemma FormatRoundTrip(d: Ymd)
    requires IsValid(d)
    ensures IsNumericDate(Format(d)) && ParseDate(Format(d)) == Ok(Format(d))
  {
    FormatSplits(d);
    assert Pow10(2) == 100 && Pow10(4) == 10000;
    PadValue(d.year, 4);
    PadValue(d.month, 2);
    PadValue(d.day, 2);
  }

  /**
   * A parsed visit date is in canonical form: a year-first numeric date that
   * parses to itself.
   */
  lemma ParseDateCanonical(x: string)
    requires IsNumericDate(x) && ParseDate(x).Ok?
    ensures var r := ParseDate(x).value;
      IsNumericDate(r) && ParseDate(r) == Ok(r)
  {
    SplitNumericDate(x);
    var f := SplitDate(x).value;
    var d := Resolve(DecimalValue(f.first), DecimalValue(f.second), DecimalValue(f.third), |f.first| == 4);
    FormatRoundTrip(d);
  }
}
