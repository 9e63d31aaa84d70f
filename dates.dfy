/**
 * Calendar dates as Python's `datetime.date` handles them: the proleptic
 * Gregorian calendar over years 1..9999, `fromisoformat` on `YYYY-MM-DD`,
 * `strftime('%Y-%m-%d')`, and `date + timedelta(days=n)`.
 */
module IsoDates {
  import opened Base
  import opened Text

  datatype Date = Date(year: int, month: int, day: int)

  const MinYear := 1
  const MaxYear := 9999
  const First := Date(MinYear, 1, 1)
  const Last := Date(MaxYear, 12, 31)

  predicate IsLeap(y: int) {
    y % 4 == 0 && (y % 100 != 0 || y % 400 == 0)
  }

  function DaysInMonth(y: int, m: int): int {
    if m == 2 then (if IsLeap(y) then 29 else 28)
    else if m == 4 || m == 6 || m == 9 || m == 11 then 30
    else 31
  }

  function DaysInYear(y: int): int {
    if IsLeap(y) then 366 else 365
  }

  /** A date `datetime.date` can represent. */
  predicate Valid(d: Date) {
    MinYear <= d.year <= MaxYear && 1 <= d.month <= 12 && 1 <= d.day <= DaysInMonth(d.year, d.month)
  }

  /** Calendar order: year, then month, then day. */
  predicate Before(a: Date, b: Date) {
    a.year < b.year || (a.year == b.year && (a.month < b.month || (a.month == b.month && a.day < b.day)))
  }

  // ---------------------------------------------------------------- day counting

  /**
   * Days before each month of a common year, by month number (CPython's
   * `_DAYS_BEFORE_MONTH`, with entry 13 the whole year); entry 0 is unused.
   */
  const DaysBeforeMonthTable: seq<int> := [0, 0, 31, 59, 90, 120, 151, 181, 212, 243, 273, 304, 334, 365]

  /** Days in the months of year `y` before month `m`. */
  function DaysBeforeMonth(y: int, m: int): (n: int)
    requires 1 <= m <= 13
    ensures n >= 0
    decreases m
  {
    if m == 1 then 0 else DaysBeforeMonth(y, m - 1) + DaysInMonth(y, m - 1)
  }

  /** Days in the years before year `y`, counting from year 1 (`_days_before_year`). */
  function DaysBeforeYear(y: int): (n: int)
    requires y >= MinYear
    ensures n >= 0
  {
    var p := y - 1;
    p * 365 + p / 4 - p / 100 + p / 400
  }

  /** The closed form counts one year at a time: year `y` adds its own length. */
  lemma YearStep(y: int)
    requires y >= MinYear
    ensures DaysBeforeYear(y + 1) == DaysBeforeYear(y) + DaysInYear(y)
  {
    DivStep(y, 4);
    DivStep(y, 100);
    DivStep(y, 400);
    LeapByMultiples(y);
    var p := y - 1;
    assert DaysBeforeYear(y + 1) == y * 365 + y / 4 - y / 100 + y / 400;
    assert DaysBeforeYear(y) == p * 365 + p / 4 - p / 100 + p / 400;
  }

  /** Year `y` is a leap year by as much as it is a multiple of 4, less 100, plus 400. */
  lemma LeapByMultiples(y: int)
    ensures DaysInYear(y) - 365 ==
      (if y % 4 == 0 then 1 else 0) - (if y % 100 == 0 then 1 else 0) + (if y % 400 == 0 then 1 else 0)
  {
    if y % 400 == 0 {
      assert y == 100 * (4 * (y / 400));
    }
    if y % 100 == 0 {
      assert y == 4 * (25 * (y / 100));
    }
  }

  /** Counting the multiples of `d` up to `y` rather than `y - 1` adds one exactly when `d` divides `y`. */
  lemma DivStep(y: int, d: int)
    requires y >= 1 && d in {4, 100, 400}
    ensures y / d == (y - 1) / d + (if y % d == 0 then 1 else 0)
  {
    var q, r := (y - 1) / d, (y - 1) % d;
    assert y - 1 == q * d + r && 0 <= r < d;
    if r + 1 < d {
      assert y == q * d + (r + 1);
    } else {
      assert y == (q + 1) * d;
    }
  }

  /** `date.toordinal()`: 0001-01-01 is day 1. */
  function Ordinal(d: Date): int
    requires Valid(d)
  {
    DaysBeforeYear(d.year) + DaysBeforeMonth(d.year, d.month) + d.day
  }

  /** Month by month, the count is CPython's table plus the leap day from March on. */
  lemma {:induction false} DaysBeforeMonthByTable(y: int, m: int)
    requires 1 <= m <= 13
    ensures DaysBeforeMonth(y, m) == DaysBeforeMonthTable[m] + (if m > 2 && IsLeap(y) then 1 else 0)
    decreases m
  {
    if m > 1 { DaysBeforeMonthByTable(y, m - 1); }
  }

  lemma YearLength(y: int)
    ensures DaysBeforeMonth(y, 13) == DaysInYear(y)
  {
    assert DaysBeforeMonth(y, 2) == 31;
    assert DaysBeforeMonth(y, 3) == 31 + DaysInMonth(y, 2);
    assert DaysBeforeMonth(y, 5) == DaysBeforeMonth(y, 3) + 61;
    assert DaysBeforeMonth(y, 7) == DaysBeforeMonth(y, 3) + 122;
    assert DaysBeforeMonth(y, 9) == DaysBeforeMonth(y, 3) + 184;
    assert DaysBeforeMonth(y, 11) == DaysBeforeMonth(y, 3) + 245;
    assert DaysBeforeMonth(y, 13) == DaysBeforeMonth(y, 3) + 306;
  }

  lemma {:induction false} MonthsMonotone(y: int, m1: int, m2: int)
    requires 1 <= m1 <= m2 <= 13
    ensures DaysBeforeMonth(y, m1) <= DaysBeforeMonth(y, m2)
    decreases m2
  {
    if m1 < m2 { MonthsMonotone(y, m1, m2 - 1); }
  }

  lemma {:induction false} YearsMonotone(y1: int, y2: int)
    requires MinYear <= y1 <= y2
    ensures DaysBeforeYear(y1) <= DaysBeforeYear(y2)
    decreases y2
  {
    if y1 < y2 {
      YearsMonotone(y1, y2 - 1);
      YearStep(y2 - 1);
    }
  }

  /** A valid date's ordinal lies inside its own year. */
  lemma OrdinalInYear(d: Date)
    requires Valid(d)
    ensures DaysBeforeYear(d.year) < Ordinal(d) <= DaysBeforeYear(d.year) + DaysInYear(d.year)
  {
    MonthsMonotone(d.year, d.month + 1, 13);
    YearLength(d.year);
  }

  /** The ordinal orders dates exactly as the calendar does. */
  lemma OrdinalOrder(a: Date, b: Date)
    requires Valid(a) && Valid(b)
    ensures Before(a, b) <==> Ordinal(a) < Ordinal(b)
    ensures a == b <==> Ordinal(a) == Ordinal(b)
  {
    if Before(a, b) {
      OrdinalBefore(a, b);
    } else if Before(b, a) {
      OrdinalBefore(b, a);
    }
  }

  lemma OrdinalBefore(a: Date, b: Date)
    requires Valid(a) && Valid(b) && Before(a, b)
    ensures Ordinal(a) < Ordinal(b)
  {
    if a.year < b.year {
      OrdinalInYear(a);
      OrdinalInYear(b);
      YearStep(a.year);
      YearsMonotone(a.year + 1, b.year);
    } else if a.month < b.month {
      MonthsMonotone(a.year, a.month + 1, b.month);
    }
  }

  // ---------------------------------------------------------------- stepping

  function NextDay(d: Date): (e: Date)
    requires Valid(d) && d != Last
    ensures Valid(e) && Ordinal(e) == Ordinal(d) + 1
  {
    if d.day < DaysInMonth(d.year, d.month) then Date(d.year, d.month, d.day + 1)
    else if d.month < 12 then Date(d.year, d.month + 1, 1)
    else
      YearLength(d.year);
      YearStep(d.year);
      Date(d.year + 1, 1, 1)
  }

  function PrevDay(d: Date): (e: Date)
    requires Valid(d) && d != First
    ensures Valid(e) && Ordinal(e) + 1 == Ordinal(d)
  {
    if d.day > 1 then Date(d.year, d.month, d.day - 1)
    else if d.month > 1 then Date(d.year, d.month - 1, DaysInMonth(d.year, d.month - 1))
    else
      YearLength(d.year - 1);
      YearStep(d.year - 1);
      Date(d.year - 1, 12, 31)
  }

  /**
   * `d + timedelta(days=n)`; None where CPython raises OverflowError
   * because the result would leave 0001-01-01 .. 9999-12-31.
   */
  function AddDays(d: Date, n: int): (r: Option<Date>)
    requires Valid(d)
    ensures r.Some? ==> Valid(r.value) && Ordinal(r.value) == Ordinal(d) + n
    decreases if n < 0 then -n else n
  {
    if n == 0 then Some(d)
    else if n > 0 then (if d == Last then None else AddDays(NextDay(d), n - 1))
    else (if d == First then None else AddDays(PrevDay(d), n + 1))
  }

  /** Every valid date lies between the first and the last representable day. */
  lemma OrdinalBounds(d: Date)
    requires Valid(d)
    ensures Ordinal(First) <= Ordinal(d) <= Ordinal(Last)
  {
    OrdinalOrder(First, d);
    OrdinalOrder(d, Last);
  }

  /** Adding days fails exactly when the day count leaves the representable range. */
  lemma {:induction false} AddDaysDefined(d: Date, n: int)
    requires Valid(d)
    ensures AddDays(d, n).Some? <==> Ordinal(First) <= Ordinal(d) + n <= Ordinal(Last)
    decreases if n < 0 then -n else n
  {
    OrdinalBounds(d);
    if n > 0 {
      if d == Last {
      } else {
        AddDaysDefined(NextDay(d), n - 1);
      }
    } else if n < 0 {
      if d == First {
      } else {
        AddDaysDefined(PrevDay(d), n + 1);
      }
    }
  }

  // ---------------------------------------------------------------- ISO text

  /** `d.strftime('%Y-%m-%d')`, the year zero-padded to four digits. */
  function Format(d: Date): (s: string)
    requires Valid(d)
    ensures |s| == 10
  {
    Pad(d.year, 4) + "-" + Pad(d.month, 2) + "-" + Pad(d.day, 2)
  }

  predicate IsoShape(s: string) {
    |s| == 10 && s[4] == '-' && s[7] == '-'
    && AllDigits(s[..4]) && AllDigits(s[5..7]) && AllDigits(s[8..])
  }

  /** `date.fromisoformat(s)` on the strict `YYYY-MM-DD` form; None where it raises ValueError. */
  function Parse(s: string): (r: Option<Date>)
    ensures r.Some? ==> Valid(r.value)
  {
    if !IsoShape(s) then None
    else
      var d := Date(Value(s[..4]), Value(s[5..7]), Value(s[8..]));
      if Valid(d) then Some(d) else None
  }

  lemma FormatParts(d: Date)
    requires Valid(d)
    ensures Format(d)[..4] == Pad(d.year, 4)
    ensures Format(d)[5..7] == Pad(d.month, 2)
    ensures Format(d)[8..] == Pad(d.day, 2)
    ensures Format(d)[4] == '-' && Format(d)[7] == '-'
  {
  }

  /** Formatting and parsing back gives the same date. */
  lemma ParseFormat(d: Date)
    requires Valid(d)
    ensures Parse(Format(d)) == Some(d)
  {
    FormatParts(d);
    ValueOfPad(d.year, 4);
    ValueOfPad(d.month, 2);
    ValueOfPad(d.day, 2);
  }

  /** A text that parses is already in the normal form: formatting the parsed date gives it back. */
  lemma FormatParse(s: string)
    requires Parse(s).Some?
    ensures Format(Parse(s).value) == s
  {
    var d := Parse(s).value;
    PadOfValue(s[..4]);
    PadOfValue(s[5..7]);
    PadOfValue(s[8..]);
    FormatParts(d);
    var f := Format(d);
    assert f[..4] == s[..4] && f[5..7] == s[5..7] && f[8..] == s[8..];
    assert forall i :: 0 <= i < 10 ==> f[i] == s[i] by {
      forall i | 0 <= i < 10 ensures f[i] == s[i] {
        if i < 4 { assert f[i] == f[..4][i]; assert s[i] == s[..4][i]; }
        else if 5 <= i < 7 { assert f[i] == f[5..7][i - 5]; assert s[i] == s[5..7][i - 5]; }
        else if 8 <= i { assert f[i] == f[8..][i - 8]; assert s[i] == s[8..][i - 8]; }
      }
    }
  }

  /** Three fields joined by dashes, the first two of fixed widths, compare field by field. */
  lemma DashedOrder(p1: string, p2: string, p3: string, q1: string, q2: string, q3: string)
    requires |p1| == |q1| && |p2| == |q2|
    ensures TextLe(p1 + "-" + p2 + "-" + p3, q1 + "-" + q2 + "-" + q3) <==>
      (p1 != q1 && TextLe(p1, q1))
      || (p1 == q1 && ((p2 != q2 && TextLe(p2, q2)) || (p2 == q2 && TextLe(p3, q3))))
  {
    var tp, tq := p2 + "-" + p3, q2 + "-" + q3;
    assert p1 + "-" + p2 + "-" + p3 == p1 + ("-" + tp);
    assert q1 + "-" + q2 + "-" + q3 == q1 + ("-" + tq);
    TextLeConcat(p1, "-" + tp, q1, "-" + tq);
    TextLeConcat("-", tp, "-", tq);
    assert p2 + "-" + p3 == p2 + ("-" + p3);
    assert q2 + "-" + q3 == q2 + ("-" + q3);
    TextLeConcat(p2, "-" + p3, q2, "-" + q3);
    TextLeConcat("-", p3, "-", q3);
  }

  /** Zero-padded fields of one width are equal exactly when their numbers are. */
  lemma PadEqual(x: nat, y: nat, width: nat)
    requires x < Pow10(width) && y < Pow10(width)
    ensures Pad(x, width) == Pad(y, width) <==> x == y
  {
    ValueOfPad(x, width);
    ValueOfPad(y, width);
  }

  /** ISO texts of valid dates sort as text exactly as the dates sort on the calendar. */
  lemma FormatOrder(a: Date, b: Date)
    requires Valid(a) && Valid(b)
    ensures TextLe(Format(a), Format(b)) <==> Ordinal(a) <= Ordinal(b)
  {
    assert Pow10(4) == 10000 && Pow10(2) == 100;
    PadEqual(a.year, b.year, 4);
    PadEqual(a.month, b.month, 2);
    PadOrder(a.year, b.year, 4);
    PadOrder(a.month, b.month, 2);
    PadOrder(a.day, b.day, 2);
    DashedOrder(Pad(a.year, 4), Pad(a.month, 2), Pad(a.day, 2), Pad(b.year, 4), Pad(b.month, 2), Pad(b.day, 2));
    OrdinalOrder(a, b);
  }
}
