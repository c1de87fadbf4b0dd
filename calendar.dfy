/** The part of Python's `datetime` the date parser relies on: valid dates of the
    proleptic Gregorian calendar between years 1 and 9999, their ordinal numbers
    (`date.toordinal`), adding a number of days (`date + timedelta(days=n)`) and
    `datetime.strptime` for the formats `"%Y %m %d"` and `"%y %m %d"`. */
module Calendar {
  import opened Outcomes
  import opened PyText

  datatype Date = Date(year: int, month: int, day: int)

  const MinYear: int := 1
  const MaxYear: int := 9999

  predicate IsLeap(y: int) {
    y % 4 == 0 && (y % 100 != 0 || y % 400 == 0)
  }

  function DaysInMonth(y: int, m: int): (n: int)
    requires 1 <= m <= 12
    ensures 28 <= n <= 31
    ensures n == 29 <==> m == 2 && IsLeap(y)
  {
    if m == 2 then (if IsLeap(y) then 29 else 28)
    else if m == 4 || m == 6 || m == 9 || m == 11 then 30
    else 31
  }

  function DaysInYear(y: int): int {
    if IsLeap(y) then 366 else 365
  }

  /** A date `datetime.date` accepts: its constructor and `replace` raise ValueError
      on anything else. */
  predicate Valid(d: Date) {
    MinYear <= d.year <= MaxYear && 1 <= d.month <= 12 && 1 <= d.day <= DaysInMonth(d.year, d.month)
  }

  const FirstDate: Date := Date(1, 1, 1)
  const LastDate: Date := Date(9999, 12, 31)

  // ---------------------------------------------------------------------------
  // ordinals: 0001-01-01 is day 1

  function DaysBeforeYear(y: int): int
    requires y >= 1
  {
    var p := y - 1;
    p * 365 + p / 4 - p / 100 + p / 400
  }

  /** Days in the months of a common year before month `m`. */
  const CumulativeDays: seq<int> := [0, 31, 59, 90, 120, 151, 181, 212, 243, 273, 304, 334]

  function DaysBeforeMonth(y: int, m: int): int
    requires 1 <= m <= 12
  {
    CumulativeDays[m - 1] + (if m > 2 && IsLeap(y) then 1 else 0)
  }

  function Ordinal(d: Date): int
    requires Valid(d)
  {
    DaysBeforeYear(d.year) + DaysBeforeMonth(d.year, d.month) + d.day
  }

  /** `date.max.toordinal()`. */
  const MaxOrdinal: int := 3652059

  lemma DaysBeforeYearStep(y: int)
    requires y >= 1
    ensures DaysBeforeYear(y + 1) == DaysBeforeYear(y) + DaysInYear(y)
  {
    var p := y - 1;
    assert y / 4 == p / 4 + (if y % 4 == 0 then 1 else 0);
    assert y / 100 == p / 100 + (if y % 100 == 0 then 1 else 0);
    assert y / 400 == p / 400 + (if y % 400 == 0 then 1 else 0);
  }

  lemma {:induction false} DaysBeforeYearMonotone(a: int, b: int)
    requires 1 <= a <= b
    ensures DaysBeforeYear(a) + 365 * (b - a) <= DaysBeforeYear(b)
    decreases b - a
  {
    if a < b {
      DaysBeforeYearStep(a);
      DaysBeforeYearMonotone(a + 1, b);
    }
  }

  lemma DaysBeforeMonthStep(y: int, m: int)
    requires 1 <= m < 12
    ensures DaysBeforeMonth(y, m + 1) == DaysBeforeMonth(y, m) + DaysInMonth(y, m)
  {
  }

  /** The days of a year fill exactly its 365 or 366 ordinals. */
  lemma DaysBeforeMonthBound(y: int, m: int, day: int)
    requires 1 <= m <= 12 && 1 <= day <= DaysInMonth(y, m)
    ensures DaysBeforeMonth(y, m) + day <= DaysInYear(y)
    ensures DaysBeforeMonth(y, m) + day == DaysInYear(y) ==> m == 12 && day == 31
  {
  }

  lemma DaysBeforeYearAtLeast(y: int)
    requires y >= 1
    ensures DaysBeforeYear(y) >= 365 * (y - 1)
  {
    DaysBeforeYearMonotone(1, y);
  }

  /** Every valid date has an ordinal between 1 and `MaxOrdinal`, and only the first
      and the last date reach the ends. */
  lemma OrdinalBounds(d: Date)
    requires Valid(d)
    ensures 1 <= Ordinal(d) <= MaxOrdinal
    ensures Ordinal(d) == 1 <==> d == FirstDate
    ensures Ordinal(d) == MaxOrdinal <==> d == LastDate
  {
    DaysBeforeYearAtLeast(d.year);
    DaysBeforeMonthBound(d.year, d.month, d.day);
    DaysBeforeYearStep(d.year);
    DaysBeforeYearMonotone(d.year + 1, MaxYear + 1);
    assert DaysBeforeYear(MaxYear + 1) == MaxOrdinal;
  }

  // ---------------------------------------------------------------------------
  // stepping one day and adding days

  function Succ(d: Date): (r: Date)
    requires Valid(d) && d != LastDate
    ensures Valid(r) && Ordinal(r) == Ordinal(d) + 1
  {
    if d.day < DaysInMonth(d.year, d.month) then Date(d.year, d.month, d.day + 1)
    else if d.month < 12 then
      DaysBeforeMonthStep(d.year, d.month);
      Date(d.year, d.month + 1, 1)
    else
      DaysBeforeYearStep(d.year);
      Date(d.year + 1, 1, 1)
  }

  function Pred(d: Date): (r: Date)
    requires Valid(d) && d != FirstDate
    ensures Valid(r) && Ordinal(r) == Ordinal(d) - 1
  {
    if d.day > 1 then Date(d.year, d.month, d.day - 1)
    else if d.month > 1 then
      DaysBeforeMonthStep(d.year, d.month - 1);
      Date(d.year, d.month - 1, DaysInMonth(d.year, d.month - 1))
    else
      DaysBeforeYearStep(d.year - 1);
      Date(d.year - 1, 12, 31)
  }

  /** `d + timedelta(days=n)`: OverflowError (`Other` here) when the result would
      fall outside years 1 to 9999. */
  function AddDays(d: Date, n: int): (r: Result<Date>)
    requires Valid(d)
    ensures r.Ok? ==> Valid(r.value) && Ordinal(r.value) == Ordinal(d) + n
    ensures r.Err? ==> r.error == Other
    decreases if n < 0 then -n else n
  {
    if n == 0 then Ok(d)
    else if n > 0 then
      if d == LastDate then Err(Other) else AddDays(Succ(d), n - 1)
    else
      if d == FirstDate then Err(Other) else AddDays(Pred(d), n + 1)
  }

  /** Adding days succeeds exactly when the target ordinal is a date. */
  lemma AddDaysDefined(d: Date, n: int)
    requires Valid(d)
    ensures AddDays(d, n).Ok? <==> 1 <= Ordinal(d) + n <= MaxOrdinal
  {
    OrdinalBounds(d);
    if n > 0 {
      AddDaysForward(d, n);
    } else if n < 0 {
      AddDaysBackward(d, n);
    }
  }

  lemma {:induction false} AddDaysForward(d: Date, n: int)
    requires Valid(d) && n > 0
    ensures AddDays(d, n).Ok? <==> Ordinal(d) + n <= MaxOrdinal
    decreases n
  {
    OrdinalBounds(d);
    if d != LastDate {
      var e := Succ(d);
      assert AddDays(d, n) == AddDays(e, n - 1);
      if n > 1 {
        AddDaysForward(e, n - 1);
      } else {
        OrdinalBounds(e);
      }
    }
  }

  lemma {:induction false} AddDaysBackward(d: Date, n: int)
    requires Valid(d) && n < 0
    ensures AddDays(d, n).Ok? <==> 1 <= Ordinal(d) + n
    decreases -n
  {
    OrdinalBounds(d);
    if d != FirstDate {
      var e := Pred(d);
      assert AddDays(d, n) == AddDays(e, n + 1);
      if n < -1 {
        AddDaysBackward(e, n + 1);
      } else {
        OrdinalBounds(e);
      }
    }
  }

  /** Adding the difference of two ordinals steps from one date to the other. */
  lemma AddDaysReaches(d: Date, e: Date)
    requires Valid(d) && Valid(e)
    ensures AddDays(d, Ordinal(e) - Ordinal(d)) == Ok(e)
  {
    OrdinalBounds(e);
    AddDaysDefined(d, Ordinal(e) - Ordinal(d));
    OrdinalInjective(AddDays(d, Ordinal(e) - Ordinal(d)).value, e);
  }

  /** Subtracting the days that were added gives the date back. */
  lemma AddDaysInverse(d: Date, n: int)
    requires Valid(d) && AddDays(d, n).Ok?
    ensures AddDays(AddDays(d, n).value, -n) == Ok(d)
  {
    AddDaysReaches(AddDays(d, n).value, d);
  }

  /** A date of an earlier year has a smaller ordinal. */
  lemma YearOrder(a: Date, b: Date)
    requires Valid(a) && Valid(b) && a.year < b.year
    ensures Ordinal(a) < Ordinal(b)
  {
    DaysBeforeMonthBound(a.year, a.month, a.day);
    DaysBeforeYearStep(a.year);
    DaysBeforeYearMonotone(a.year + 1, b.year);
  }

  /** Two valid dates with the same ordinal are the same date. */
  lemma OrdinalInjective(a: Date, b: Date)
    requires Valid(a) && Valid(b) && Ordinal(a) == Ordinal(b)
    ensures a == b
  {
    if a.year < b.year {
      YearOrder(a, b);
    } else if b.year < a.year {
      YearOrder(b, a);
    } else if a.month < b.month {
      MonthOrder(a.year, a.month, a.day, b.month);
    } else if b.month < a.month {
      MonthOrder(a.year, b.month, b.day, a.month);
    }
  }

  /** A day of an earlier month comes before the first day of a later one. */
  lemma {:induction false} MonthOrder(y: int, m: int, day: int, m2: int)
    requires 1 <= m < m2 <= 12 && 1 <= day <= DaysInMonth(y, m)
    ensures DaysBeforeMonth(y, m) + day <= DaysBeforeMonth(y, m2)
    decreases m2 - m
  {
    DaysBeforeMonthStep(y, m);
    if m + 1 < m2 {
      MonthOrder(y, m + 1, 1, m2);
    }
  }

  // ---------------------------------------------------------------------------
  // datetime.strptime(s, "%Y %m %d") and datetime.strptime(s, "%y %m %d")
  //
  // `strptime` turns the format into the regular expression
  //   (\d\d\d\d | \d\d) \s+ (1[0-2]|0[1-9]|[1-9]) \s+ (3[01]|[12]\d|0[1-9]|[1-9]| [1-9])
  // (each space of the format becomes `\s+`), matches it at the start of the input
  // and rejects the input unless the match reaches its end. The scanner below
  // follows the match the regular-expression engine finds first:
  //  - a whitespace run is taken whole: giving back a whitespace character puts a
  //    whitespace character where a digit must come, and the alternative ` [1-9]`
  //    would need the character after the run to be a digit that `[1-9]` itself
  //    already accepts;
  //  - a month is the first alternative that matches: when `1[0-2]` or `0[1-9]`
  //    matches but no whitespace follows, `[1-9]` leaves a digit where the
  //    whitespace must come;
  //  - a day is the first alternative that matches, since nothing follows it in
  //    the expression.

  /** The length of the run of whitespace at `s[i..]`. */
  function SpaceRun(s: string, i: nat): (n: nat)
    requires i <= |s|
    ensures i + n <= |s|
    ensures forall k :: i <= k < i + n ==> IsSpace(s[k])
    ensures i + n == |s| || !IsSpace(s[i + n])
    decreases |s| - i
  {
    if i == |s| || !IsSpace(s[i]) then 0 else 1 + SpaceRun(s, i + 1)
  }

  predicate DigitAt(s: string, i: nat) {
    i < |s| && IsDigit(s[i])
  }

  predicate NonZeroDigitAt(s: string, i: nat) {
    i < |s| && '1' <= s[i] <= '9'
  }

  /** `%m` at `s[i..]`: the month and where it ends. */
  function ScanMonth(s: string, i: nat): (r: Option<(int, nat)>)
    ensures r.Some? ==> 1 <= r.value.0 <= 12 && i < r.value.1 <= |s|
  {
    if i < |s| && s[i] == '1' && i + 1 < |s| && '0' <= s[i + 1] <= '2' then
      Some((10 + DigitValue(s[i + 1]), i + 2))
    else if i < |s| && s[i] == '0' && NonZeroDigitAt(s, i + 1) then
      Some((DigitValue(s[i + 1]), i + 2))
    else if NonZeroDigitAt(s, i) then
      Some((DigitValue(s[i]), i + 1))
    else None
  }

  /** `%d` at `s[i..]`: the day and where it ends. */
  function ScanDay(s: string, i: nat): (r: Option<(int, nat)>)
    ensures r.Some? ==> 1 <= r.value.0 <= 31 && i < r.value.1 <= |s|
  {
    if i < |s| && s[i] == '3' && i + 1 < |s| && (s[i + 1] == '0' || s[i + 1] == '1') then
      Some((30 + DigitValue(s[i + 1]), i + 2))
    else if i < |s| && (s[i] == '1' || s[i] == '2') && DigitAt(s, i + 1) then
      Some((10 * DigitValue(s[i]) + DigitValue(s[i + 1]), i + 2))
    else if i < |s| && s[i] == '0' && NonZeroDigitAt(s, i + 1) then
      Some((DigitValue(s[i + 1]), i + 2))
    else if NonZeroDigitAt(s, i) then
      Some((DigitValue(s[i]), i + 1))
    else None
  }

  datatype YearDirective = FullYear | TwoDigitYear

  function YearWidth(f: YearDirective): nat {
    if f == FullYear then 4 else 2
  }

  /** `%y`: 00 to 68 are 2000 to 2068, 69 to 99 are 1969 to 1999. */
  function CenturyYear(yy: int): int {
    if yy <= 68 then 2000 + yy else 1900 + yy
  }

  /** The fields the format's regular expression matches at the start of `s`, and
      where the match ends. */
  function ScanFields(s: string, f: YearDirective): (r: Option<(int, int, int, nat)>)
    ensures r.Some? ==> r.value.3 <= |s|
  {
    var w := YearWidth(f);
    if |s| < w || !AllDigits(s[..w]) then None
    else
      var gap1 := SpaceRun(s, w);
      if gap1 == 0 then None
      else
        match ScanMonth(s, w + gap1)
        case None => None
        case Some(m) =>
          var gap2 := SpaceRun(s, m.1);
          if gap2 == 0 then None
          else
            match ScanDay(s, m.1 + gap2)
            case None => None
            case Some(d) =>
              var yy := DigitsValue(s[..w]);
              Some((if f == FullYear then yy else CenturyYear(yy), m.0, d.0, d.1))
  }

  /** `datetime.strptime(s, fmt).date()`: ValueError when the expression does not
      match, when unconverted characters remain, or when the fields are not a date. */
  function Strptime(s: string, f: YearDirective): (r: Result<Date>)
    ensures r.Ok? ==> Valid(r.value)
    ensures r.Err? ==> r.error == ValueError
  {
    match ScanFields(s, f)
    case None => Err(ValueError)
    case Some(m) =>
      if m.3 != |s| then Err(ValueError)
      else
        var d := Date(m.0, m.1, m.2);
        if Valid(d) then Ok(d) else Err(ValueError)
  }

  // ---------------------------------------------------------------------------
  // writing a date as "YYYY MM DD"

  function TwoDigits(n: int): (s: string)
    requires 0 <= n < 100
    ensures |s| == 2 && AllDigits(s) && DigitsValue(s) == n
  {
    var s := [DigitChar(n / 10), DigitChar(n % 10)];
    assert s[..1] == [s[0]] && [s[0]][..0] == [];
    assert DigitsValue(s[..1]) == n / 10;
    s
  }

  function FourDigits(n: int): (s: string)
    requires 0 <= n < 10000
    ensures |s| == 4 && AllDigits(s) && DigitsValue(s) == n
  {
    var s := TwoDigits(n / 100) + TwoDigits(n % 100);
    assert s[..3][..2] == TwoDigits(n / 100);
    assert s[..3] == TwoDigits(n / 100) + [s[2]];
    s
  }

  /** `d.strftime("%Y %m %d")`. */
  function FormatDate(d: Date): (s: string)
    requires Valid(d)
  {
    FourDigits(d.year) + " " + TwoDigits(d.month) + " " + TwoDigits(d.day)
  }

  lemma ScanMonthTwoDigits(s: string, i: nat, m: int)
    requires 1 <= m <= 12 && i + 2 <= |s| && s[i..i + 2] == TwoDigits(m)
    ensures ScanMonth(s, i) == Some((m, i + 2))
  {
    assert s[i] == TwoDigits(m)[0] && s[i + 1] == TwoDigits(m)[1];
  }

  lemma ScanDayTwoDigits(s: string, i: nat, day: int)
    requires 1 <= day <= 31 && i + 2 <= |s| && s[i..i + 2] == TwoDigits(day)
    ensures ScanDay(s, i) == Some((day, i + 2))
  {
    assert s[i] == TwoDigits(day)[0] && s[i + 1] == TwoDigits(day)[1];
  }

  lemma SpaceRunOne(s: string, i: nat)
    requires i + 1 < |s| && s[i] == ' ' && !IsSpace(s[i + 1])
    ensures SpaceRun(s, i) == 1
  {
    assert SpaceRun(s, i + 1) == 0;
  }

  /** `strptime` reads back what `strftime` writes. */
  lemma StrptimeFormatDate(d: Date)
    requires Valid(d)
    ensures Strptime(FormatDate(d), FullYear) == Ok(d)
  {
    var s := FormatDate(d);
    var ys, ms, ds := FourDigits(d.year), TwoDigits(d.month), TwoDigits(d.day);
    assert s == ys + " " + ms + " " + ds;
    assert s[..4] == ys;
    assert s[5..7] == ms;
    assert s[8..10] == ds;
    SpaceRunOne(s, 4);
    ScanMonthTwoDigits(s, 5, d.month);
    SpaceRunOne(s, 7);
    ScanDayTwoDigits(s, 8, d.day);
    assert ScanFields(s, FullYear) == Some((d.year, d.month, d.day, 10));
  }

  /** `d.strftime("%y %m %d")`. */
  function FormatShortDate(d: Date): (s: string)
    requires Valid(d)
  {
    TwoDigits(d.year % 100) + " " + TwoDigits(d.month) + " " + TwoDigits(d.day)
  }

  /** A two-digit year is read back as the year of the century window 1969 to 2068,
      and the four-digit format does not accept it. */
  lemma StrptimeFormatShortDate(d: Date)
    requires Valid(d) && 1969 <= d.year <= 2068
    ensures Strptime(FormatShortDate(d), TwoDigitYear) == Ok(d)
    ensures Strptime(FormatShortDate(d), FullYear) == Err(ValueError)
  {
    var s := FormatShortDate(d);
    var ys, ms, ds := TwoDigits(d.year % 100), TwoDigits(d.month), TwoDigits(d.day);
    assert s == ys + " " + ms + " " + ds;
    assert s[..2] == ys;
    assert s[3..5] == ms;
    assert s[6..8] == ds;
    assert !IsDigit(s[..4][2]);
    SpaceRunOne(s, 2);
    ScanMonthTwoDigits(s, 3, d.month);
    SpaceRunOne(s, 5);
    ScanDayTwoDigits(s, 6, d.day);
    assert CenturyYear(d.year % 100) == d.year;
    assert ScanFields(s, TwoDigitYear) == Some((d.year, d.month, d.day, 8));
  }
}
