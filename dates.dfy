/** `parse_date` and `is_within_days`: a yearless `Mon d` resolved against the current moment,
    which is passed in as `now` instead of being read from the clock. Dates follow Python's
    `datetime`: the proleptic Gregorian calendar over years 1 to 9999, with day numbers
    ("ordinals") counted from 1 January of year 1. */
module Dates {
  import opened Text

  const MinYear := 1
  const MaxYear := 9999
  /** The ordinal of 31 December 9999, the last day `datetime` can hold. */
  const MaxOrdinal := 3652059
  /** The largest number of days a `timedelta` can hold, in either direction. */
  const MaxDeltaDays := 999999999
  const MicrosPerDay := 86400000000

  /** A `datetime`, its time of day counted in microseconds since midnight. */
  datatype DateTime = DateTime(year: int, month: int, day: int, micros: int)

  predicate IsLeap(y: int) {
    y % 4 == 0 && (y % 100 != 0 || y % 400 == 0)
  }

  function DaysInMonth(y: int, m: int): (n: int)
    requires 1 <= m <= 12
    ensures 28 <= n <= 31
  {
    if m == 2 then (if IsLeap(y) then 29 else 28)
    else if m == 4 || m == 6 || m == 9 || m == 11 then 30
    else 31
  }

  function DaysInYear(y: int): (n: int) {
    if IsLeap(y) then 366 else 365
  }

  predicate ValidDate(y: int, m: int, d: int) {
    MinYear <= y <= MaxYear && 1 <= m <= 12 && 1 <= d <= DaysInMonth(y, m)
  }

  predicate Valid(t: DateTime) {
    ValidDate(t.year, t.month, t.day) && 0 <= t.micros < MicrosPerDay
  }

  /** Days in the years before `y`. */
  function DaysBeforeYear(y: int): (n: int)
    requires y >= 1
  {
    var p := y - 1;
    p * 365 + p / 4 - p / 100 + p / 400
  }

  /** Days in the months of year `y` before month `m`. */
  function DaysBeforeMonth(y: int, m: int): (n: int)
    requires 1 <= m <= 12
  {
    [0, 31, 59, 90, 120, 151, 181, 212, 243, 273, 304, 334][m - 1]
    + (if m > 2 && IsLeap(y) then 1 else 0)
  }

  /** `date.toordinal()`: 1 January of year 1 is day 1. */
  function Ordinal(y: int, m: int, d: int): (n: int)
    requires ValidDate(y, m, d)
  {
    DaysBeforeYear(y) + DaysBeforeMonth(y, m) + d
  }

  function OrdinalOf(t: DateTime): (n: int)
    requires ValidDate(t.year, t.month, t.day)
  {
    Ordinal(t.year, t.month, t.day)
  }

  /** `a < b` on the date parts, compared field by field as `datetime` does. */
  predicate DateBefore(a: DateTime, b: DateTime) {
    a.year < b.year
    || (a.year == b.year && (a.month < b.month || (a.month == b.month && a.day < b.day)))
  }

  /** `a >= b` for two `datetime` values. */
  predicate AtOrAfter(a: DateTime, b: DateTime) {
    DateBefore(b, a) || (a.year == b.year && a.month == b.month && a.day == b.day && a.micros >= b.micros)
  }

  // ---------------------------------------------------------------------------------------
  // The calendar

  lemma DivStep(p: int)
    requires p >= 0
    ensures (p + 1) / 4 - p / 4 == (if (p + 1) % 4 == 0 then 1 else 0)
    ensures (p + 1) / 100 - p / 100 == (if (p + 1) % 100 == 0 then 1 else 0)
    ensures (p + 1) / 400 - p / 400 == (if (p + 1) % 400 == 0 then 1 else 0)
  {
  }

  lemma LeapDivisors(y: int)
    ensures y % 400 == 0 ==> y % 100 == 0
    ensures y % 100 == 0 ==> y % 4 == 0
  {
    if y % 400 == 0 {
      var q := y / 400;
      assert y == 400 * q;
      assert y / 100 == 4 * q;
    }
    if y % 100 == 0 {
      var q := y / 100;
      assert y == 100 * q;
      assert y / 4 == 25 * q;
    }
  }

  /** A year adds its own length to the days before it. */
  lemma DaysBeforeNextYear(y: int)
    requires y >= 1
    ensures DaysBeforeYear(y + 1) == DaysBeforeYear(y) + DaysInYear(y)
  {
    DivStep(y - 1);
    LeapDivisors(y);
  }

  lemma {:induction false} DaysBeforeYearMono(y: int, z: int)
    requires 1 <= y <= z
    ensures DaysBeforeYear(y) + (z - y) * 365 <= DaysBeforeYear(z)
    decreases z - y
  {
    if y < z {
      DaysBeforeNextYear(y);
      DaysBeforeYearMono(y + 1, z);
    }
  }

  /** A month adds its own length to the days before it. */
  lemma DaysBeforeNextMonth(y: int, m: int)
    requires 1 <= m < 12
    ensures DaysBeforeMonth(y, m + 1) == DaysBeforeMonth(y, m) + DaysInMonth(y, m)
  {
  }

  lemma {:induction false} DaysBeforeMonthMono(y: int, m: int, n: int)
    requires 1 <= m < n <= 12
    ensures DaysBeforeMonth(y, m) + DaysInMonth(y, m) <= DaysBeforeMonth(y, n)
    decreases n - m
  {
    DaysBeforeNextMonth(y, m);
    if m + 1 < n {
      DaysBeforeMonthMono(y, m + 1, n);
    }
  }

  lemma LastDayOfYear(y: int)
    ensures DaysBeforeMonth(y, 12) + DaysInMonth(y, 12) == DaysInYear(y)
  {
  }

  /** An earlier calendar date has a smaller ordinal. */
  lemma OrdinalIncreasing(a: DateTime, b: DateTime)
    requires ValidDate(a.year, a.month, a.day) && ValidDate(b.year, b.month, b.day)
    requires DateBefore(a, b)
    ensures OrdinalOf(a) < OrdinalOf(b)
  {
    if a.year < b.year {
      OrdinalIncreasingAcrossYears(a, b);
    } else if a.month < b.month {
      DaysBeforeMonthMono(a.year, a.month, b.month);
    }
  }

  lemma OrdinalIncreasingAcrossYears(a: DateTime, b: DateTime)
    requires ValidDate(a.year, a.month, a.day) && ValidDate(b.year, b.month, b.day)
    requires a.year < b.year
    ensures OrdinalOf(a) < OrdinalOf(b)
  {
    if a.month < 12 {
      DaysBeforeMonthMono(a.year, a.month, 12);
    }
    LastDayOfYear(a.year);
    DaysBeforeNextYear(a.year);
    DaysBeforeYearMono(a.year + 1, b.year);
  }

  /** Comparing ordinals is comparing calendar dates, and equal ordinals are the same date. */
  lemma OrdinalOrder(a: DateTime, b: DateTime)
    requires ValidDate(a.year, a.month, a.day) && ValidDate(b.year, b.month, b.day)
    ensures DateBefore(a, b) <==> OrdinalOf(a) < OrdinalOf(b)
    ensures OrdinalOf(a) == OrdinalOf(b)
            <==> (a.year == b.year && a.month == b.month && a.day == b.day)
  {
    if DateBefore(a, b) {
      OrdinalIncreasing(a, b);
    }
    if DateBefore(b, a) {
      OrdinalIncreasing(b, a);
    }
  }

  /** Every valid date has an ordinal between 1 and `MaxOrdinal`. */
  lemma OrdinalBounds(t: DateTime)
    requires ValidDate(t.year, t.month, t.day)
    ensures 1 <= OrdinalOf(t) <= MaxOrdinal
  {
    DaysBeforeYearMono(1, t.year);
    var last := DateTime(MaxYear, 12, 31, 0);
    if DateBefore(t, last) {
      OrdinalIncreasing(t, last);
    }
  }

  /** The calendar date after `t`. */
  function NextDay(t: DateTime): (u: DateTime)
    requires ValidDate(t.year, t.month, t.day)
    requires t.year < MaxYear || t.month < 12 || t.day < 31
    ensures ValidDate(u.year, u.month, u.day) && OrdinalOf(u) == OrdinalOf(t) + 1
  {
    if t.day < DaysInMonth(t.year, t.month) then DateTime(t.year, t.month, t.day + 1, t.micros)
    else if t.month < 12 then
      DaysBeforeNextMonth(t.year, t.month);
      DateTime(t.year, t.month + 1, 1, t.micros)
    else
      LastDayOfYear(t.year);
      DaysBeforeNextYear(t.year);
      DateTime(t.year + 1, 1, 1, t.micros)
  }

  /** Every ordinal from 1 to `MaxOrdinal` is the ordinal of a calendar date: the date
      arithmetic of `datetime - timedelta` always lands on a real date inside that range. */
  lemma {:induction false} DateOfOrdinal(n: int, micros: int) returns (t: DateTime)
    requires 1 <= n <= MaxOrdinal
    ensures ValidDate(t.year, t.month, t.day) && OrdinalOf(t) == n && t.micros == micros
    decreases n
  {
    if n == 1 {
      t := DateTime(1, 1, 1, micros);
    } else {
      var u := DateOfOrdinal(n - 1, micros);
      t := NextDay(u);
    }
  }

  // ---------------------------------------------------------------------------------------
  // parse_date

  /** The month keys of `parse_date`'s table, in calendar order. */
  const MonthNames: seq<string> :=
    ["Jan", "Feb", "Mar", "Apr", "May", "Jun", "Jul", "Aug", "Sep", "Oct", "Nov", "Dec"]

  /** `parse_date`'s month table. */
  const Months: map<string, int> :=
    map["Jan" := 1, "Feb" := 2, "Mar" := 3, "Apr" := 4, "May" := 5, "Jun" := 6,
        "Jul" := 7, "Aug" := 8, "Sep" := 9, "Oct" := 10, "Nov" := 11, "Dec" := 12]

  /** The table maps the k-th name to month k, and holds nothing else. */
  lemma MonthsTable()
    ensures forall k :: 0 <= k < 12 ==> MonthNames[k] in Months && Months[MonthNames[k]] == k + 1
    ensures forall name :: name in Months ==> 1 <= Months[name] <= 12
    ensures forall name :: name in Months <==> name in MonthNames
  {
  }

  /** The year `parse_date` gives a month: a month later in the year than now's month is taken
      from last year. */
  function ResolvedYear(month: int, now: DateTime): (y: int) {
    if month > now.month then now.year - 1 else now.year
  }

  /** `parse_date(date_str)`: two whitespace-separated fields, a month key and a day. `None`
      where Python raises: not two fields, an unknown month, a day `int` rejects, or a date
      that does not exist (in year 0 included). The date found lies in the twelve months that
      end with now's month. */
  function ParseDate(dateStr: string, now: DateTime): (r: Option<DateTime>)
    requires Valid(now)
    ensures r.Some? ==> Valid(r.value) && r.value.micros == 0
    ensures r.Some? ==> var f := Fields(dateStr);
      && |f| == 2 && f[0] in Months && Months[f[0]] == r.value.month
      && PyInt(f[1]) == Some(r.value.day)
    ensures r.Some? ==> r.value.year == ResolvedYear(r.value.month, now)
    ensures r.Some? ==>
      now.year * 12 + now.month - 12 < r.value.year * 12 + r.value.month <= now.year * 12 + now.month
  {
    var f := Fields(dateStr);
    if |f| != 2 || f[0] !in Months then None
    else
      var month := Months[f[0]];
      match PyInt(f[1])
      case None => None
      case Some(day) =>
        var year := ResolvedYear(month, now);
        if ValidDate(year, month, day) then Some(DateTime(year, month, day, 0)) else None
  }

  /** Reading back a written `Mon d`: month `m`, day `d`, in the year the rule gives. */
  lemma ParseDateOfToken(m: int, d: nat, now: DateTime)
    requires 1 <= m <= 12 && Valid(now) && |DecimalString(d)| <= MaxStrDigits
    ensures var y := ResolvedYear(m, now);
      ParseDate(MonthNames[m - 1] + " " + DecimalString(d), now)
      == if ValidDate(y, m, d) then Some(DateTime(y, m, d, 0)) else None
  {
    MonthsTable();
    var x, y := MonthNames[m - 1], DecimalString(d);
    assert AllIn(NonSpace, x);
    assert AllIn(NonSpace, y) by {
      forall k | 0 <= k < |y| ensures !IsSpace(y[k]) {
        assert IsDigit(y[k]);
      }
    }
    FieldsOfTwo(x, " ", y);
    PyIntDecimalString(d);
  }

  /** What `parse_date` accepts, from the text's side: whitespace, a month key, whitespace, a
      day `int()` accepts (at most `MaxStrDigits` digits), whitespace. Such text parses to that month and day in the resolved
      year exactly when that date exists. */
  lemma ParseDateOfText(w1: string, name: string, w: string, sign: string, t: string, w3: string,
                        now: DateTime)
    requires Valid(now)
    requires AllIn(Space, w1) && |w| > 0 && AllIn(Space, w) && AllIn(Space, w3)
    requires name in Months
    requires sign == "" || sign == "+" || sign == "-"
    requires UnderscoredDigits(t) && DigitCount(t) <= MaxStrDigits
    ensures var m := Months[name];
      var d: int := if sign == "-" then -(NumeralValue(t) as int) else NumeralValue(t);
      var y := ResolvedYear(m, now);
      ParseDate(w1 + name + w + (sign + t) + w3, now)
      == if ValidDate(y, m, d) then Some(DateTime(y, m, d, 0)) else None
  {
    DateTextWords(w1, name, w, sign, t, w3);
    assert Fields(w1 + name + w + (sign + t) + w3) == [name, sign + t];
    assert PyInt(sign + t) == Some(if sign == "-" then -(NumeralValue(t) as int) else NumeralValue(t));
    ParseDateOfWords(w1 + name + w + (sign + t) + w3, name, sign + t,
                     if sign == "-" then -(NumeralValue(t) as int) else NumeralValue(t), now);
  }

  /** Such text splits into the month key and the day, and `int()` reads the day. */
  lemma DateTextWords(w1: string, name: string, w: string, sign: string, t: string, w3: string)
    requires AllIn(Space, w1) && |w| > 0 && AllIn(Space, w) && AllIn(Space, w3)
    requires name in Months
    requires sign == "" || sign == "+" || sign == "-"
    requires UnderscoredDigits(t) && DigitCount(t) <= MaxStrDigits
    ensures Fields(w1 + name + w + (sign + t) + w3) == [name, sign + t]
    ensures PyInt(sign + t) == Some(if sign == "-" then -(NumeralValue(t) as int) else NumeralValue(t))
  {
    MonthNameIsWord(name);
    NumeralIsWord(sign, t);
    FieldsOfPadded(w1, name, w, sign + t, w3);
    PyIntOfNumeral(sign, t);
  }

  /** Text whose fields are a month key and a day `int()` reads as `d`. */
  lemma ParseDateOfWords(s: string, name: string, day: string, d: int, now: DateTime)
    requires Valid(now)
    requires Fields(s) == [name, day]
    requires name in Months
    requires PyInt(day) == Some(d)
    ensures var m := Months[name];
      var y := ResolvedYear(m, now);
      ParseDate(s, now) == if ValidDate(y, m, d) then Some(DateTime(y, m, d, 0)) else None
  {
  }

  /** Conversely, every text `parse_date` accepts has that shape, and the date is the one
      `ParseDateOfText` gives for it. */
  lemma ParseDateShape(dateStr: string, now: DateTime)
    returns (w1: string, name: string, w: string, sign: string, t: string, w3: string)
    requires Valid(now) && ParseDate(dateStr, now).Some?
    ensures dateStr == w1 + name + w + (sign + t) + w3
    ensures AllIn(Space, w1) && |w| > 0 && AllIn(Space, w) && AllIn(Space, w3)
    ensures name in Months
    ensures sign == "" || sign == "+" || sign == "-"
    ensures UnderscoredDigits(t) && DigitCount(t) <= MaxStrDigits
    ensures var m := Months[name];
      var d: int := if sign == "-" then -(NumeralValue(t) as int) else NumeralValue(t);
      var y := ResolvedYear(m, now);
      ValidDate(y, m, d) && ParseDate(dateStr, now) == Some(DateTime(y, m, d, 0))
  {
    var f := Fields(dateStr);
    w1, w, w3 := TwoFieldsShape(dateStr);
    name := f[0];
    sign, t := WordPyInt(f[1]);
  }

  /** The month keys are words. */
  lemma MonthNameIsWord(name: string)
    requires name in Months
    ensures |name| > 0 && AllIn(NonSpace, name)
  {
    MonthsTable();
  }

  // ---------------------------------------------------------------------------------------
  // is_within_days

  /** `is_within_days(date_str, days)`: whether the parsed date is no earlier than
      `now - timedelta(days=days)`. False on every exception: a date that does not parse, a
      `timedelta` out of range, or a difference before year 1 or after year 9999. The tweet date
      is midnight while the cutoff keeps now's time of day. */
  function IsWithinDays(dateStr: string, days: int, now: DateTime): (r: bool)
    requires Valid(now)
    ensures ParseDate(dateStr, now).None? ==> !r
    ensures r ==> -MaxDeltaDays <= days <= MaxDeltaDays
  {
    match ParseDate(dateStr, now)
    case None => false
    case Some(t) =>
      if days < -MaxDeltaDays || days > MaxDeltaDays then false
      else
        var cutoff := OrdinalOf(now) - days;
        if cutoff < 1 || cutoff > MaxOrdinal then false
        else OrdinalOf(t) > cutoff || (OrdinalOf(t) == cutoff && now.micros == 0)
  }

  /** The recency check is Python's comparison `tweet_date >= now - timedelta(days)`: it holds
      exactly when the date parses, the cutoff exists as a calendar moment (now's date moved
      back `days` days, now's time of day kept), and the tweet's midnight is at or after it. */
  lemma WithinDaysIsComparison(dateStr: string, days: int, now: DateTime)
    requires Valid(now)
    ensures IsWithinDays(dateStr, days, now) <==>
      && ParseDate(dateStr, now).Some?
      && -MaxDeltaDays <= days <= MaxDeltaDays
      && exists c: DateTime :: ValidDate(c.year, c.month, c.day) && c.micros == now.micros
           && OrdinalOf(c) == OrdinalOf(now) - days && AtOrAfter(ParseDate(dateStr, now).value, c)
  {
    var p := ParseDate(dateStr, now);
    if p.Some? && -MaxDeltaDays <= days <= MaxDeltaDays {
      var t := p.value;
      var n := OrdinalOf(now) - days;
      if 1 <= n <= MaxOrdinal {
        var c := DateOfOrdinal(n, now.micros);
        OrdinalOrder(c, t);
        assert IsWithinDays(dateStr, days, now) <==> AtOrAfter(t, c);
      }
      if c: DateTime :| (ValidDate(c.year, c.month, c.day) && c.micros == now.micros
                          && OrdinalOf(c) == n && AtOrAfter(t, c)) {
        OrdinalBounds(c);
        OrdinalOrder(c, t);
      }
    }
  }

  /** The boundary is inclusive only at midnight: a tweet dated exactly `days` days before
      today is recent when now is midnight, and not once any time of the day has passed. */
  lemma WithinDaysBoundary(dateStr: string, days: int, now: DateTime)
    requires Valid(now) && ParseDate(dateStr, now).Some?
    requires -MaxDeltaDays <= days <= MaxDeltaDays && OrdinalOf(ParseDate(dateStr, now).value) == OrdinalOf(now) - days
    ensures IsWithinDays(dateStr, days, now) <==> now.micros == 0
  {
    OrdinalBounds(ParseDate(dateStr, now).value);
  }

  /** Widening the window keeps a recent date recent, as long as the wider cutoff is still a
      date `datetime` can represent. */
  lemma WithinDaysWider(dateStr: string, days: int, wider: int, now: DateTime)
    requires Valid(now) && IsWithinDays(dateStr, days, now)
    requires days <= wider <= MaxDeltaDays && OrdinalOf(now) - wider >= 1
    ensures IsWithinDays(dateStr, wider, now)
  {
  }
}
