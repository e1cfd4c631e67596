/** Cache file name expansion: a dotted base name becomes a directory path
    and an identifier, and a daily date range becomes one parquet file name
    per calendar day. Dates are proleptic Gregorian calendar dates in the
    years 1 to 9999, the range Python's `datetime` supports. */
module CacheName {
  import opened Wrappers
  import Decimal

  // ---------------------------------------------------------------------
  // Splitting and joining

  /** `str.split(sep)`: the pieces between separators, empty ones included. */
  function Split(s: string, sep: char): (parts: seq<string>)
    ensures |parts| >= 1
    ensures forall i, j :: 0 <= i < |parts| && 0 <= j < |parts[i]| ==> parts[i][j] != sep
  {
    if s == [] then [""]
    else
      var rest := Split(s[1..], sep);
      if s[0] == sep then [""] + rest else [[s[0]] + rest[0]] + rest[1..]
  }

  /** `sep.join(parts)`. */
  function Join(parts: seq<string>, sep: string): string
  {
    if parts == [] then ""
    else if |parts| == 1 then parts[0]
    else parts[0] + sep + Join(parts[1..], sep)
  }

  /** Joining the pieces with the separator gives the text back. */
  lemma {:induction false} JoinSplit(s: string, sep: char)
    ensures Join(Split(s, sep), [sep]) == s
  {
    if s != [] {
      var rest := Split(s[1..], sep);
      JoinSplit(s[1..], sep);
      if s[0] == sep {
        assert Split(s, sep) == [""] + rest;
        assert ([""] + rest)[1..] == rest;
      } else {
        var parts := [[s[0]] + rest[0]] + rest[1..];
        if |rest| == 1 {
          assert Join(parts, [sep]) == [s[0]] + rest[0];
        } else {
          assert parts[1..] == rest[1..];
          assert Join(rest, [sep]) == rest[0] + [sep] + Join(rest[1..], [sep]);
        }
      }
    }
  }

  // ---------------------------------------------------------------------
  // Calendar dates

  datatype Date = Date(year: int, month: int, day: int)

  predicate IsLeap(y: int)
  {
    y % 4 == 0 && (y % 100 != 0 || y % 400 == 0)
  }

  function DaysInMonth(y: int, m: int): int
  {
    if m == 2 then (if IsLeap(y) then 29 else 28)
    else if m == 4 || m == 6 || m == 9 || m == 11 then 30
    else 31
  }

  predicate Valid(d: Date)
  {
    1 <= d.year <= 9999 && 1 <= d.month <= 12 && 1 <= d.day <= DaysInMonth(d.year, d.month)
  }

  /** Days in the years before `y`. */
  function DaysBeforeYear(y: int): int
    requires y >= 1
  {
    var p := y - 1;
    365 * p + p / 4 - p / 100 + p / 400
  }

  /** Days in the months of year `y` before month `m`. */
  function DaysBeforeMonth(y: int, m: int): (n: int)
    requires 1 <= m <= 13
    ensures n >= 0
  {
    if m == 1 then 0 else DaysBeforeMonth(y, m - 1) + DaysInMonth(y, m - 1)
  }

  /** Day 1 is 1 January of year 1, as Python's `date.toordinal`. */
  function Ordinal(d: Date): int
    requires Valid(d)
  {
    DaysBeforeYear(d.year) + DaysBeforeMonth(d.year, d.month) + d.day
  }

  /** Lexicographic comparison, as Python compares dates. */
  predicate NotAfter(a: Date, b: Date)
  {
    a.year < b.year || (a.year == b.year && (a.month < b.month || (a.month == b.month && a.day <= b.day)))
  }

  /** `date + timedelta(days=1)`, which fails past 31 December 9999. */
  function NextDay(d: Date): (r: Option<Date>)
    requires Valid(d)
    ensures r.Some? ==> Valid(r.value) && Ordinal(r.value) == Ordinal(d) + 1
    ensures r.None? <==> d == Date(9999, 12, 31)
  {
    if d.day < DaysInMonth(d.year, d.month) then Some(Date(d.year, d.month, d.day + 1))
    else if d.month < 12 then Some(Date(d.year, d.month + 1, 1))
    else if d.year < 9999 then (YearLength(d.year); Some(Date(d.year + 1, 1, 1)))
    else None
  }

  lemma YearLength(y: int)
    requires y >= 1
    ensures DaysBeforeMonth(y, 13) == if IsLeap(y) then 366 else 365
    ensures DaysBeforeYear(y + 1) == DaysBeforeYear(y) + DaysBeforeMonth(y, 13)
  {
    MonthTable(y);
    LeapDays(y);
  }

  /** The months of a year add up to 337 days plus February. */
  lemma MonthTable(y: int)
    ensures DaysBeforeMonth(y, 13) == 337 + DaysInMonth(y, 2)
  {
    var feb := DaysInMonth(y, 2);
    assert DaysBeforeMonth(y, 2) == 31;
    assert DaysBeforeMonth(y, 3) == 31 + feb;
    assert DaysBeforeMonth(y, 4) == 62 + feb;
    assert DaysBeforeMonth(y, 5) == 92 + feb;
    assert DaysBeforeMonth(y, 6) == 123 + feb;
    assert DaysBeforeMonth(y, 7) == 153 + feb;
    assert DaysBeforeMonth(y, 8) == 184 + feb;
    assert DaysBeforeMonth(y, 9) == 215 + feb;
    assert DaysBeforeMonth(y, 10) == 245 + feb;
    assert DaysBeforeMonth(y, 11) == 276 + feb;
    assert DaysBeforeMonth(y, 12) == 306 + feb;
  }

  /** Year `y` adds a leap day to the count exactly when it is a leap year. */
  lemma LeapDays(y: int)
    requires y >= 1
    ensures DaysBeforeYear(y + 1) == DaysBeforeYear(y) + if IsLeap(y) then 366 else 365
  {
    var p := y - 1;
    Quarters(p);
    Centuries(p);
    QuadCenturies(p);
  }

  lemma Quarters(p: int)
    requires p >= 0
    ensures (p + 1) / 4 == p / 4 + (if (p + 1) % 4 == 0 then 1 else 0)
  {
  }

  lemma Centuries(p: int)
    requires p >= 0
    ensures (p + 1) / 100 == p / 100 + (if (p + 1) % 100 == 0 then 1 else 0)
  {
  }

  lemma QuadCenturies(p: int)
    requires p >= 0
    ensures (p + 1) / 400 == p / 400 + (if (p + 1) % 400 == 0 then 1 else 0)
  {
  }

  lemma {:induction false} MonthsFit(y: int, m: int)
    requires 1 <= m <= 12
    ensures DaysBeforeMonth(y, m) + DaysInMonth(y, m) <= DaysBeforeMonth(y, 13)
    decreases 12 - m
  {
    if m < 12 {
      MonthsFit(y, m + 1);
    }
  }

  lemma {:induction false} MonthsIncrease(y: int, m1: int, m2: int)
    requires 1 <= m1 < m2 <= 13
    ensures DaysBeforeMonth(y, m1) + DaysInMonth(y, m1) <= DaysBeforeMonth(y, m2)
    decreases m2 - m1
  {
    if m1 + 1 < m2 {
      MonthsIncrease(y, m1, m2 - 1);
    }
  }

  lemma {:induction false} YearsIncrease(y1: int, y2: int)
    requires 1 <= y1 < y2
    ensures DaysBeforeYear(y1) + DaysBeforeMonth(y1, 13) <= DaysBeforeYear(y2)
    decreases y2 - y1
  {
    YearLength(y1);
    if y1 + 1 < y2 {
      YearsIncrease(y1 + 1, y2);
      YearLength(y1 + 1);
    }
  }

  /** Comparing dates is comparing their day numbers. */
  lemma NotAfterIsOrdinalOrder(a: Date, b: Date)
    requires Valid(a) && Valid(b)
    ensures NotAfter(a, b) <==> Ordinal(a) <= Ordinal(b)
    ensures a == b <==> Ordinal(a) == Ordinal(b)
  {
    if a.year != b.year {
      if a.year < b.year { OrdinalOrderAcrossYears(a, b); } else { OrdinalOrderAcrossYears(b, a); }
    } else if a.month != b.month {
      if a.month < b.month { OrdinalOrderAcrossMonths(a, b); } else { OrdinalOrderAcrossMonths(b, a); }
    }
  }

  lemma OrdinalOrderAcrossYears(a: Date, b: Date)
    requires Valid(a) && Valid(b) && a.year < b.year
    ensures Ordinal(a) < Ordinal(b)
  {
    MonthsFit(a.year, a.month);
    YearsIncrease(a.year, b.year);
  }

  lemma OrdinalOrderAcrossMonths(a: Date, b: Date)
    requires Valid(a) && Valid(b) && a.year == b.year && a.month < b.month
    ensures Ordinal(a) < Ordinal(b)
  {
    MonthsIncrease(a.year, a.month, b.month);
  }

  /** `strftime("%Y%m%d")`: four, two and two zero-padded digits. */
  function FormatDate(d: Date): (s: string)
    requires Valid(d)
    ensures |s| == 8 && Decimal.AllDigits(s)
  {
    Decimal.NatToStringShort(d.year, 4);
    Decimal.NatToStringShort(d.month, 2);
    Decimal.NatToStringShort(d.day, 2);
    Decimal.PadNat(d.year, 4) + Decimal.PadNat(d.month, 2) + Decimal.PadNat(d.day, 2)
  }

  /** `strptime(s, "%Y%m%d")` for eight-digit text: the calendar date it
      names, or `None` when it names none. */
  function ParseDate(s: string): (r: Option<Date>)
    ensures r.Some? ==> Valid(r.value)
  {
    if |s| == 8 && Decimal.AllDigits(s) then
      var d := Date(Decimal.ParseNat(s[..4]), Decimal.ParseNat(s[4..6]), Decimal.ParseNat(s[6..]));
      if Valid(d) then Some(d) else None
    else None
  }

  /** Reading back a formatted date gives the date. */
  lemma ParseFormat(d: Date)
    requires Valid(d)
    ensures ParseDate(FormatDate(d)) == Some(d)
  {
    var y, m, dd := Decimal.PadNat(d.year, 4), Decimal.PadNat(d.month, 2), Decimal.PadNat(d.day, 2);
    var s := FormatDate(d);
    Decimal.NatToStringShort(d.year, 4);
    Decimal.NatToStringShort(d.month, 2);
    Decimal.NatToStringShort(d.day, 2);
    assert s == y + m + dd;
    assert s[..4] == y && s[4..6] == m && s[6..] == dd;
    Decimal.ParsePadNat(d.year, 4);
    Decimal.ParsePadNat(d.month, 2);
    Decimal.ParsePadNat(d.day, 2);
  }

  /** The date `k` days after `d`, or `None` past the last date. */
  function DaysAfter(d: Date, k: nat): (r: Option<Date>)
    requires Valid(d)
    ensures r.Some? ==> Valid(r.value) && Ordinal(r.value) == Ordinal(d) + k
  {
    if k == 0 then Some(d)
    else
      var p := DaysAfter(d, k - 1);
      if p.None? then None else NextDay(p.value)
  }

  lemma DaysAfterStep(d: Date, k: nat, c: Date)
    requires Valid(d) && Valid(c) && DaysAfter(d, k) == Some(c) && NextDay(c).Some?
    ensures DaysAfter(d, k + 1) == NextDay(c)
  {
  }

  // ---------------------------------------------------------------------
  // File names

  datatype CacheError =
    | TooFewParts
    | BadStartDate
    | BadEndDate
    | UnsupportedFrequency
    | DateOverflow

  function FileName(directory: string, identifier: string, d: Date): string
    requires Valid(d)
  {
    directory + "/" + identifier + "/" + identifier + "_" + FormatDate(d) + ".pqt"
  }

  /** `names[i]` is the file name of the `i`-th day from `start`. */
  predicate NamesFrom(names: seq<string>, directory: string, identifier: string, start: Date)
    requires Valid(start)
  {
    forall i {:trigger names[i]} :: 0 <= i < |names| ==>
      DaysAfter(start, i).Some? && names[i] == FileName(directory, identifier, DaysAfter(start, i).value)
  }

  lemma NamesSnoc(names: seq<string>, directory: string, identifier: string, start: Date, current: Date)
    requires Valid(start) && Valid(current) && NamesFrom(names, directory, identifier, start)
    requires DaysAfter(start, |names|) == Some(current)
    ensures NamesFrom(names + [FileName(directory, identifier, current)], directory, identifier, start)
  {
    var extended := names + [FileName(directory, identifier, current)];
    forall i | 0 <= i < |extended|
      ensures DaysAfter(start, i).Some? && extended[i] == FileName(directory, identifier, DaysAfter(start, i).value)
    {
      if i < |names| {
        assert extended[i] == names[i];
      } else {
        assert i == |names|;
        assert DaysAfter(start, i) == Some(current);
        assert extended[i] == FileName(directory, identifier, current);
      }
    }
  }

  /** Day count of the inclusive range, zero when it is empty. */
  function RangeLength(start: Date, end: Date): nat
    requires Valid(start) && Valid(end)
  {
    if Ordinal(end) < Ordinal(start) then 0 else Ordinal(end) - Ordinal(start) + 1
  }

  /** The source's `while current_date <= end_date` loop: one file name per
      day from `start` to `end`, failing when stepping past the last date. */
  method DailyNames(directory: string, identifier: string, start: Date, end: Date)
    returns (r: Result<seq<string>, CacheError>)
    requires Valid(start) && Valid(end)
    ensures NotAfter(start, end) && end == Date(9999, 12, 31) ==> r == Failure(DateOverflow)
    ensures !(NotAfter(start, end) && end == Date(9999, 12, 31)) ==>
              r.Success? && |r.value| == RangeLength(start, end) && NamesFrom(r.value, directory, identifier, start)
  {
    var filenames: seq<string> := [];
    var current := start;
    ghost var total := RangeLength(start, end);
    RangeStart(start, end);
    while NotAfter(current, end)
      invariant Valid(current) && DaysAfter(start, |filenames|) == Some(current)
      invariant |filenames| <= total
      invariant NotAfter(current, end) <==> |filenames| < total
      invariant NamesFrom(filenames, directory, identifier, start)
      decreases total - |filenames|
    {
      NamesSnoc(filenames, directory, identifier, start, current);
      var next := NextDay(current);
      if next.None? {
        LastDay(start, end, current, |filenames|);
        return Failure(DateOverflow);
      }
      RangeAdvance(start, end, current, next.value, |filenames|);
      filenames := filenames + [FileName(directory, identifier, current)];
      current := next.value;
    }
    NotAfterLast(current);
    return Success(filenames);
  }

  /** No date comes after 31 December 9999. */
  lemma NotAfterLast(d: Date)
    requires Valid(d)
    ensures NotAfter(d, Date(9999, 12, 31))
  {
    assert d.day <= 31;
  }

  /** The range is non-empty exactly when it starts no later than it ends. */
  lemma RangeStart(start: Date, end: Date)
    requires Valid(start) && Valid(end)
    ensures NotAfter(start, end) <==> 0 < RangeLength(start, end)
  {
    NotAfterIsOrdinalOrder(start, end);
  }

  /** Stepping from the `n`-th day of the range to the next one, which is
      still in the range exactly when `n + 1` days have not yet been counted. */
  lemma RangeAdvance(start: Date, end: Date, current: Date, next: Date, n: nat)
    requires Valid(start) && Valid(end) && Valid(current)
    requires n < RangeLength(start, end) && DaysAfter(start, n) == Some(current)
    requires NextDay(current) == Some(next)
    ensures DaysAfter(start, n + 1) == Some(next)
    ensures NotAfter(next, end) <==> n + 1 < RangeLength(start, end)
  {
    DaysAfterStep(start, n, current);
    NotAfterIsOrdinalOrder(next, end);
  }

  /** A range that reaches 31 December 9999 ends there. */
  lemma LastDay(start: Date, end: Date, current: Date, n: nat)
    requires Valid(start) && Valid(end) && Valid(current)
    requires n < RangeLength(start, end) && DaysAfter(start, n) == Some(current)
    requires current == Date(9999, 12, 31)
    ensures end == Date(9999, 12, 31) && NotAfter(start, end)
  {
    NotAfterIsOrdinalOrder(end, current);
    NotAfterIsOrdinalOrder(start, end);
  }

  /** `expand_filenames`. The checks come in the source's order: the number
      of name parts, the start date, the end date, then the frequency. */
  method ExpandFilenames(frequency: string, baseName: string, startDate: string, endDate: string)
    returns (r: Result<seq<string>, CacheError>)
    ensures |Split(baseName, '.')| < 3 ==> r == Failure(TooFewParts)
    ensures |Split(baseName, '.')| >= 3 && ParseDate(startDate).None? ==> r == Failure(BadStartDate)
    ensures |Split(baseName, '.')| >= 3 && ParseDate(startDate).Some? && ParseDate(endDate).None? ==>
              r == Failure(BadEndDate)
    ensures |Split(baseName, '.')| >= 3 && ParseDate(startDate).Some? && ParseDate(endDate).Some? ==>
              var start, end := ParseDate(startDate).value, ParseDate(endDate).value;
              var parts := Split(baseName, '.');
              var directory, identifier := Join(parts[..|parts| - 1], "/"), parts[|parts| - 1];
              if frequency != "Daily" then r == Failure(UnsupportedFrequency)
              else if NotAfter(start, end) && end == Date(9999, 12, 31) then r == Failure(DateOverflow)
              else
                r.Success? && |r.value| == RangeLength(start, end) && NamesFrom(r.value, directory, identifier, start)
  {
    var parts := Split(baseName, '.');
    if |parts| < 3 {
      return Failure(TooFewParts);
    }
    var directory, identifier := Join(parts[..|parts| - 1], "/"), parts[|parts| - 1];
    var start := ParseDate(startDate);
    if start.None? {
      return Failure(BadStartDate);
    }
    var end := ParseDate(endDate);
    if end.None? {
      return Failure(BadEndDate);
    }
    if frequency != "Daily" {
      return Failure(UnsupportedFrequency);
    }
    r := DailyNames(directory, identifier, start.value, end.value);
  }
}
