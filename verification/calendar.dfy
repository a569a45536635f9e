/** `getOffsettedDate`: the proleptic Gregorian calendar the JavaScript `Date` object uses,
    day numbers counted from 1970-01-01 (the day part of a time value), `Date.UTC` with its
    month and day roll-over, and the `YYYY-MM-DD` part of `toISOString`. */
module Calendar {
  import opened Wrappers
  import opened Text
  import opened Numbers

  datatype Date = Date(year: int, month: int, day: int)

  predicate IsLeapYear(y: int) {
    y % 4 == 0 && (y % 100 != 0 || y % 400 == 0)
  }

  function DaysInMonth(y: int, m: int): int
    requires 1 <= m <= 12
  {
    if m == 2 then (if IsLeapYear(y) then 29 else 28)
    else if m == 4 || m == 6 || m == 9 || m == 11 then 30
    else 31
  }

  predicate Valid(d: Date) {
    1 <= d.month <= 12 && 1 <= d.day <= DaysInMonth(d.year, d.month)
  }

  /** A number that grows with the calendar order of valid dates (used as a termination measure). */
  function Ordinal(d: Date): int {
    d.year * 400 + d.month * 32 + d.day
  }

  /** The calendar successor. */
  function NextDay(d: Date): (r: Date)
    requires Valid(d)
    ensures Valid(r) && Ordinal(d) < Ordinal(r)
    ensures r.year == d.year || (r.year == d.year + 1 && r.month == 1 && r.day == 1)
  {
    if d.day < DaysInMonth(d.year, d.month) then Date(d.year, d.month, d.day + 1)
    else if d.month < 12 then Date(d.year, d.month + 1, 1)
    else Date(d.year + 1, 1, 1)
  }

  /** The calendar predecessor. */
  function PrevDay(d: Date): (r: Date)
    requires Valid(d)
    ensures Valid(r) && Ordinal(r) < Ordinal(d)
    ensures r.year == d.year || (r.year == d.year - 1 && d.month == 1 && d.day == 1)
  {
    if d.day > 1 then Date(d.year, d.month, d.day - 1)
    else if d.month > 1 then Date(d.year, d.month - 1, DaysInMonth(d.year, d.month - 1))
    else Date(d.year - 1, 12, 31)
  }

  lemma {:induction false} NextPrev(d: Date)
    requires Valid(d)
    ensures NextDay(PrevDay(d)) == d
    ensures PrevDay(NextDay(d)) == d
  {
  }

  const Epoch := Date(1970, 1, 1)

  /** Days from 1970-01-01 to `d` (negative before it): the day part of a time value. */
  function DayNumber(d: Date): int
    requires Valid(d)
    decreases if d.year >= 1970 then Ordinal(d) - Ordinal(Epoch) else Ordinal(Epoch) - Ordinal(d)
  {
    if d == Epoch then 0
    else if d.year >= 1970 then DayNumber(PrevDay(d)) + 1
    else DayNumber(NextDay(d)) - 1
  }

  /** The date `n` days after 1970-01-01 (before it when `n` is negative). */
  function FromDayNumber(n: int): (d: Date)
    ensures Valid(d)
    ensures n >= 0 <==> d.year >= 1970
    decreases if n >= 0 then n else -n
  {
    if n == 0 then Epoch
    else if n > 0 then NextDay(FromDayNumber(n - 1))
    else PrevDay(FromDayNumber(n + 1))
  }

  lemma {:induction false} DayNumberSign(d: Date)
    requires Valid(d)
    ensures d.year >= 1970 ==> DayNumber(d) >= 0
    ensures d.year < 1970 ==> DayNumber(d) < 0
    decreases if d.year >= 1970 then Ordinal(d) - Ordinal(Epoch) else Ordinal(Epoch) - Ordinal(d)
  {
    if d == Epoch {
    } else if d.year >= 1970 {
      DayNumberSign(PrevDay(d));
    } else {
      DayNumberSign(NextDay(d));
    }
  }

  /** Day numbers are a bijection between valid dates and integers: this direction ... */
  lemma {:induction false} FromDayNumberOfDate(d: Date)
    requires Valid(d)
    ensures FromDayNumber(DayNumber(d)) == d
    decreases if d.year >= 1970 then Ordinal(d) - Ordinal(Epoch) else Ordinal(Epoch) - Ordinal(d)
  {
    if d == Epoch {
    } else if d.year >= 1970 {
      var p := PrevDay(d);
      FromDayNumberOfDate(p);
      DayNumberSign(p);
      NextPrev(d);
    } else {
      var q := NextDay(d);
      FromDayNumberOfDate(q);
      DayNumberSign(q);
      DayNumberSign(d);
      NextPrev(d);
    }
  }

  /** ... and this one. */
  lemma {:induction false} DayNumberOfFromDayNumber(n: int)
    ensures DayNumber(FromDayNumber(n)) == n
    decreases if n >= 0 then n else -n
  {
    if n > 0 {
      DayNumberOfFromDayNumber(n - 1);
      NextPrev(FromDayNumber(n - 1));
    } else if n < 0 {
      DayNumberOfFromDayNumber(n + 1);
      NextPrev(FromDayNumber(n + 1));
    }
  }

  /** One day later is one day number more. */
  lemma {:induction false} NextDayNumber(d: Date)
    requires Valid(d)
    ensures DayNumber(NextDay(d)) == DayNumber(d) + 1
  {
    var n := DayNumber(d);
    FromDayNumberOfDate(d);
    FromDayNumberSucc(n);
    DayNumberOfFromDayNumber(n + 1);
  }

  /** Counting forward one day number steps to the calendar successor, before and after the epoch. */
  lemma {:induction false} FromDayNumberSucc(n: int)
    ensures FromDayNumber(n + 1) == NextDay(FromDayNumber(n))
  {
    if n < 0 {
      NextPrev(FromDayNumber(n + 1));
    }
  }

  /** Counting days from the first of the month: `Date.UTC` adds `day - 1` to the month start. */
  lemma {:induction false} DayFromMonthStart(y: int, m: int, d: int)
    requires Valid(Date(y, m, d))
    ensures DayNumber(Date(y, m, 1)) + d - 1 == DayNumber(Date(y, m, d))
    decreases d
  {
    if d > 1 {
      DayFromMonthStart(y, m, d - 1);
      NextDayNumber(Date(y, m, d - 1));
    }
  }

  /** Day numbers grow no faster than the ordinal measure. */
  lemma {:induction false} DayNumberBound(d: Date)
    requires Valid(d)
    ensures d.year >= 1970 ==> DayNumber(d) <= Ordinal(d) - Ordinal(Epoch)
    ensures d.year < 1970 ==> -DayNumber(d) <= Ordinal(Epoch) - Ordinal(d)
    decreases if d.year >= 1970 then Ordinal(d) - Ordinal(Epoch) else Ordinal(Epoch) - Ordinal(d)
  {
    if d == Epoch {
    } else if d.year >= 1970 {
      DayNumberBound(PrevDay(d));
    } else {
      DayNumberBound(NextDay(d));
    }
  }

  /** ECMAScript MakeDay for an integral year, zero-based month and day of month. */
  function MakeDay(year: int, month0: int, date: int): int {
    DayNumber(Date(year + month0 / 12, month0 % 12 + 1, 1)) + date - 1
  }

  /** A time value is valid within 8.64e15 ms of the epoch, i.e. 10^8 days either side. */
  const MaxDays: int := 100000000

  predicate InTimeRange(n: int) {
    -MaxDays <= n <= MaxDays
  }

  /** The date part of `toISOString`: four-digit years, or a sign and six digits outside 0..9999. */
  function YearText(y: int): string {
    if 0 <= y <= 9999 then PadDigits(y, 4)
    else (if y < 0 then "-" else "+") + PadDigits(if y < 0 then -y else y, 6)
  }

  function IsoDate(d: Date): string
    requires Valid(d)
  {
    YearText(d.year) + "-" + PadDigits(d.month, 2) + "-" + PadDigits(d.day, 2)
  }

  /** `toISOString` throws `RangeError: Invalid time value` on an invalid date. */
  datatype DateError = InvalidTimeValue

  /** `new Date(Date.UTC(year, month - 1, day))` from the three numbers `parseInt` read off
      `startDate.split("-")`, as a day number; `None` is the invalid date (NaN time value):
      fewer than three pieces, a piece with no leading digits, or a date out of range. */
  function StartDay(startDate: string, legacyYears: bool): Option<int> {
    StartDayOfParts(Split(startDate, "-"), legacyYears)
  }

  /** Destructuring `[year, month, day]` from the pieces: a missing piece is `undefined`,
      which makes the date invalid. */
  function StartDayOfParts(parts: seq<string>, legacyYears: bool): Option<int> {
    if |parts| < 3 then None
    else StartDayOfNumbers(ParseInt(parts[0]), ParseInt(parts[1]), ParseInt(parts[2]), legacyYears)
  }

  /** A NaN among the three numbers makes the date invalid. */
  function StartDayOfNumbers(y: Option<int>, m: Option<int>, d: Option<int>, legacyYears: bool): Option<int> {
    if y.Some? && m.Some? && d.Some? then UtcDay(y.value, m.value - 1, d.value, legacyYears)
    else None
  }

  /** `Date.UTC(year, month0, day)` as a day number. With `legacyYears`, a year of 0..99
      means 1900..1999, as `Date.UTC` does. */
  function UtcDay(year: int, month0: int, day: int, legacyYears: bool): Option<int> {
    var y := if legacyYears && 0 <= year <= 99 then 1900 + year else year;
    var n := MakeDay(y, month0, day);
    if InTimeRange(n) then Some(n) else None
  }

  /** The calendar date `offset` days after the start day (`setDate(getDate() + offset)`);
      an invalid start or a result outside the time-value range is the invalid date. */
  function OffsetFrom(start: Option<int>, offset: int): (r: Result<Date, DateError>)
    ensures r.Success? <==> start.Some? && InTimeRange(start.value + offset)
    ensures r.Success? ==> Valid(r.value) && DayNumber(r.value) == start.value + offset
  {
    match start
    case None => Failure(InvalidTimeValue)
    case Some(n) =>
      if InTimeRange(n + offset) then
        DayNumberOfFromDayNumber(n + offset);
        Success(FromDayNumber(n + offset))
      else Failure(InvalidTimeValue)
  }

  function OffsettedCivil(startDate: string, offset: int, legacyYears: bool): Result<Date, DateError> {
    OffsetFrom(StartDay(startDate, legacyYears), offset)
  }

  /** The `YYYY-MM-DD` text of the date `offset` days after the start, under either reading
      of two-digit years; `legacyYears` is the reading `Date.UTC` applies. */
  function OffsettedDateWith(startDate: string, offset: int, legacyYears: bool): (r: Result<string, DateError>)
    ensures r.Success? <==> StartDay(startDate, legacyYears).Some? && InTimeRange(StartDay(startDate, legacyYears).value + offset)
    ensures r.Success? ==> r.value == IsoDate(FromDayNumber(StartDay(startDate, legacyYears).value + offset))
    ensures r.Failure? ==> r.error == InvalidTimeValue
  {
    match OffsettedCivil(startDate, offset, legacyYears)
    case Success(d) =>
      FromDayNumberOfDate(d);
      Success(IsoDate(d))
    case Failure(e) => Failure(e)
  }

  /** `getOffsettedDate(startDate, offset)` exactly as written, two-digit-year mapping included:
      the day `offset` days after `Date.UTC` of the parsed start, or the thrown `RangeError`. */
  function OffsettedDateAsWritten(startDate: string, offset: int): (r: Result<string, DateError>)
    ensures r.Success? <==> StartDay(startDate, true).Some? && InTimeRange(StartDay(startDate, true).value + offset)
    ensures r.Success? ==> r.value == IsoDate(FromDayNumber(StartDay(startDate, true).value + offset))
  {
    OffsettedDateWith(startDate, offset, true)
  }

  /** `getOffsettedDate` with the year taken literally: the day `offset` days after the date
      the start string names. */
  function OffsettedDate(startDate: string, offset: int): (r: Result<string, DateError>)
    ensures r.Success? <==> StartDay(startDate, false).Some? && InTimeRange(StartDay(startDate, false).value + offset)
    ensures r.Success? ==> r.value == IsoDate(FromDayNumber(StartDay(startDate, false).value + offset))
  {
    OffsettedDateWith(startDate, offset, false)
  }

  /** A canonical `YYYY-MM-DD` string naming a real calendar date. */
  predicate IsIsoDate(s: string) {
    && |s| == 10 && s[4] == '-' && s[7] == '-'
    && IsDigits(s[..4], 10) && IsDigits(s[5..7], 10) && IsDigits(s[8..], 10)
    && Valid(DateOf(s))
  }

  function DateOf(s: string): Date
    requires |s| == 10 && IsDigits(s[..4], 10) && IsDigits(s[5..7], 10) && IsDigits(s[8..], 10)
  {
    Date(DigitsValue(s[..4], 10), DigitsValue(s[5..7], 10), DigitsValue(s[8..], 10))
  }

  /** Rendering the date a canonical string names gives the string back. */
  lemma {:induction false} IsoDateOfDateOf(s: string)
    requires IsIsoDate(s)
    ensures IsoDate(DateOf(s)) == s
  {
    DigitsValuePad(s[..4]);
    DigitsValuePad(s[5..7]);
    DigitsValuePad(s[8..]);
    assert s == s[..4] + "-" + s[5..7] + "-" + s[8..];
  }

  /** A canonical date string splits on `-` into its three digit groups. */
  lemma {:induction false} SplitIsoDate(s: string)
    requires |s| == 10 && s[4] == '-' && s[7] == '-'
    requires IsDigits(s[..4], 10) && IsDigits(s[5..7], 10) && IsDigits(s[8..], 10)
    ensures Split(s, "-") == [s[..4], s[5..7], s[8..]]
  {
    var parts := [s[..4], s[5..7], s[8..]];
    Join3(s[..4], s[5..7], s[8..], "-");
    assert s == s[..4] + "-" + s[5..7] + "-" + s[8..];
    forall i | 0 <= i < |parts|
      ensures '-' !in parts[i]
    {
      assert forall j :: 0 <= j < |parts[i]| ==> DigitValue(parts[i][j], 10).Some?;
    }
    SplitJoinChar(parts, '-');
  }

  /** `MakeDay` of a valid date's own fields is its day number. */
  lemma {:induction false} MakeDayOfValid(d: Date)
    requires Valid(d)
    ensures MakeDay(d.year, d.month - 1, d.day) == DayNumber(d)
  {
    var m0 := d.month - 1;
    assert m0 / 12 == 0 && m0 % 12 == m0;
    assert MakeDay(d.year, m0, d.day) == DayNumber(Date(d.year, d.month, 1)) + d.day - 1;
    DayFromMonthStart(d.year, d.month, d.day);
  }

  /** Every date of a four-digit year is a valid time value. */
  lemma {:induction false} DayNumberInRange(d: Date)
    requires Valid(d) && 0 <= d.year <= 9999
    ensures InTimeRange(DayNumber(d))
  {
    DayNumberBound(d);
    DayNumberSign(d);
  }

  /** `Date.UTC` on an in-range calendar date is its day number. */
  lemma {:induction false} UtcDayOfValid(d: Date, legacyYears: bool)
    requires Valid(d) && 0 <= d.year <= 9999
    requires !legacyYears || d.year >= 100
    ensures UtcDay(d.year, d.month - 1, d.day, legacyYears) == Some(DayNumber(d))
  {
    MakeDayOfValid(d);
    DayNumberInRange(d);
  }

  lemma {:induction false} StartDayOfPartsParsed(parts: seq<string>, y: int, m: int, d: int, legacyYears: bool)
    requires |parts| == 3
    requires ParseInt(parts[0]) == Some(y) && ParseInt(parts[1]) == Some(m) && ParseInt(parts[2]) == Some(d)
    ensures StartDayOfParts(parts, legacyYears) == UtcDay(y, m - 1, d, legacyYears)
  {
    assert StartDayOfParts(parts, legacyYears) == StartDayOfNumbers(Some(y), Some(m), Some(d), legacyYears);
    StartDayOfNumbersParsed(y, m, d, legacyYears);
  }

  lemma {:induction false} StartDayOfNumbersParsed(y: int, m: int, d: int, legacyYears: bool)
    ensures StartDayOfNumbers(Some(y), Some(m), Some(d), legacyYears) == UtcDay(y, m - 1, d, legacyYears)
  {
  }

  /** A canonical date string is read as `Date.UTC(year, month - 1, day)` of its digit groups. */
  lemma {:induction false} StartDayOfDigits(s: string, legacyYears: bool)
    requires IsIsoDate(s)
    ensures StartDay(s, legacyYears) == UtcDay(DateOf(s).year, DateOf(s).month - 1, DateOf(s).day, legacyYears)
  {
    var y, m, d := DigitsValue(s[..4], 10), DigitsValue(s[5..7], 10), DigitsValue(s[8..], 10);
    SplitIsoDate(s);
    ParseIsoParts(s);
    StartDayOfSplit(s, y, m, d, legacyYears);
  }

  /** `parseInt` reads each digit group of a canonical date as its decimal value. */
  lemma {:induction false} ParseIsoParts(s: string)
    requires |s| == 10 && IsDigits(s[..4], 10) && IsDigits(s[5..7], 10) && IsDigits(s[8..], 10)
    ensures ParseInt(s[..4]) == Some(DigitsValue(s[..4], 10))
    ensures ParseInt(s[5..7]) == Some(DigitsValue(s[5..7], 10))
    ensures ParseInt(s[8..]) == Some(DigitsValue(s[8..], 10))
  {
    ParseDecimal(s[..4]);
    ParseDecimal(s[5..7]);
    ParseDecimal(s[8..]);
  }

  lemma {:induction false} StartDayOfSplit(s: string, y: int, m: int, d: int, legacyYears: bool)
    requires |s| == 10 && Split(s, "-") == [s[..4], s[5..7], s[8..]]
    requires ParseInt(s[..4]) == Some(y) && ParseInt(s[5..7]) == Some(m) && ParseInt(s[8..]) == Some(d)
    ensures StartDay(s, legacyYears) == UtcDay(y, m - 1, d, legacyYears)
  {
    StartDayOfPartsParsed(Split(s, "-"), y, m, d, legacyYears);
  }

  /** A canonical date string starts on its own day number. */
  lemma {:induction false} StartDayOfIsoDate(s: string, legacyYears: bool)
    requires IsIsoDate(s)
    requires !legacyYears || DateOf(s).year >= 100
    ensures StartDay(s, legacyYears) == Some(DayNumber(DateOf(s)))
  {
    StartDayOfDigits(s, legacyYears);
    DigitsValuePad(s[..4]);
    UtcDayOfValid(DateOf(s), legacyYears);
  }

  lemma {:induction false} Join3(a: string, b: string, c: string, sep: string)
    ensures Join([a, b, c], sep) == a + sep + b + sep + c
  {
    assert [a, b, c][1..] == [b, c];
    assert [b, c][1..] == [c];
    assert Join([c], sep) == c;
    assert Join([b, c], sep) == b + sep + c;
  }

  /** Offset 0 gives back any canonical start date. */
  lemma {:induction false} OffsetZero(s: string)
    requires IsIsoDate(s)
    ensures OffsettedDate(s, 0) == Success(s)
  {
    OffsetZeroWith(s, false);
  }

  /** Offset 0 gives back a canonical start date under either year reading, as long as the
      two-digit-year rule does not apply. */
  lemma {:induction false} OffsetZeroWith(s: string, legacyYears: bool)
    requires IsIsoDate(s)
    requires !legacyYears || DateOf(s).year >= 100
    ensures OffsettedDateWith(s, 0, legacyYears) == Success(s)
  {
    StartDayOfIsoDate(s, legacyYears);
    FromDayNumberOfDate(DateOf(s));
    IsoDateOfDateOf(s);
  }

  /** From year 100 on, the code as written and the literal reading of the year agree on
      every offset. */
  lemma {:induction false} YearReadingsAgree(s: string, k: int)
    requires IsIsoDate(s) && DateOf(s).year >= 100
    ensures OffsettedDateAsWritten(s, k) == OffsettedDate(s, k)
  {
    StartDayOfIsoDate(s, true);
    StartDayOfIsoDate(s, false);
  }

  /** Offset `k + 1` is the calendar successor of offset `k`, whenever both are valid dates:
      across month ends, year ends and leap days alike, under either year reading. */
  lemma {:induction false} OffsetStep(s: string, k: int, legacyYears: bool)
    requires OffsettedCivil(s, k, legacyYears).Success? && OffsettedCivil(s, k + 1, legacyYears).Success?
    ensures OffsettedCivil(s, k + 1, legacyYears).value == NextDay(OffsettedCivil(s, k, legacyYears).value)
  {
    OffsetFromStep(StartDay(s, legacyYears), k);
  }

  lemma {:induction false} OffsetFromStep(start: Option<int>, k: int)
    requires OffsetFrom(start, k).Success? && OffsetFrom(start, k + 1).Success?
    ensures OffsetFrom(start, k + 1).value == NextDay(OffsetFrom(start, k).value)
  {
    var n := start.value;
    FromDayNumberSucc(n + k);
    assert n + (k + 1) == (n + k) + 1;
  }

  /** A malformed start date fails for every offset, as `toISOString` throws. */
  lemma {:induction false} OffsetInvalidStart(s: string, k: int, legacyYears: bool)
    requires StartDay(s, legacyYears).None?
    ensures OffsettedDateWith(s, k, legacyYears) == Failure(InvalidTimeValue)
  {
  }

  /** Offsetting a canonical start date lands on any canonical date exactly `offset` days
      later, under either year reading as long as the two-digit-year rule does not apply. */
  lemma {:induction false} OffsetTo(s: string, offset: int, t: string, legacyYears: bool)
    requires IsIsoDate(s) && IsIsoDate(t)
    requires !legacyYears || DateOf(s).year >= 100
    requires DayNumber(DateOf(t)) == DayNumber(DateOf(s)) + offset
    ensures OffsettedDateWith(s, offset, legacyYears) == Success(t)
  {
    StartDayOfIsoDate(s, legacyYears);
    DigitsValuePad(t[..4]);
    DayNumberInRange(DateOf(t));
    IsoDateOfDateOf(t);
    OffsetReaches(s, offset, legacyYears, DateOf(t));
  }

  /** Whatever the start string, an offset that reaches a valid in-range date renders it. */
  lemma {:induction false} OffsetReaches(s: string, offset: int, legacyYears: bool, d: Date)
    requires Valid(d) && InTimeRange(DayNumber(d))
    requires StartDay(s, legacyYears).Some? && DayNumber(d) == StartDay(s, legacyYears).value + offset
    ensures OffsettedDateWith(s, offset, legacyYears) == Success(IsoDate(d))
  {
    OffsetFromReaches(StartDay(s, legacyYears), offset, d);
    RenderCivil(s, offset, legacyYears, d);
  }

  lemma {:induction false} OffsetFromReaches(start: Option<int>, offset: int, d: Date)
    requires Valid(d) && InTimeRange(DayNumber(d))
    requires start.Some? && DayNumber(d) == start.value + offset
    ensures OffsetFrom(start, offset) == Success(d)
  {
    FromDayNumberOfDate(d);
  }

  lemma {:induction false} RenderCivil(s: string, offset: int, legacyYears: bool, d: Date)
    requires OffsettedCivil(s, offset, legacyYears) == Success(d) && Valid(d)
    ensures OffsettedDateWith(s, offset, legacyYears) == Success(IsoDate(d))
  {
  }

  /** The leap day example, for the code as written: 2024-02-28 is followed by 2024-02-29
      and then 2024-03-01. */
  lemma {:induction false} LeapDayExample(s: string, t: string, u: string)
    requires s == "2024-02-28" && t == "2024-02-29" && u == "2024-03-01"
    ensures OffsettedDateAsWritten(s, 1) == Success(t)
    ensures OffsettedDateAsWritten(s, 2) == Success(u)
  {
    IsoDateOfDigits(s, 2024, 2, 28);
    IsoDateOfDigits(t, 2024, 2, 29);
    IsoDateOfDigits(u, 2024, 3, 1);
    NextDayNumber(DateOf(s));
    NextDayNumber(DateOf(t));
    OffsetTo(s, 1, t, true);
    OffsetTo(s, 2, u, true);
  }

  /** As written, a year below 100 is read as 19xx by `Date.UTC`, so offset 0 does not give
      the start date back. */
  lemma {:induction false} TwoDigitYearShift(s: string, t: string)
    requires s == "0024-02-28" && t == "1924-02-28"
    ensures OffsettedDateAsWritten(s, 0) == Success(t)
    ensures OffsettedDate(s, 0) == Success(s)
  {
    IsoDateOfDigits(s, 24, 2, 28);
    OffsetZero(s);
    TwoDigitYearStart(s, t);
    IsoDateOfDateOf(t);
    OffsetReaches(s, 0, true, DateOf(t));
  }

  /** As written, `0024-02-28` starts on the day number of `1924-02-28`. */
  lemma {:induction false} TwoDigitYearStart(s: string, t: string)
    requires s == "0024-02-28" && t == "1924-02-28"
    ensures IsIsoDate(t) && InTimeRange(DayNumber(DateOf(t)))
    ensures StartDay(s, true) == Some(DayNumber(DateOf(t)))
  {
    assert IsIsoDate(s) && DateOf(s) == Date(24, 2, 28) by {
      IsoDateOfDigits(s, 24, 2, 28);
    }
    assert IsIsoDate(t) && DateOf(t) == Date(1924, 2, 28) by {
      IsoDateOfDigits(t, 1924, 2, 28);
    }
    LegacyYearStart(s, t);
  }

  /** `Date.UTC` reads the years 0 to 99 as 1900 to 1999. */
  lemma {:induction false} LegacyUtcDay(year: int, month0: int, day: int)
    requires 0 <= year <= 99
    ensures UtcDay(year, month0, day, true) == UtcDay(1900 + year, month0, day, true)
  {
  }

  /** As written, a canonical date in the years 0 to 99 starts on the day number of the same
      date nineteen hundred years later. */
  lemma {:induction false} LegacyYearStart(s: string, t: string)
    requires IsIsoDate(s) && IsIsoDate(t) && DateOf(s).year <= 99
    requires DateOf(t) == DateOf(s).(year := 1900 + DateOf(s).year)
    ensures InTimeRange(DayNumber(DateOf(t)))
    ensures StartDay(s, true) == Some(DayNumber(DateOf(t)))
  {
    var d, e := DateOf(s), DateOf(t);
    assert Valid(d) && 0 <= d.year <= 99 && Valid(e) && e == d.(year := 1900 + d.year);
    assert StartDay(s, true) == UtcDay(d.year, d.month - 1, d.day, true) by {
      StartDayOfDigits(s, true);
    }
    assert InTimeRange(DayNumber(e)) && UtcDay(d.year, d.month - 1, d.day, true) == Some(DayNumber(e)) by {
      LegacyUtcDayOfValid(d);
    }
  }

  /** `Date.UTC` on a valid date in the years 0 to 99 gives the day number of the same date
      nineteen hundred years later. */
  lemma {:induction false} LegacyUtcDayOfValid(d: Date)
    requires Valid(d) && 0 <= d.year <= 99 && Valid(d.(year := 1900 + d.year))
    ensures InTimeRange(DayNumber(d.(year := 1900 + d.year)))
    ensures UtcDay(d.year, d.month - 1, d.day, true) == Some(DayNumber(d.(year := 1900 + d.year)))
  {
    var e := d.(year := 1900 + d.year);
    LegacyUtcDay(d.year, d.month - 1, d.day);
    UtcDayOfValid(e, true);
    DayNumberInRange(e);
  }

  /** A ten-character string of digit groups naming a valid date is canonical, and names it. */
  lemma {:induction false} IsoDateOfDigits(s: string, y: int, m: int, d: int)
    requires |s| == 10 && s[4] == '-' && s[7] == '-'
    requires IsDigits(s[..4], 10) && IsDigits(s[5..7], 10) && IsDigits(s[8..], 10)
    requires Digit(s[0]) * 1000 + Digit(s[1]) * 100 + Digit(s[2]) * 10 + Digit(s[3]) == y
    requires Digit(s[5]) * 10 + Digit(s[6]) == m && Digit(s[8]) * 10 + Digit(s[9]) == d
    requires Valid(Date(y, m, d))
    ensures IsIsoDate(s) && DateOf(s) == Date(y, m, d)
  {
    DateOfLiteral(s);
  }

  /** The digit groups of a date string, read digit by digit. */
  lemma {:induction false} DateOfLiteral(s: string)
    requires |s| == 10 && IsDigits(s[..4], 10) && IsDigits(s[5..7], 10) && IsDigits(s[8..], 10)
    ensures DateOf(s).year == Digit(s[0]) * 1000 + Digit(s[1]) * 100 + Digit(s[2]) * 10 + Digit(s[3])
    ensures DateOf(s).month == Digit(s[5]) * 10 + Digit(s[6])
    ensures DateOf(s).day == Digit(s[8]) * 10 + Digit(s[9])
  {
    DigitsValueSnoc(s[..4]);
    DigitsValueSnoc(s[..3]);
    DigitsValueSnoc(s[..2]);
    DigitsValueSnoc(s[..1]);
    assert s[..4][..3] == s[..3] && s[..3][..2] == s[..2] && s[..2][..1] == s[..1] && s[..1][..0] == "";
    DigitsValueSnoc(s[5..7]);
    DigitsValueSnoc(s[5..6]);
    assert s[5..7][..1] == s[5..6] && s[5..6][..0] == "";
    DigitsValueSnoc(s[8..]);
    DigitsValueSnoc(s[8..9]);
    assert s[8..][..1] == s[8..9] && s[8..9][..0] == "";
  }

  function Digit(c: char): nat {
    DigitValue(c, 10).GetOr(0)
  }

  lemma {:induction false} DigitsValueSnoc(s: string)
    requires |s| >= 1 && IsDigits(s, 10)
    ensures DigitsValue(s, 10) == DigitsValue(s[..|s| - 1], 10) * 10 + Digit(s[|s| - 1])
  {
  }
}
