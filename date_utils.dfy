/**
 * Calendar arithmetic of `useDateUtils` (src/composables/dateutils.js): `addDays` and
 * `diffDays` over ISO 8601 calendar dates in the extended format YYYY-MM-DD.
 *
 * JavaScript parses such a string as UTC midnight and does its arithmetic on time values
 * (milliseconds since 1970-01-01), as section 21.4.1 of ECMA-262 defines them. The model
 * follows that definition: `DayFromYear` adds up year lengths from 1970 and is proved equal
 * to ECMA-262's closed form (`DayFromYearClosedForm`), `YearFromDay` is
 * "the largest year whose first day is not after the given day", and a time value `t`
 * lies on day `t / MsPerDay` (floor division).
 */
module DateUtils {
  import opened JsCore

  /** MILLISPERDAY: 24 * 60 * 60 * 1000. */
  const MsPerDay: int := 86400000
  /** The largest magnitude of a time value (ECMA-262, TimeClip): 100,000,000 days. */
  const MaxTimeValue: int := 8640000000000000

  /** A proleptic Gregorian calendar date; `month` counts from 1. */
  datatype Date = Date(year: int, month: int, day: int)

  // ---------------------------------------------------------------------------------------
  // Years and months

  function DaysInYear(y: int): int {
    if y % 4 != 0 then 365
    else if y % 100 != 0 then 366
    else if y % 400 != 0 then 365
    else 366
  }

  /** Day number of the first day of year `y`: the lengths of the years from 1970 on, or back to it. */
  function DayFromYear(y: int): int
    decreases if y < 1970 then 1970 - y else y - 1970
  {
    if y == 1970 then 0
    else if y > 1970 then DayFromYear(y - 1) + DaysInYear(y - 1)
    else DayFromYear(y + 1) - DaysInYear(y)
  }

  lemma DivStep(a: int, k: int)
    requires k == 4 || k == 100 || k == 400
    ensures (a + 1) / k == a / k + (if (a + 1) % k == 0 then 1 else 0)
  {
  }

  /** Consecutive years are exactly one year length apart. */
  lemma DayFromYearStep(y: int)
    ensures DayFromYear(y + 1) == DayFromYear(y) + DaysInYear(y)
  {
  }

  /** ECMA-262's closed form of DayFromYear; `/` is floor division here. */
  function EcmaDayFromYear(y: int): int {
    365 * (y - 1970) + (y - 1969) / 4 - (y - 1901) / 100 + (y - 1601) / 400
  }

  lemma EcmaDayFromYearStep(y: int)
    ensures EcmaDayFromYear(y + 1) == EcmaDayFromYear(y) + DaysInYear(y)
  {
    DivStep(y - 1969, 4);
    DivStep(y - 1901, 100);
    DivStep(y - 1601, 400);
  }

  /** The year lengths add up to ECMA-262's closed form. */
  lemma {:induction false} DayFromYearClosedForm(y: int)
    ensures DayFromYear(y) == EcmaDayFromYear(y)
    decreases if y < 1970 then 1970 - y else y - 1970
  {
    if y > 1970 {
      DayFromYearClosedForm(y - 1);
      EcmaDayFromYearStep(y - 1);
    } else if y < 1970 {
      DayFromYearClosedForm(y + 1);
      EcmaDayFromYearStep(y);
    }
  }

  lemma {:induction false} DayFromYearMonotone(a: int, b: int)
    requires a < b
    ensures DayFromYear(a) + 365 * (b - a) <= DayFromYear(b)
    decreases b - a
  {
    DayFromYearStep(a);
    if a + 1 < b {
      DayFromYearMonotone(a + 1, b);
    }
  }

  function YearUp(y: int, n: int): (r: int)
    requires DayFromYear(y) <= n
    ensures DayFromYear(r) <= n < DayFromYear(r + 1)
    decreases n - DayFromYear(y)
  {
    DayFromYearStep(y);
    if n < DayFromYear(y + 1) then y else YearUp(y + 1, n)
  }

  function YearDown(y: int, n: int): (r: int)
    requires n < DayFromYear(y + 1)
    ensures DayFromYear(r) <= n < DayFromYear(r + 1)
    decreases DayFromYear(y + 1) - n
  {
    DayFromYearStep(y);
    if DayFromYear(y) <= n then y else YearDown(y - 1, n)
  }

  /** The year containing day number `n` (ECMA-262, YearFromTime). */
  function YearFromDay(n: int): (y: int)
    ensures DayFromYear(y) <= n < DayFromYear(y + 1)
  {
    if 0 <= n then YearUp(1970, n) else YearDown(1969, n)
  }

  /** The year containing a day is unique. */
  lemma YearFromDayUnique(y: int, n: int)
    requires DayFromYear(y) <= n < DayFromYear(y + 1)
    ensures YearFromDay(n) == y
  {
    var r := YearFromDay(n);
    if r < y {
      DayFromYearMonotone(r, y);
      if r + 1 < y { DayFromYearMonotone(r + 1, y); }
      assert false;
    } else if y < r {
      DayFromYearMonotone(y, r);
      if y + 1 < r { DayFromYearMonotone(y + 1, r); }
      assert false;
    }
  }

  const CumulativeDays: seq<int> := [0, 31, 59, 90, 120, 151, 181, 212, 243, 273, 304, 334, 365]

  /** Days of year `y` before the first of month `m`; month 13 stands for the next year. */
  function DaysBeforeMonth(y: int, m: int): int
    requires 1 <= m <= 13
  {
    CumulativeDays[m - 1] + (if m > 2 && DaysInYear(y) == 366 then 1 else 0)
  }

  function DaysInMonth(y: int, m: int): int
    requires 1 <= m <= 12
  {
    DaysBeforeMonth(y, m + 1) - DaysBeforeMonth(y, m)
  }

  predicate ValidDate(d: Date) {
    1 <= d.month <= 12 && 1 <= d.day <= DaysInMonth(d.year, d.month)
  }

  lemma DaysBeforeMonthIncreasing(y: int, a: int, b: int)
    requires 1 <= a < b <= 13
    ensures DaysBeforeMonth(y, a) < DaysBeforeMonth(y, b)
  {
  }

  /** The month holding day `doy` (counted from 0) of year `y`, searching down from month `m`. */
  function MonthOf(y: int, doy: int, m: int): (r: int)
    requires 1 <= m <= 12 && 0 <= doy < DaysBeforeMonth(y, m + 1)
    ensures 1 <= r <= m && DaysBeforeMonth(y, r) <= doy < DaysBeforeMonth(y, r + 1)
  {
    if DaysBeforeMonth(y, m) <= doy then m else MonthOf(y, doy, m - 1)
  }

  /** Day number of a date, 0 for 1970-01-01 (ECMA-262, MakeDay). */
  function DayNumber(d: Date): int
    requires 1 <= d.month <= 12
  {
    DayFromYear(d.year) + DaysBeforeMonth(d.year, d.month) + d.day - 1
  }

  lemma DayNumberInYear(d: Date)
    requires ValidDate(d)
    ensures DayFromYear(d.year) <= DayNumber(d) < DayFromYear(d.year + 1)
  {
    DayFromYearStep(d.year);
    var inYear := DaysBeforeMonth(d.year, d.month) + d.day - 1;
    assert inYear < DaysBeforeMonth(d.year, d.month + 1);
    if d.month < 12 { DaysBeforeMonthIncreasing(d.year, d.month + 1, 13); }
    assert DaysBeforeMonth(d.year, 13) == DaysInYear(d.year);
    assert DayNumber(d) == DayFromYear(d.year) + inYear;
  }

  /** The calendar date of day number `n` (ECMA-262, YearFromTime, MonthFromTime, DateFromTime). */
  function DateFromDay(n: int): (d: Date)
    ensures ValidDate(d) && DayNumber(d) == n
  {
    var y := YearFromDay(n);
    DayFromYearStep(y);
    var doy := n - DayFromYear(y);
    var m := MonthOf(y, doy, 12);
    Date(y, m, doy - DaysBeforeMonth(y, m) + 1)
  }

  /** Day numbers and valid dates are in one-to-one correspondence. */
  lemma DateFromDayNumber(d: Date)
    requires ValidDate(d)
    ensures DateFromDay(DayNumber(d)) == d
  {
    var n := DayNumber(d);
    DayNumberInYear(d);
    YearFromDayUnique(d.year, n);
    var doy := DaysBeforeMonth(d.year, d.month) + d.day - 1;
    MonthOfUnique(d.year, doy, d.month);
  }

  lemma MonthOfUnique(y: int, doy: int, m: int)
    requires 1 <= m <= 12 && DaysBeforeMonth(y, m) <= doy < DaysBeforeMonth(y, m + 1)
    ensures MonthOf(y, doy, 12) == m
  {
    if m < 12 { DaysBeforeMonthIncreasing(y, m + 1, 13); }
    var r := MonthOf(y, doy, 12);
    if r < m {
      DaysBeforeMonthIncreasing(y, r + 1, m);
      assert false;
    } else if m < r {
      DaysBeforeMonthIncreasing(y, m + 1, r);
      assert false;
    }
  }

  /** Day numbers of 0000-01-01 and of 10000-01-01. */
  const Year0Day: int := -719528
  const Year10000Day: int := 2932897

  /** Day `k` falls in years 0000 to 9999, the years a YYYY-MM-DD string can spell. */
  predicate FourDigitYearDay(k: int) {
    Year0Day <= k < Year10000Day
  }

  /** 0000-01-01 and 10000-01-01 are the days `Year0Day` and `Year10000Day`. */
  lemma FourDigitYearBounds()
    ensures DayFromYear(0) == Year0Day && DayFromYear(10000) == Year10000Day
  {
    assert DayFromYear(0) == Year0Day by {
      DayFromYearClosedForm(0);
    }
    assert DayFromYear(10000) == Year10000Day by {
      DayFromYearClosedForm(10000);
    }
  }

  lemma FourDigitYearDayIff(k: int)
    ensures FourDigitYearDay(k) <==> 0 <= DateFromDay(k).year <= 9999
  {
    FourDigitYearBounds();
    var y := YearFromDay(k);
    assert DateFromDay(k).year == y;
    if y < 0 {
      if y + 1 < 0 { DayFromYearMonotone(y + 1, 0); }
    } else if 9999 < y {
      if 10000 < y { DayFromYearMonotone(10000, y); }
    } else {
      if 0 < y { DayFromYearMonotone(0, y); }
      if y + 1 < 10000 { DayFromYearMonotone(y + 1, 10000); }
    }
  }

  lemma FourDigitYearDate(d: Date)
    requires ValidDate(d) && 0 <= d.year <= 9999
    ensures FourDigitYearDay(DayNumber(d))
  {
    DateFromDayNumber(d);
    FourDigitYearDayIff(DayNumber(d));
  }

  // ---------------------------------------------------------------------------------------
  // Decimal digits

  predicate IsDigit(c: char) { '0' <= c <= '9' }

  predicate AllDigits(s: string) { forall i :: 0 <= i < |s| ==> IsDigit(s[i]) }

  function Pow10(w: nat): nat { if w == 0 then 1 else 10 * Pow10(w - 1) }

  function DigitsValue(s: string): (n: nat)
    requires AllDigits(s)
    ensures n < Pow10(|s|)
  {
    if s == [] then 0 else 10 * DigitsValue(s[..|s| - 1]) + (s[|s| - 1] as int - '0' as int)
  }

  /** The last `width` decimal digits of `n`, zero-padded on the left. */
  function PadDigits(n: nat, width: nat): (s: string)
    ensures |s| == width && AllDigits(s)
  {
    if width == 0 then "" else PadDigits(n / 10, width - 1) + [('0' as int + n % 10) as char]
  }

  lemma {:induction false} DigitsValueOfPad(n: nat, width: nat)
    requires n < Pow10(width)
    ensures DigitsValue(PadDigits(n, width)) == n
  {
    if width > 0 {
      DigitsValueOfPad(n / 10, width - 1);
      var s := PadDigits(n, width);
      assert s[..|s| - 1] == PadDigits(n / 10, width - 1);
    }
  }

  lemma {:induction false} PadOfDigitsValue(s: string)
    requires AllDigits(s)
    ensures PadDigits(DigitsValue(s), |s|) == s
  {
    if s != [] {
      var init := s[..|s| - 1];
      PadOfDigitsValue(init);
      var c := s[|s| - 1] as int - '0' as int;
      LastDigit(DigitsValue(init), c);
      assert s == init + [s[|s| - 1]];
    }
  }

  /** Appending the digit c to v: dividing by ten gives v back, and the remainder is c. */
  lemma LastDigit(v: nat, c: int)
    requires 0 <= c <= 9
    ensures (10 * v + c) / 10 == v && (10 * v + c) % 10 == c
  {
  }

  // ---------------------------------------------------------------------------------------
  // Strings

  /**
   * The calendar date a string denotes when it is a complete date YYYY-MM-DD, the only
   * form of the ECMAScript Date Time String Format modelled here. Out-of-range fields
   * make the string invalid.
   */
  function ParseIsoDate(s: string): (r: Option<Date>)
    ensures r.Some? ==> ValidDate(r.value) && 0 <= r.value.year <= 9999
  {
    if |s| == 10 && s[4] == '-' && s[7] == '-'
       && AllDigits(s[..4]) && AllDigits(s[5..7]) && AllDigits(s[8..])
    then
      var d := Date(DigitsValue(s[..4]), DigitsValue(s[5..7]), DigitsValue(s[8..]));
      if ValidDate(d) then Some(d) else None
    else None
  }

  /**
   * The first ten characters of `toISOString()` for a time on date `d`: YYYY-MM-DD for
   * years 0000 to 9999, otherwise the expanded year form cut after the month (+YYYYYY-MM).
   */
  function DatePrefix(d: Date): (s: string)
    requires ValidDate(d)
    ensures |s| == 10
  {
    if 0 <= d.year <= 9999 then
      PadDigits(d.year, 4) + "-" + PadDigits(d.month, 2) + "-" + PadDigits(d.day, 2)
    else
      (if d.year < 0 then "-" else "+") + PadDigits(if d.year < 0 then -d.year else d.year, 6)
        + "-" + PadDigits(d.month, 2)
  }

  /** The prefix of a date of years 0000 to 9999 parses back to that date. */
  lemma ParseDatePrefix(d: Date)
    requires ValidDate(d) && 0 <= d.year <= 9999
    ensures ParseIsoDate(DatePrefix(d)) == Some(d)
  {
    var s := DatePrefix(d);
    var ys, ms, ds := PadDigits(d.year, 4), PadDigits(d.month, 2), PadDigits(d.day, 2);
    assert s == ys + "-" + ms + "-" + ds;
    assert s[..4] == ys && s[5..7] == ms && s[8..] == ds;
    assert Pow10(4) == 10000 && Pow10(2) == 100;
    DaysInMonthAtMost31(d.year, d.month);
    DigitsValueOfPad(d.year, 4);
    DigitsValueOfPad(d.month, 2);
    DigitsValueOfPad(d.day, 2);
  }

  lemma DaysInMonthAtMost31(y: int, m: int)
    requires 1 <= m <= 12
    ensures DaysInMonth(y, m) <= 31
  {
  }

  /** A string that parses is the canonical spelling of its date. */
  lemma DatePrefixOfParse(s: string)
    requires ParseIsoDate(s).Some?
    ensures DatePrefix(ParseIsoDate(s).value) == s
  {
    var d := ParseIsoDate(s).value;
    var ys, ms, ds := s[..4], s[5..7], s[8..];
    assert DatePrefix(d) == ys + "-" + ms + "-" + ds by {
      assert d == Date(DigitsValue(ys), DigitsValue(ms), DigitsValue(ds));
      PadOfDigitsValue(ys);
      PadOfDigitsValue(ms);
      PadOfDigitsValue(ds);
    }
    SplitDate(s);
  }

  /** A ten-character string with dashes at 4 and 7 is its three fields joined by dashes. */
  lemma SplitDate(s: string)
    requires |s| == 10 && s[4] == '-' && s[7] == '-'
    ensures s == s[..4] + "-" + s[5..7] + "-" + s[8..]
  {
    assert s == s[..4] + [s[4]] + s[5..7] + [s[7]] + s[8..];
  }

  // ---------------------------------------------------------------------------------------
  // Date objects

  /** The time value held by a Date object; NaN makes it an "Invalid Date". */
  datatype TimeValue = Time(ms: int) | InvalidDate

  /** `new Date(dtStr)`: a complete date is read as UTC midnight. */
  function NewDate(s: string): (t: TimeValue)
    ensures t.Time? <==> ParseIsoDate(s).Some?
    ensures t.Time? ==> t.ms == ParsedDay(s) * MsPerDay
  {
    match ParseIsoDate(s)
    case Some(d) => Time(DayNumber(d) * MsPerDay)
    case None => InvalidDate
  }

  /** A parsed Date holds UTC midnight of exactly the date written. */
  lemma NewDateMidnight(s: string)
    ensures NewDate(s).Time? ==>
              NewDate(s).ms % MsPerDay == 0 && DateFromDay(NewDate(s).ms / MsPerDay) == ParseIsoDate(s).value
  {
    if ParseIsoDate(s).Some? {
      var d := ParseIsoDate(s).value;
      DateFromDayNumber(d);
      WholeDays(DayNumber(d));
    }
  }

  /** Day number of a string that parses. */
  function ParsedDay(s: string): int
    requires ParseIsoDate(s).Some?
  {
    DayNumber(ParseIsoDate(s).value)
  }

  /** ECMA-262 TimeClip on an integral time: beyond 8.64e15 ms the Date is invalid. */
  function TimeClip(t: int): (r: TimeValue)
    ensures r.Time? <==> Abs(t as real) <= MaxTimeValue as real
    ensures r.Time? ==> r.ms == t
  {
    if -MaxTimeValue <= t <= MaxTimeValue then Time(t) else InvalidDate
  }

  /**
   * `toISOString().substring(0, 10)` of a valid time value: the date of the day the time
   * falls on, which reads back as that date in years 0000 to 9999.
   */
  function IsoDatePrefix(t: int): (s: string)
    ensures |s| == 10
  {
    DatePrefix(DateFromDay(t / MsPerDay))
  }

  /** In years 0000 to 9999 the prefix reads back as the date of the day the time falls on. */
  lemma IsoDatePrefixParses(t: int)
    requires FourDigitYearDay(t / MsPerDay)
    ensures ParseIsoDate(IsoDatePrefix(t)) == Some(DateFromDay(t / MsPerDay))
  {
    FourDigitYearDayIff(t / MsPerDay);
    ParseDatePrefix(DateFromDay(t / MsPerDay));
  }

  lemma WholeDays(k: int)
    ensures (k * MsPerDay) / MsPerDay == k
    ensures RoundDays(k * MsPerDay) == k
  {
  }

  /** `Math.round(ms / MsPerDay)`: the nearest whole number of days, halves rounded up. */
  function RoundDays(ms: int): (q: int)
    ensures 2 * MsPerDay * q <= 2 * ms + MsPerDay < 2 * MsPerDay * (q + 1)
    ensures ms % MsPerDay == 0 ==> q == ms / MsPerDay
  {
    (2 * ms + MsPerDay) / (2 * MsPerDay)
  }

  // ---------------------------------------------------------------------------------------
  // addDays and diffDays

  /**
   * `addDays(dtStr, count)`. `count` is `Some(n)` when `Number(count)` is the integer n and
   * `None` when it is NaN. A numeric count on an unparseable date passes the
   * `instanceof Date` test, and `toISOString` then throws a RangeError; so does a sum
   * beyond the range of time values.
   */
  function AddDays(dtStr: string, count: Option<int>): (r: Result<string>)
    ensures count.None? ==> r == Ok("Invalid Date")
    ensures count.Some? && ParseIsoDate(dtStr).None? ==> r == Err(RangeError)
    ensures count.Some? && r.Ok? ==> |r.value| == 10
  {
    var tmpDt := NewDate(dtStr);
    if count.Some? then ShiftedDatePrefix(tmpDt, count.value) else Ok("Invalid Date")
  }

  /** `new Date(t + count * MILLISPERDAY).toISOString().substring(0, 10)`. */
  function ShiftedDatePrefix(t: TimeValue, count: int): (r: Result<string>)
    ensures t.InvalidDate? ==> r == Err(RangeError)
    ensures r.Ok? ==> |r.value| == 10
  {
    match t
    case InvalidDate => Err(RangeError)
    case Time(ms) =>
      match TimeClip(ms + count * MsPerDay)
      case InvalidDate => Err(RangeError)
      case Time(t2) => Ok(IsoDatePrefix(t2))
  }

  /**
   * `diffDays(dtStr1, dtStr2)`: the rounded number of days from the first date to the
   * second, NaN as soon as either string does not parse (the subtraction of an Invalid
   * Date yields NaN; the final `return NaN` of the source is never reached).
   */
  function DiffDays(dtStr1: string, dtStr2: string): (r: IntOrNaN)
    ensures r.NaN? <==> ParseIsoDate(dtStr1).None? || ParseIsoDate(dtStr2).None?
    ensures r.Int? ==> r.value == ParsedDay(dtStr2) - ParsedDay(dtStr1)
  {
    match (NewDate(dtStr1), NewDate(dtStr2))
    case (Time(t1), Time(t2)) =>
      WholeDays(ParsedDay(dtStr2) - ParsedDay(dtStr1));
      Int(RoundDays(t2 - t1))
    case _ => NaN
  }

  /** A parsed string lies in years 0000 to 9999. */
  lemma ParsedDayInRange(s: string)
    requires ParseIsoDate(s).Some?
    ensures FourDigitYearDay(ParsedDay(s))
  {
    FourDigitYearDate(ParseIsoDate(s).value);
  }

  /** A parsed date moved by at most a million days is still a valid time value, so nothing is thrown. */
  lemma AddDaysNear(s: string, n: int)
    requires ParseIsoDate(s).Some? && -1000000 <= n <= 1000000
    ensures AddDays(s, Some(n)).Ok?
  {
    ParsedDayInRange(s);
    var k := ParsedDay(s) + n;
    AddDaysByDay(s, n, k);
    assert -MaxTimeValue <= 0 + k * MsPerDay <= MaxTimeValue;
  }

  /** `addDays(s, n)` depends on `s` and `n` only through the day number they add up to. */
  lemma AddDaysByDay(s: string, n: int, k: int)
    requires ParseIsoDate(s).Some? && ParsedDay(s) + n == k
    ensures AddDays(s, Some(n)) == ShiftedDatePrefix(Time(0), k)
  {
    var t := ParsedDay(s) * MsPerDay;
    assert NewDate(s) == Time(t);
    assert t + n * MsPerDay == 0 + k * MsPerDay;
  }

  lemma ShiftedFourDigit(k: int)
    requires FourDigitYearDay(k)
    ensures ShiftedDatePrefix(Time(0), k) == Ok(DatePrefix(DateFromDay(k)))
  {
    WholeDays(k);
    assert TimeClip(0 + k * MsPerDay) == Time(k * MsPerDay);
  }

  /** Adding `n` days to a parsed date that lands on day `k` of years 0000 to 9999 spells day `k`. */
  lemma AddDaysLandsOn(s: string, n: int, k: int)
    requires ParseIsoDate(s).Some? && ParsedDay(s) + n == k && FourDigitYearDay(k)
    ensures AddDays(s, Some(n)) == Ok(DatePrefix(DateFromDay(k)))
  {
    AddDaysByDay(s, n, k);
    ShiftedFourDigit(k);
  }

  /** The prefix of a date in years 0000 to 9999 parses back to the same day number. */
  lemma ParsedDayOfPrefix(k: int)
    requires FourDigitYearDay(k)
    ensures ParseIsoDate(DatePrefix(DateFromDay(k))).Some?
    ensures ParsedDay(DatePrefix(DateFromDay(k))) == k
  {
    FourDigitYearDayIff(k);
    ParseDatePrefix(DateFromDay(k));
  }

  /** Zero days later is the same date, spelled the same way. */
  lemma AddDaysZero(s: string)
    requires ParseIsoDate(s).Some?
    ensures AddDays(s, Some(0)) == Ok(s)
  {
    ParsedDayInRange(s);
    AddDaysLandsOn(s, 0, ParsedDay(s));
    DateFromDayNumber(ParseIsoDate(s).value);
    DatePrefixOfParse(s);
  }

  /** Counting the days from `s` to `addDays(s, n)` gives `n`, while the result stays in years 0000 to 9999. */
  lemma DiffDaysAddDays(s: string, n: int)
    requires ParseIsoDate(s).Some?
    requires FourDigitYearDay(ParsedDay(s) + n)
    ensures AddDays(s, Some(n)).Ok?
    ensures DiffDays(s, AddDays(s, Some(n)).value) == Int(n)
  {
    var k := ParsedDay(s) + n;
    var s1 := DatePrefix(DateFromDay(k));
    AddDaysLandsOn(s, n, k);
    assert ParseIsoDate(s1).Some? && ParsedDay(s1) == k by {
      ParsedDayOfPrefix(k);
    }
  }

  lemma AddDaysFromSameDay(s: string, s1: string, m: int, n: int)
    requires ParseIsoDate(s).Some? && ParseIsoDate(s1).Some?
    requires ParsedDay(s1) == ParsedDay(s) + m
    ensures AddDays(s1, Some(n)) == AddDays(s, Some(m + n))
  {
    var k := ParsedDay(s1) + n;
    assert ParsedDay(s) + (m + n) == k;
    AddDaysByDay(s1, n, k);
    AddDaysByDay(s, m + n, k);
  }

  /** Two additions in a row are one addition of the sum, while the intermediate date stays in years 0000 to 9999. */
  lemma AddDaysAddDays(s: string, m: int, n: int)
    requires ParseIsoDate(s).Some?
    requires FourDigitYearDay(ParsedDay(s) + m)
    ensures AddDays(s, Some(m)).Ok?
    ensures AddDays(AddDays(s, Some(m)).value, Some(n)) == AddDays(s, Some(m + n))
  {
    var k := ParsedDay(s) + m;
    var s1 := DatePrefix(DateFromDay(k));
    AddDaysLandsOn(s, m, k);
    ParsedDayOfPrefix(k);
    AddDaysFromSameDay(s, s1, m, n);
  }

  /** Adding the difference of two dates to the first gives the second. */
  lemma AddDaysDiffDays(a: string, b: string)
    requires ParseIsoDate(a).Some? && ParseIsoDate(b).Some?
    ensures DiffDays(a, b).Int?
    ensures AddDays(a, Some(DiffDays(a, b).value)) == Ok(b)
  {
    var days := ParsedDay(b) - ParsedDay(a);
    assert DiffDays(a, b) == Int(days);
    ParsedDayInRange(b);
    AddDaysLandsOn(a, days, ParsedDay(b));
    assert DateFromDay(ParsedDay(b)) == ParseIsoDate(b).value by {
      DateFromDayNumber(ParseIsoDate(b).value);
    }
    DatePrefixOfParse(b);
  }

  /** A date is zero days from itself; an unparseable one gives NaN. */
  lemma DiffDaysSelf(s: string)
    ensures DiffDays(s, s) == if ParseIsoDate(s).Some? then Int(0) else NaN
  {
  }

  /** Swapping the arguments negates the difference. */
  lemma DiffDaysAntisymmetric(a: string, b: string)
    ensures DiffDays(a, b).NaN? <==> DiffDays(b, a).NaN?
    ensures DiffDays(a, b).Int? ==> DiffDays(a, b).value == -DiffDays(b, a).value
  {
  }
}
