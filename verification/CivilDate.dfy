/**
  `civil_from_days` and the second/day split of date(1) (coreutils_src/date.c).

  The reference is the Gregorian calendar itself: leap years, month lengths, the day after a
  date, and the number of a day counted from them.  Results hold for every day number, before
  and after 1970; the C `int` the year is stored in gives the exact range where they stop.
*/
module CivilDate {
  import opened Wrappers
  import opened Arithmetic

  datatype Date = Date(year: int, month: int, day: int)

  // ---------- The Gregorian calendar ----------

  predicate IsLeap(y: int) {
    y % 4 == 0 && (y % 100 != 0 || y % 400 == 0)
  }

  function YearLength(y: int): int {
    if IsLeap(y) then 366 else 365
  }

  function MonthLength(y: int, m: int): int
    requires 1 <= m <= 12
  {
    if m == 2 then (if IsLeap(y) then 29 else 28)
    else if m == 4 || m == 6 || m == 9 || m == 11 then 30
    else 31
  }

  predicate ValidDate(d: Date) {
    1 <= d.month <= 12 && 1 <= d.day <= MonthLength(d.year, d.month)
  }

  function NextDay(d: Date): Date
    requires ValidDate(d)
  {
    if d.day < MonthLength(d.year, d.month) then d.(day := d.day + 1)
    else if d.month < 12 then Date(d.year, d.month + 1, 1)
    else Date(d.year + 1, 1, 1)
  }

  function DaysBeforeMonth(y: int, m: int): int
    requires 1 <= m <= 12
    decreases m
  {
    if m == 1 then 0 else DaysBeforeMonth(y, m - 1) + MonthLength(y, m - 1)
  }

  /** Days from 1 January of year 1 to 1 January of year `y`. */
  function DaysBeforeYear(y: int): int {
    365 * (y - 1) + (y - 1) / 4 - (y - 1) / 100 + (y - 1) / 400
  }

  function DayCount(d: Date): int
    requires 1 <= d.month <= 12
  {
    DaysBeforeYear(d.year) + DaysBeforeMonth(d.year, d.month) + d.day - 1 - DaysBeforeYear(1970)
  }

  /** The number of a date, with 1970-01-01 as day 0; nothing for a date not in the calendar. */
  function Number(d: Date): Option<int> {
    if ValidDate(d) then Some(DayCount(d)) else None
  }

  /** The closed form counts exactly the days of each year. */
  lemma YearsAddUp(y: int)
    ensures DaysBeforeYear(1) == 0 && DaysBeforeYear(y + 1) == DaysBeforeYear(y) + YearLength(y)
  {
    FloorStep(y - 1, 4);
    FloorStep(y - 1, 100);
    FloorStep(y - 1, 400);
    MultiplesNest(y);
  }

  lemma FloorStep(x: int, n: int)
    requires n == 4 || n == 100 || n == 400
    ensures (x + 1) / n == x / n + (if (x + 1) % n == 0 then 1 else 0)
  {
  }

  lemma MultiplesNest(y: int)
    ensures y % 400 == 0 ==> y % 100 == 0
    ensures y % 100 == 0 ==> y % 4 == 0
  {
    if y % 400 == 0 { DivModIs(y, 100, 4 * (y / 400), 0); }
    if y % 100 == 0 { DivModIs(y, 4, 25 * (y / 100), 0); }
  }

  lemma MonthsAddUp(y: int)
    ensures DaysBeforeMonth(y, 12) + MonthLength(y, 12) == YearLength(y)
    ensures DaysBeforeMonth(y, 2) == 31 && DaysBeforeMonth(y, 3) == YearLength(y) - 306
    ensures DaysBeforeMonth(y, 4) == YearLength(y) - 275 && DaysBeforeMonth(y, 5) == YearLength(y) - 245
    ensures DaysBeforeMonth(y, 6) == YearLength(y) - 214 && DaysBeforeMonth(y, 7) == YearLength(y) - 184
    ensures DaysBeforeMonth(y, 8) == YearLength(y) - 153 && DaysBeforeMonth(y, 9) == YearLength(y) - 122
    ensures DaysBeforeMonth(y, 10) == YearLength(y) - 92 && DaysBeforeMonth(y, 11) == YearLength(y) - 61
    ensures DaysBeforeMonth(y, 12) == YearLength(y) - 31
  {
    assert DaysBeforeMonth(y, 3) == DaysBeforeMonth(y, 2) + MonthLength(y, 2);
    assert DaysBeforeMonth(y, 5) == DaysBeforeMonth(y, 4) + 30;
    assert DaysBeforeMonth(y, 7) == DaysBeforeMonth(y, 6) + 30;
    assert DaysBeforeMonth(y, 9) == DaysBeforeMonth(y, 8) + 31;
    assert DaysBeforeMonth(y, 11) == DaysBeforeMonth(y, 10) + 31;
  }

  /** The next day of the calendar has the next number. */
  lemma NextDayNumber(d: Date)
    requires ValidDate(d)
    ensures ValidDate(NextDay(d)) && DayCount(NextDay(d)) == DayCount(d) + 1
  {
    MonthsAddUp(d.year);
    YearsAddUp(d.year);
  }

  // ---------- The program's arithmetic ----------

  /** C division: towards zero. */
  function CDiv(a: int, b: int): int
    requires b > 0
  {
    if a >= 0 then a / b else -((-a) / b)
  }

  function CRem(a: int, b: int): int
    requires b > 0
  {
    a - b * CDiv(a, b)
  }

  /** Conversion to a 32-bit `int`. */
  function ToInt(x: int): (r: int)
    ensures -0x8000_0000 <= r < 0x8000_0000
    ensures r == x <==> -0x8000_0000 <= x < 0x8000_0000
  {
    (x + 0x8000_0000) % 0x1_0000_0000 - 0x8000_0000
  }

  // The source's own range comments are the contracts below; they make every operand but the
  // era's non-negative, where C division and Dafny's agree.

  function Era(z: int): (era: int)
    ensures 0 <= z - era * 146097 <= 146096
  {
    CDiv(if z >= 0 then z else z - 146096, 146097)
  }

  function YearOfEra(doe: int): int
    requires 0 <= doe <= 146096
  {
    (doe - doe / 1460 + doe / 36524 - doe / 146096) / 365
  }

  function DayOfYear(doe: int, yoe: int): int
    requires 0 <= yoe
  {
    doe - (365 * yoe + yoe / 4 - yoe / 100)
  }

  /** Day `doy` of the year that starts on 1 March of year `y`. */
  function MarchDate(y: int, doy: int): Date
    requires 0 <= doy
  {
    var mp := (5 * doy + 2) / 153;
    var d := doy - (153 * mp + 2) / 5 + 1;
    var m := mp + (if mp < 10 then 3 else -9);
    Date(y + (if m <= 2 then 1 else 0), m, d)
  }

  function CivilInEra(era: int, doe: int): Date
    requires 0 <= doe <= 146096
  {
    YearOfEraInRange(doe);
    var yoe := YearOfEra(doe);
    MarchDate(yoe + era * 400, DayOfYear(doe, yoe))
  }

  /** `civil_from_days` before the year is stored in an `int`. */
  function CivilExact(days: int): Date {
    var z := days + 719468;
    var era := Era(z);
    CivilInEra(era, z - era * 146097)
  }

  function Stored(d: Date): Date {
    Date(ToInt(d.year), ToInt(d.month), ToInt(d.day))
  }

  function CivilFromDays(days: int): Date {
    Stored(CivilExact(days))
  }

  // ---------- Correctness ----------

  /** Where a day of the 400-year era lies: century, four-year cycle, year, day of a March-based year. */
  datatype Place = Place(century: int, cycle: int, year: int, day: int) {
    predicate Valid() {
      && 0 <= century <= 3 && 0 <= cycle <= 24 && 0 <= year <= 3 && 0 <= day <= 365
      && (day == 365 ==> year == 3 && (cycle < 24 || century == 3))
    }

    function DayOfEra(): int {
      36524 * century + 1461 * cycle + 365 * year + day
    }

    function YearOfEra(): int {
      100 * century + 4 * cycle + year
    }
  }

  function PlaceOf(doe: int): (p: Place)
    requires 0 <= doe <= 146096
    ensures p.Valid() && p.DayOfEra() == doe
  {
    var c := if doe == 146096 then 3 else doe / 36524;
    var r := doe - 36524 * c;
    var k := r / 1461;
    var s := r - 1461 * k;
    var j := if s == 1460 then 3 else s / 365;
    Place(c, k, j, s - 365 * j)
  }

  /** The year-of-era formula picks the March-based year a day lies in. */
  lemma YearOfEraCorrect(p: Place)
    requires p.Valid()
    ensures 0 <= p.DayOfEra() <= 146096 && YearOfEra(p.DayOfEra()) == p.YearOfEra()
  {
    var doe := p.DayOfEra();
    var a := if 24 * p.century + p.cycle + 365 * p.year + p.day >= 1460 then 1 else 0;
    var e := if doe == 146096 then 1 else 0;
    assert doe / 1460 == 25 * p.century + p.cycle + a;
    assert doe / 36524 == p.century + e;
    assert doe / 146096 == e;
    assert doe - doe / 1460 + doe / 36524 - doe / 146096 == 365 * p.YearOfEra() + (p.day - a);
    assert (365 * p.YearOfEra() + (p.day - a)) / 365 == p.YearOfEra();
  }

  lemma YearOfEraInRange(doe: int)
    requires 0 <= doe <= 146096
    ensures 0 <= YearOfEra(doe) <= 399 && 0 <= DayOfYear(doe, YearOfEra(doe)) <= 365
  {
    var p := PlaceOf(doe);
    YearOfEraCorrect(p);
    YearStart(p);
  }

  /** Days of the era before a March-based year. */
  lemma YearStart(p: Place)
    requires p.Valid()
    ensures var q := p.YearOfEra();
            && 0 <= q <= 399
            && 365 * q + q / 4 - q / 100 == p.DayOfEra() - p.day == p.DayOfEra() - DayOfYear(p.DayOfEra(), q)
  {
    var q := p.YearOfEra();
    assert q / 4 == 25 * p.century + p.cycle;
    assert q / 100 == p.century;
  }

  lemma LeapPlace(p: Place, era: int)
    requires p.Valid() && p.day == 365
    ensures IsLeap(p.YearOfEra() + era * 400 + 1)
  {
    var c, k := p.century, p.cycle;
    var y := p.YearOfEra() + era * 400 + 1;
    DivModIs(y, 4, 25 * c + k + 1 + 100 * era, 0);
    if k < 24 {
      DivModIs(y, 100, c + 4 * era, 4 * (k + 1));
    } else {
      DivModIs(y, 400, era + 1, 0);
    }
  }

  /** First day of each month, counted from 1 March. */
  lemma MonthTable(doy: int)
    requires 0 <= doy <= 365
    ensures var mp := (5 * doy + 2) / 153;
            var starts := [0, 31, 61, 92, 122, 153, 184, 214, 245, 275, 306, 337, 366];
            0 <= mp <= 11 && (153 * mp + 2) / 5 == starts[mp] && starts[mp] <= doy < starts[mp + 1]
  {
  }

  lemma MarchDateNumber(y: int, doy: int)
    requires 0 <= doy <= 365 && (doy == 365 ==> IsLeap(y + 1))
    ensures Number(MarchDate(y, doy)) == Some(DaysBeforeYear(y + 1) + doy - 719468)
  {
    MonthTable(doy);
    YearsAddUp(y);
    MonthsAddUp(y);
    MonthsAddUp(y + 1);
  }

  lemma CivilOfPlace(era: int, doe: int, p: Place)
    requires p.Valid() && doe == p.DayOfEra() && 0 <= doe <= 146096
    ensures CivilInEra(era, doe) == MarchDate(p.YearOfEra() + era * 400, p.day)
  {
    YearOfEraCorrect(p);
    YearStart(p);
  }

  lemma CivilInEraNumber(era: int, doe: int)
    requires 0 <= doe <= 146096
    ensures Number(CivilInEra(era, doe)) == Some(doe + era * 146097 - 719468)
  {
    var p := PlaceOf(doe);
    CivilOfPlace(era, doe, p);
    PlaceNumber(era, doe, p);
  }

  lemma PlaceNumber(era: int, doe: int, p: Place)
    requires p.Valid() && doe == p.DayOfEra()
    ensures Number(MarchDate(p.YearOfEra() + era * 400, p.day)) == Some(doe + era * 146097 - 719468)
  {
    var y := p.YearOfEra() + era * 400;
    if p.day == 365 { LeapPlace(p, era); }
    EraYears(p, era);
    MarchDateFrom(y, p.day, p.DayOfEra() - p.day + era * 146097);
  }

  lemma MarchDateFrom(y: int, doy: int, start: int)
    requires 0 <= doy <= 365 && (doy == 365 ==> IsLeap(y + 1)) && DaysBeforeYear(y + 1) == start
    ensures Number(MarchDate(y, doy)) == Some(start + doy - 719468)
  {
    MarchDateNumber(y, doy);
  }

  /** The date of every day number is a calendar date with that number. */
  lemma CivilNumber(days: int)
    ensures Number(CivilExact(days)) == Some(days)
  {
    var z := days + 719468;
    CivilInEraNumber(Era(z), z - Era(z) * 146097);
    assert z - Era(z) * 146097 + Era(z) * 146097 - 719468 == days;
  }

  lemma EraYears(p: Place, era: int)
    requires p.Valid()
    ensures DaysBeforeYear(p.YearOfEra() + era * 400 + 1) == p.DayOfEra() - p.day + era * 146097
  {
    var q := p.YearOfEra();
    var y := q + era * 400;
    DivModIs(y, 4, 25 * p.century + p.cycle + 100 * era, p.year);
    DivModIs(y, 100, p.century + 4 * era, 4 * p.cycle + p.year);
    DivModIs(y, 400, era, q);
  }

  // ---------- The calendar numbers every date once ----------

  lemma {:induction false} YearsGrow(y: int, n: int)
    requires y <= n
    ensures DaysBeforeYear(y) + 365 * (n - y) <= DaysBeforeYear(n)
    decreases n - y
  {
    if y < n {
      YearsAddUp(y);
      YearsGrow(y + 1, n);
    }
  }

  /** A valid date lies between the first day of its year and the first of the next. */
  lemma InItsYear(d: Date)
    requires ValidDate(d)
    ensures DaysBeforeYear(d.year) <= DayCount(d) + 719162 < DaysBeforeYear(d.year + 1)
  {
    MonthsAddUp(d.year);
    YearsAddUp(d.year);
  }

  lemma YearFromNumber(d: Date, y: int)
    requires ValidDate(d)
    ensures d.year < y <==> DayCount(d) + 719162 < DaysBeforeYear(y)
  {
    InItsYear(d);
    if d.year < y { YearsGrow(d.year + 1, y); } else { YearsGrow(y, d.year); }
  }

  lemma NumberInjective(d: Date, e: Date)
    requires Number(d).Some? && Number(d) == Number(e)
    ensures d == e
  {
    assert d.year == e.year by {
      InItsYear(d);
      InItsYear(e);
      YearFromNumber(d, e.year);
      YearFromNumber(e, d.year);
    }
    SameYear(d, e);
  }

  lemma SameYear(d: Date, e: Date)
    requires ValidDate(d) && ValidDate(e) && d.year == e.year && DayCount(d) == DayCount(e)
    ensures d == e
  {
    MonthsAddUp(d.year);
  }

  /** Numbering a calendar date and computing back gives the date. */
  lemma CivilOfNumber(d: Date)
    requires Number(d).Some?
    ensures CivilExact(Number(d).value) == d
  {
    CivilNumber(Number(d).value);
    NumberInjective(CivilExact(Number(d).value), d);
  }

  /** The day after a day number is the calendar's next day. */
  lemma CivilSuccessor(days: int)
    ensures ValidDate(CivilExact(days)) && CivilExact(days + 1) == NextDay(CivilExact(days))
  {
    CivilNumber(days);
    CivilNumber(days + 1);
    Consecutive(CivilExact(days), CivilExact(days + 1), days);
  }

  lemma Consecutive(d: Date, e: Date, days: int)
    requires Number(d) == Some(days) && Number(e) == Some(days + 1)
    ensures ValidDate(d) && e == NextDay(d)
  {
    NextDayNumber(d);
    NumberInjective(e, NextDay(d));
  }

  /** Day 0 is 1970-01-01. */
  lemma CivilEpoch()
    ensures CivilExact(0) == Date(1970, 1, 1)
  {
    CivilOfNumber(Date(1970, 1, 1));
  }

  // ---------- The 32-bit year ----------

  const FirstDay := -784353015833
  const LastDay := 784351576776

  lemma YearFits(d: Date)
    requires ValidDate(d)
    ensures -0x8000_0000 <= d.year < 0x8000_0000 <==> FirstDay <= DayCount(d) <= LastDay
  {
    YearFromNumber(d, -0x8000_0000);
    YearFromNumber(d, 0x8000_0000);
    YearBounds();
  }

  lemma YearBounds()
    ensures DaysBeforeYear(-0x8000_0000) == FirstDay + 719162 && DaysBeforeYear(0x8000_0000) == LastDay + 1 + 719162
  {
  }

  lemma StoredExact(d: Date, days: int)
    requires Number(d) == Some(days)
    ensures Stored(d) == d <==> FirstDay <= days <= LastDay
    ensures Number(Stored(d)) == Some(days) <==> FirstDay <= days <= LastDay
  {
    YearFits(d);
    if Number(Stored(d)) == Some(days) {
      NumberInjective(Stored(d), d);
    }
  }

  /** The printed date is the calendar date of the day exactly when its year fits an `int`. */
  lemma IntExact(days: int)
    ensures CivilFromDays(days) == CivilExact(days) <==> FirstDay <= days <= LastDay
    ensures Number(CivilFromDays(days)) == Some(days) <==> FirstDay <= days <= LastDay
  {
    CivilNumber(days);
    StoredExact(CivilExact(days), days);
  }

  /** The years the comment names are those of the days between the starts of -32768 and of 32768. */
  lemma CommentExact(days: int)
    ensures -32768 <= CivilExact(days).year <= 32767 <==>
            DaysBeforeYear(-32768) - 719162 <= days < DaysBeforeYear(32768) - 719162
  {
    CivilNumber(days);
    YearFromNumber(CivilExact(days), -32768);
    YearFromNumber(CivilExact(days), 32768);
  }

  /** The domain the comment names reaches beyond them. */
  lemma CommentFails()
    ensures CivilExact(0x7fff_ffff).year > 32767
  {
    CommentExact(0x7fff_ffff);
    CivilNumber(0x7fff_ffff);
    YearFromNumber(CivilExact(0x7fff_ffff), 32768);
  }

  // ---------- The program ----------

  datatype Clock = Clock(date: Date, hours: int, minutes: int, seconds: int)

  /** `main`: nothing for a negative time, otherwise the fields it prints. */
  method DateMain(t: int) returns (r: Option<Clock>)
    requires -0x8000_0000_0000_0000 <= t < 0x8000_0000_0000_0000
    ensures r.None? <==> t < 0
    ensures r.Some? ==>
              var Clock(date, hours, minutes, seconds) := r.value;
              && 0 <= hours < 24 && 0 <= minutes < 60 && 0 <= seconds < 60
              && t % 86400 == 3600 * hours + 60 * minutes + seconds
              && (Number(date) == Some(t / 86400) <==> t / 86400 <= LastDay)
  {
    if t < 0 {
      return None;
    }
    var days := CDiv(t, 86400);
    var rem := CRem(t, 86400);
    if rem < 0 {
      rem, days := rem + 86400, days - 1;
    }
    var hours, minutes, seconds := TimeOfDay(rem);
    IntExact(days);
    return Some(Clock(CivilFromDays(days), hours, minutes, seconds));
  }

  method TimeOfDay(rem: int) returns (hours: int, minutes: int, seconds: int)
    requires 0 <= rem < 86400
    ensures 0 <= hours < 24 && 0 <= minutes < 60 && 0 <= seconds < 60
    ensures rem == 3600 * hours + 60 * minutes + seconds
  {
    var inHour := CRem(rem, 3600);
    assert 0 <= inHour < 3600;
    var h, m := CDiv(rem, 3600), CDiv(inHour, 60);
    DivModIs(rem, 60, 60 * h + m, inHour - 60 * m);
    hours, minutes, seconds := ToInt(h), ToInt(m), ToInt(CRem(rem, 60));
  }
}
