/** The closed-form calendar, its inverse, and the year-by-year calendar of `mktime`. */
module Calendar {
  /** C division, which truncates toward zero. */
  function Quot(a: int, b: int): int
    requires b > 0
  {
    if a >= 0 then a / b else -((-a) / b)
  }

  function Rem(a: int, b: int): int
    requires b > 0
  {
    a - b * Quot(a, b)
  }

  datatype Date = Date(y: int, m: int, d: int)

  // ------------------------------------------------------------ the calendar

  predicate Leap(y: int) {
    (y % 4 == 0 && y % 100 != 0) || y % 400 == 0
  }

  const LENGTHS: seq<int> := [31, 28, 31, 30, 31, 30, 31, 31, 30, 31, 30, 31]

  /** `mdays`, months counted from 0. */
  function MonthLength(y: int, m: int): int {
    if m == 1 && Leap(y) then 29 else if m < 0 || m > 11 then 30 else LENGTHS[m]
  }

  predicate Civil(x: Date) {
    1 <= x.m <= 12 && 1 <= x.d <= MonthLength(x.y, x.m - 1)
  }

  // ----------------------------------------------------------- closed formulas

  /** `civil_from_days`. */
  function FromDays(days: int): Date {
    var z := days + 719468;
    var era := Quot(if z >= 0 then z else z - 146096, 146097);
    var doe := z - era * 146097;
    var yoe := (doe - doe / 1460 + doe / 36524 - doe / 146096) / 365;
    MarchDate(yoe + era * 400, doe - YearStart(yoe))
  }

  /** `days_from_civil`. */
  function ToDays(x: Date): int {
    var y := if x.m <= 2 then x.y - 1 else x.y;
    var era := Quot(if y >= 0 then y else y - 399, 400);
    var yoe := y - era * 400;
    var doy := (153 * (x.m + (if x.m > 2 then -3 else 9)) + 2) / 5 + x.d - 1;
    var doe := yoe * 365 + yoe / 4 - yoe / 100 + doy;
    era * 146097 + doe - 719468
  }

  /** The shifted quotients are the rounded-down ones, also below zero. */
  lemma FloorQuot(z: int)
    ensures Quot(if z >= 0 then z else z - 146096, 146097) == z / 146097
    ensures Quot(if z >= 0 then z else z - 399, 400) == z / 400
  {
  }

  // ------------------------------------------- years of an era, counted from March

  /** First day of the year `yoe` of an era. */
  function YearStart(yoe: int): int {
    365 * yoe + yoe / 4 - yoe / 100
  }

  /** Day `doe` of an era lies in year `100c + 4q + k`, at day `s - 365k` of it. */
  datatype Position = Position(c: int, q: int, k: int, doy: int)

  predicate Placed(p: Position) {
    && 0 <= p.c < 4 && 0 <= p.q < 25 && 0 <= p.k < 4
    && 0 <= p.doy < 365 + (if p.k == 3 && (p.q < 24 || p.c == 3) then 1 else 0)
  }

  function Year(p: Position): int { 100 * p.c + 4 * p.q + p.k }

  function DayOfEra(p: Position): int { 36524 * p.c + 1461 * p.q + 365 * p.k + p.doy }

  lemma PlacedStart(p: Position)
    requires Placed(p)
    ensures 0 <= Year(p) < 400 && 0 <= DayOfEra(p) < 146097
    ensures YearStart(Year(p)) == DayOfEra(p) - p.doy
  {
    assert Year(p) / 4 == 25 * p.c + p.q;
    assert Year(p) / 100 == p.c;
  }

  /** The quotient formula finds the year. */
  lemma YearFormula(p: Position)
    requires Placed(p)
    ensures var doe := DayOfEra(p); (doe - doe / 1460 + doe / 36524 - doe / 146096) / 365 == Year(p)
  {
    var doe, s := DayOfEra(p), 365 * p.k + p.doy;
    var e := if 24 * p.c + p.q + s >= 1460 then 1 else 0;
    assert doe == 1460 * (25 * p.c + p.q + e) + (24 * p.c + p.q + s - 1460 * e);
    assert doe / 1460 == 25 * p.c + p.q + e;
    Centuries(p);
    assert 365 * p.k <= s - e < 365 * p.k + 365;
    assert doe - doe / 1460 + p.c == 365 * Year(p) + (s - e - 365 * p.k);
  }

  lemma Centuries(p: Position)
    requires Placed(p)
    ensures DayOfEra(p) / 36524 - DayOfEra(p) / 146096 == p.c
  {
  }

  function Place(doe: int): Position
    requires 0 <= doe < 146097
  {
    var c := if doe == 146096 then 3 else doe / 36524;
    var r := doe - 36524 * c;
    var q := r / 1461;
    var s := r - 1461 * q;
    var k := if s == 1460 then 3 else s / 365;
    Position(c, q, k, s - 365 * k)
  }

  lemma PlaceDay(doe: int)
    requires 0 <= doe < 146097
    ensures Placed(Place(doe)) && DayOfEra(Place(doe)) == doe
  {
  }

  lemma PlaceYear(yoe: int, doy: int)
    requires 0 <= yoe < 400 && 0 <= doy < 365 + (if Leap(yoe + 1) then 1 else 0)
    ensures var p := Position(yoe / 100, yoe % 100 / 4, yoe % 4, doy); Placed(p) && Year(p) == yoe
  {
  }

  lemma LeapPlace(yoe: int)
    requires 0 <= yoe < 400
    ensures Leap(yoe + 1) <==> yoe % 4 == 3 && (yoe % 100 / 4 < 24 || yoe / 100 == 3)
  {
    var c, q, k := yoe / 100, yoe % 100 / 4, yoe % 4;
    assert yoe == 100 * c + 4 * q + k;
  }

  lemma Fours(k: int, r: int)
    ensures (4 * k + r) % 4 == r % 4
  {
  }

  lemma Period4(e: int, r: int)
    ensures (400 * e + r) % 4 == r % 4
  {
    Fours(100 * e, r);
  }

  lemma Period100(e: int, r: int)
    ensures (400 * e + r) % 100 == r % 100
  {
  }

  lemma Period400(e: int, r: int)
    ensures (400 * e + r) % 400 == r % 400
  {
  }

  lemma LeapPeriod(y: int)
    ensures Leap(y % 400 + 1) <==> Leap(y + 1)
  {
    Period4(y / 400, y % 400 + 1);
    Period100(y / 400, y % 400 + 1);
    Period400(y / 400, y % 400 + 1);
    assert y + 1 == 400 * (y / 400) + (y % 400 + 1);
  }

  // --------------------------------------------------- days of a year from March

  function YearLength(y: int): int { if Leap(y) then 366 else 365 }

  function MarchMonth(m: int): int { if m > 2 then m - 3 else m + 9 }

  function MarchStart(mp: int): int { (153 * mp + 2) / 5 }

  function MarchYear(x: Date): int { if x.m <= 2 then x.y - 1 else x.y }

  function MarchDay(x: Date): int { MarchStart(MarchMonth(x.m)) + x.d - 1 }

  /** Day `doy` of the year that starts in March of `y`. */
  function MarchDate(y: int, doy: int): Date {
    var mp := (5 * doy + 2) / 153;
    var mm := mp + (if mp < 10 then 3 else -9);
    Date(y + (if mm <= 2 then 1 else 0), mm, doy - MarchStart(mp) + 1)
  }

  lemma MarchLengths(y: int, m: int)
    requires 1 <= m <= 12
    ensures m != 2 ==> MonthLength(y, m - 1) == MarchStart(MarchMonth(m) + 1) - MarchStart(MarchMonth(m))
    ensures m == 2 ==> MarchStart(MarchMonth(m)) == 337 && MonthLength(y, 1) == YearLength(y) - 337
    ensures m != 2 ==> MarchStart(MarchMonth(m) + 1) <= 337
  {
  }

  lemma MarchMonthUnique(mp: int, doy: int)
    requires 0 <= mp < 12 && MarchStart(mp) <= doy < MarchStart(mp + 1)
    ensures (5 * doy + 2) / 153 == mp
  {
  }

  /** Every date of the calendar has its place in a March year ... */
  lemma DateToMarch(x: Date)
    requires Civil(x)
    ensures 0 <= MarchDay(x) < YearLength(MarchYear(x) + 1)
    ensures MarchDate(MarchYear(x), MarchDay(x)) == x
  {
    MarchLengths(x.y, x.m);
    assert MarchStart(12) == 367;
    hide MonthLength, Leap;
    MarchMonthUnique(MarchMonth(x.m), MarchDay(x));
  }

  /** ... and every place is that of one date. */
  lemma MarchToDate(y: int, doy: int)
    requires 0 <= doy < YearLength(y + 1)
    ensures var x := MarchDate(y, doy); Civil(x) && MarchYear(x) == y && MarchDay(x) == doy
  {
  }

  /** The day number of day `doy` of the March year `y`. */
  function DaysAt(y: int, doy: int): int {
    y / 400 * 146097 + YearStart(y % 400) + doy - 719468
  }

  lemma ToDaysAt(x: Date)
    requires Civil(x)
    ensures ToDays(x) == DaysAt(MarchYear(x), MarchDay(x))
  {
    FloorQuot(MarchYear(x));
    hide MonthLength, Leap, Quot;
  }

  lemma FromDaysEra(days: int, era: int, doe: int, yoe: int)
    requires days + 719468 == era * 146097 + doe && 0 <= doe < 146097
    requires yoe == (doe - doe / 1460 + doe / 36524 - doe / 146096) / 365
    ensures FromDays(days) == MarchDate(yoe + era * 400, doe - YearStart(yoe))
  {
    hide Quot, MarchDate, YearStart;
    var z := days + 719468;
    EraOf(era, doe, z);
    FloorQuot(z);
  }

  lemma EraOf(era: int, doe: int, z: int)
    requires 0 <= doe < 146097 && z == era * 146097 + doe
    ensures z / 146097 == era
  {
  }

  lemma FromDaysAt(y: int, doy: int)
    requires 0 <= doy < YearLength(y + 1)
    ensures FromDays(DaysAt(y, doy)) == MarchDate(y, doy)
  {
    hide FromDays, MarchDate, YearStart, Leap, Placed;
    var yoe := y % 400;
    LeapPeriod(y);
    PlaceYear(yoe, doy);
    var p := Position(yoe / 100, yoe % 100 / 4, yoe % 4, doy);
    PlacedStart(p);
    YearFormula(p);
    FromDaysEra(DaysAt(y, doy), y / 400, DayOfEra(p), yoe);
  }

  /** Every day number is a day of some March year. */
  lemma SomeDay(days: int) returns (y: int, doy: int)
    ensures 0 <= doy < YearLength(y + 1) && DaysAt(y, doy) == days
  {
    hide Leap, Placed, Place, YearStart;
    var z := days + 719468;
    var era, doe := z / 146097, z % 146097;
    var p := Place(doe);
    PlaceDay(doe);
    PlacedStart(p);
    y, doy := 400 * era + Year(p), p.doy;
    EraYear(era, Year(p));
    LeapPeriod(y);
    PlacedLength(p);
  }

  lemma EraYear(era: int, yoe: int)
    requires 0 <= yoe < 400
    ensures (400 * era + yoe) / 400 == era && (400 * era + yoe) % 400 == yoe
  {
  }

  lemma PlacedLength(p: Position)
    requires Placed(p)
    ensures 0 <= p.doy < YearLength(Year(p) + 1)
  {
    hide Leap;
    var y := Year(p);
    assert y / 100 == p.c && y % 100 == 4 * p.q + p.k;
    assert y % 100 / 4 == p.q && y % 4 == p.k;
    LeapPlace(y);
  }

  /** `days_from_civil` undoes `civil_from_days` for every day number, whose date is a
      real one ... */
  lemma DaysRoundTrip(days: int)
    ensures Civil(FromDays(days)) && ToDays(FromDays(days)) == days
  {
    hide FromDays, ToDays, DaysAt, Civil, MarchDate, MarchDay, MarchYear;
    var y, doy := SomeDay(days);
    FromDaysAt(y, doy);
    MarchToDate(y, doy);
    ToDaysAt(FromDays(days));
  }

  /** ... and `civil_from_days` undoes `days_from_civil` for every real date. */
  lemma DateRoundTrip(x: Date)
    requires Civil(x)
    ensures FromDays(ToDays(x)) == x
  {
    hide FromDays, ToDays, DaysAt, Civil, MarchDate, MarchDay, MarchYear;
    ToDaysAt(x);
    DateToMarch(x);
    FromDaysAt(MarchYear(x), MarchDay(x));
  }

  // -------------------------------------------------------------- year by year

  /** Days from 1970 to the start of year `y`, as `mktime` adds them up. */
  function YearsTo(y: int): int
    decreases y
  {
    if y <= 1970 then 0 else YearsTo(y - 1) + YearLength(y - 1)
  }

  /** Days in the first `m` months of year `y`. */
  function MonthsTo(y: int, m: int): int
    decreases m
  {
    if m <= 0 then 0 else MonthsTo(y, m - 1) + MonthLength(y, m - 1)
  }

  lemma NextYear(y: int)
    ensures DaysAt(y + 1, 0) == DaysAt(y, 0) + YearLength(y + 1)
  {
    LeapPeriod(y);
    var r := y % 400;
    if r < 399 {
      assert (y + 1) / 400 == y / 400 && (y + 1) % 400 == r + 1;
      hide Leap;
      YearStep(r);
    } else {
      assert (y + 1) / 400 == y / 400 + 1 && (y + 1) % 400 == 0;
      assert Leap(400);
    }
  }

  lemma Tick4(r: int)
    ensures (r + 1) / 4 == r / 4 + if (r + 1) % 4 == 0 then 1 else 0
  {
  }

  lemma Tick100(r: int)
    ensures (r + 1) / 100 == r / 100 + if (r + 1) % 100 == 0 then 1 else 0
  {
  }

  lemma HundredFour(r: int)
    ensures r % 100 == 0 ==> r % 4 == 0
  {
    Fours(25 * (r / 100), 0);
  }

  lemma YearStep(r: int)
    requires 0 <= r < 399
    ensures YearStart(r + 1) == YearStart(r) + YearLength(r + 1)
  {
    Tick4(r);
    Tick100(r);
    HundredFour(r + 1);
    assert (r + 1) % 400 == r + 1;
  }

  lemma DaysAtShift(y: int, doy: int)
    ensures DaysAt(y, doy) == DaysAt(y, 0) + doy
  {
  }

  lemma {:induction false} YearByYear(y: int)
    requires y >= 1970
    ensures DaysAt(y - 1, 0) + 306 == YearsTo(y)
    decreases y
  {
    if y > 1970 {
      YearByYear(y - 1);
      NextYear(y - 2);
      hide DaysAt, YearLength;
    }
  }

  lemma MonthTable(y: int, m: int)
    requires 1 <= m <= 12
    ensures MonthsTo(y, m - 1) == if m <= 2 then MarchStart(MarchMonth(m)) - 306 else MarchStart(MarchMonth(m)) + YearLength(y) - 306
  {
    MonthSums(y);
  }

  lemma MonthSums(y: int)
    ensures var feb := if Leap(y) then 29 else 28;
      && MonthsTo(y, 0) == 0 && MonthsTo(y, 1) == 31 && MonthsTo(y, 2) == 31 + feb
      && MonthsTo(y, 3) == 62 + feb && MonthsTo(y, 4) == 92 + feb && MonthsTo(y, 5) == 123 + feb
      && MonthsTo(y, 6) == 153 + feb && MonthsTo(y, 7) == 184 + feb && MonthsTo(y, 8) == 215 + feb
      && MonthsTo(y, 9) == 245 + feb && MonthsTo(y, 10) == 276 + feb && MonthsTo(y, 11) == 306 + feb
  {
  }

  /** From 1970 on, the closed form counts the days as `mktime` does. */
  lemma ClosedFormCounts(x: Date)
    requires Civil(x) && x.y >= 1970
    ensures ToDays(x) == YearsTo(x.y) + MonthsTo(x.y, x.m - 1) + x.d - 1
  {
    ToDaysAt(x);
    DaysAtShift(MarchYear(x), MarchDay(x));
    YearByYear(x.y);
    NextYear(x.y - 1);
    MonthTable(x.y, x.m);
    hide DaysAt, ToDays, MonthsTo, YearsTo, MonthLength, MarchStart, YearLength;
  }

  /** From the epoch on, no date lies before 1970. */
  lemma EpochYears(days: int)
    requires days >= 0
    ensures FromDays(days).y >= 1970
  {
    var x := FromDays(days);
    DaysRoundTrip(days);
    if x.y < 1970 { EarlyDates(x); }
  }

  lemma EarlyDates(x: Date)
    requires Civil(x) && x.y < 1970
    ensures ToDays(x) < 0
  {
  }

  // -------------------------------------------------------- broken-down time

  /** `struct tm`. */
  class Tm {
    var sec: int
    var min: int
    var hour: int
    var mday: int
    var mon: int
    var year: int
    var wday: int
    var yday: int

    constructor () {}
  }

  /** `tm_fill`, also for times before 1970. */
  method Fill(t: int, tm: Tm)
    modifies tm
    ensures var days, secs := t / 86400, t % 86400;
      && FromDays(days) == Date(tm.year + 1900, tm.mon + 1, tm.mday)
      && tm.hour * 3600 + tm.min * 60 + tm.sec == secs
      && 0 <= tm.hour < 24 && 0 <= tm.min < 60 && 0 <= tm.sec < 60
      && tm.wday == Rem(days + 4, 7) && tm.yday == 0
  {
    hide FromDays;
    var days := Quot(t, 86400);
    var rem := Rem(t, 86400);
    if rem < 0 {
      rem := rem + 86400;
      days := days - 1;
    }
    SplitSeconds(t, days, rem);
    var x := FromDays(days);
    tm.sec := rem % 60;
    tm.min := rem / 60 % 60;
    tm.hour := rem / 3600;
    tm.mday := x.d;
    tm.mon := x.m - 1;
    tm.year := x.y - 1900;
    tm.wday := Rem(days + 4, 7);
    tm.yday := 0;
    Clock(rem);
  }

  lemma SplitSeconds(t: int, days: int, rem: int)
    requires 0 <= rem < 86400 && t == 86400 * days + rem
    ensures t / 86400 == days && t % 86400 == rem
  {
  }

  lemma Clock(rem: int)
    requires 0 <= rem < 86400
    ensures rem / 3600 * 3600 + rem / 60 % 60 * 60 + rem % 60 == rem && 0 <= rem / 3600 < 24
  {
  }

  /** 1970-01-01 was a Thursday. The remainder counts weekdays from Sunday exactly when it
      is not taken of a negative number, other than a multiple of seven. */
  lemma WeekdayExact(days: int)
    ensures Rem(days + 4, 7) == (days + 4) % 7 <==> days >= -4 || (days + 4) % 7 == 0
  {
  }

  /** `mktime`: -1 before 1970, otherwise the seconds counted year by year and month by
      month. It also sets the weekday and the day of the year. */
  method MakeTime(tm: Tm) returns (t: int)
    modifies tm`wday, tm`yday
    ensures tm.year + 1900 < 1970 ==> t == -1 && tm.wday == old(tm.wday) && tm.yday == old(tm.yday)
    ensures tm.year + 1900 >= 1970 ==>
      var y := tm.year + 1900;
      var days := YearsTo(y) + MonthsTo(y, tm.mon) + tm.mday - 1;
      && t == days * 86400 + tm.hour * 3600 + tm.min * 60 + tm.sec
      && tm.wday == Rem(4 + days, 7) && tm.yday == MonthsTo(y, tm.mon) + tm.mday - 1
  {
    hide Leap, MonthLength;
    var days := 0;
    var y := tm.year + 1900;
    if y < 1970 { return -1; }
    for yy := 1970 to y
      invariant days == YearsTo(yy)
    {
      days := days + if Leap(yy) then 366 else 365;
    }
    var months := CountMonths(y, tm.mon);
    days := days + months;
    days := days + tm.mday - 1;
    tm.wday := Rem(4 + days, 7);
    var yd := tm.mday - 1;
    months := CountMonths(y, tm.mon);
    yd := yd + months;
    tm.yday := yd;
    t := days * 86400 + tm.hour * 3600 + tm.min * 60 + tm.sec;
  }

  method CountMonths(y: int, mon: int) returns (days: int)
    ensures days == MonthsTo(y, mon)
  {
    hide MonthLength;
    days := 0;
    var mm := 0;
    while mm < mon
      invariant mm == 0 || mm <= mon
      invariant 0 <= mm && days == MonthsTo(y, mm)
    {
      days := days + MonthLength(y, mm);
      mm := mm + 1;
    }
  }

  /** Breaking a time down and putting it together again. `time_t` ends at 2^31 in the
      source; without that end the property holds for every time from the epoch on. */
  method FillAndMake(t: int, tm: Tm) returns (back: int)
    requires t >= 0
    modifies tm
    ensures back == t && tm.wday == (t / 86400 + 4) % 7
    ensures tm.yday == t / 86400 - YearsTo(FromDays(t / 86400).y)
  {
    hide FromDays, ToDays, YearsTo, MonthsTo, Leap, MonthLength, Civil;
    var days := t / 86400;
    Fill(t, tm);
    DaysRoundTrip(days);
    EpochYears(days);
    ClosedFormCounts(FromDays(days));
    WeekdayExact(days);
    back := MakeTime(tm);
  }
}
