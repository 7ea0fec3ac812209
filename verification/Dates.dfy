/** Calendar arithmetic of include/fovris/date.h: civil dates and day numbers, weekdays, and dates given
    by a weekday of a month. Day numbers are unbounded here; the year of a date is a 16-bit number. */
module Dates {

  // ---------------------------------------------------------------- machine arithmetic

  /** Division of C++: towards zero. */
  function CDiv(a: int, b: int): int
    requires b > 0
  {
    if a >= 0 then a / b else -((-a) / b)
  }

  function CMod(a: int, b: int): int
    requires b > 0
  {
    a - b * CDiv(a, b)
  }

  const UINT := 0x1_0000_0000

  /** The conversion of a year to its 16-bit field. */
  function Short(y: int): int { (y + 32768) % 65536 - 32768 }

  ghost predicate IsShort(y: int) { -32768 <= y <= 32767 }

  /** The era correction turns division towards zero into division towards minus infinity. */
  lemma EraIsFloor(a: int, n: int)
    requires n == 400 || n == 146097
    ensures CDiv(if a >= 0 then a else a - (n - 1), n) == a / n
  {
    if a < 0 {
      var q := (n - 1 - a) / n;
      assert n * q <= n - 1 - a < n * q + n;
      assert a / n == -q;
    }
  }

  // ---------------------------------------------------------------- civil dates

  predicate IsLeap(y: int) { CMod(y, 4) == 0 && (CMod(y, 100) != 0 || CMod(y, 400) == 0) }

  /** year_month_day_last::day. */
  function LastDay(y: int, m: int): int {
    if m == 2 && IsLeap(y) then 29
    else if m == 2 then 28
    else if m == 4 || m == 6 || m == 9 || m == 11 then 30
    else 31
  }

  datatype YearMonthDay = YearMonthDay(year: int, month: int, day: int) {
    /** year_month_day::ok. */
    predicate Ok() { 1 <= month <= 12 && 1 <= day <= LastDay(year, month) }

    /** operator<. */
    predicate Less(o: YearMonthDay) {
      if year < o.year then true
      else if year > o.year then false
      else if month < o.month then true
      else if month > o.month then false
      else day < o.day
    }

    /** year_month_day::to_days. */
    function ToDays(): int {
      var y := year - if month <= 2 then 1 else 0;
      var era := CDiv(if y >= 0 then y else y - 399, 400);
      var yoe := y - era * 400;
      var doy := (153 * (if month > 2 then month - 3 else month + 9) + 2) / 5 + day - 1;
      var doe := yoe * 365 + yoe / 4 - yoe / 100 + doy;
      era * 146097 + doe - 719468
    }
  }

  /** The intermediate values of from_days. */
  datatype Parts = Parts(era: int, doe: int, yoe: int, doy: int, mp: int)

  function PartsOf(dp: int): Parts {
    var z := dp + 719468;
    var era := CDiv(if z >= 0 then z else z - 146096, 146097);
    var doe := z - era * 146097;
    var yoe := (doe - doe / 1460 + doe / 36524 - doe / 146096) / 365;
    var doy := doe - (365 * yoe + yoe / 4 - yoe / 100);
    Parts(era, doe, yoe, doy, (5 * doy + 2) / 153)
  }

  /** The date of a day number before its year is narrowed. */
  function Civil(dp: int): YearMonthDay {
    var p := PartsOf(dp);
    var m := if p.mp < 10 then p.mp + 3 else p.mp - 9;
    YearMonthDay(p.yoe + p.era * 400 + (if m <= 2 then 1 else 0), m, p.doy - (153 * p.mp + 2) / 5 + 1)
  }

  /** year_month_day::from_days. */
  function FromDays(dp: int): YearMonthDay {
    var c := Civil(dp);
    YearMonthDay(Short(c.year), c.month, c.day)
  }

  // ---------------------------------------------------------------- years that begin in March

  /** Days of an era before its year y. */
  ghost function YearStart(y: int): int { 365 * y + y / 4 - y / 100 + y / 400 }

  /** Days of such a year before its month mp. */
  ghost function MonthStart(mp: int): int { (153 * mp + 2) / 5 }

  /** Century, four-year group and year of a day of the era, and the day within that group. */
  lemma Decompose(doe: int) returns (c: int, f: int, a: int, r: int)
    requires 0 <= doe <= 146096
    ensures 0 <= c <= 3 && 0 <= f <= 24 && 0 <= a <= 3 && 0 <= r <= 1460
    ensures doe == 36524 * c + 1461 * f + r
    ensures 365 * a <= r && (r < 365 * (a + 1) || (a == 3 && r == 1460))
    ensures r == 1460 ==> f < 24 || c == 3
  {
    c := if doe / 36524 > 3 then 3 else doe / 36524;
    var s := doe - 36524 * c;
    f := s / 1461;
    r := s - 1461 * f;
    a := if r / 365 > 3 then 3 else r / 365;
  }

  /** The quotient of from_days is the year of this decomposition. */
  lemma QuotientIsYear(doe: int, c: int, f: int, a: int, r: int)
    requires 0 <= c <= 3 && 0 <= f <= 24 && 0 <= a <= 3 && 0 <= r <= 1460 && doe == 36524 * c + 1461 * f + r <= 146096
    requires 365 * a <= r && (r < 365 * (a + 1) || (a == 3 && r == 1460)) && (r == 1460 ==> f < 24 || c == 3)
    ensures (doe - doe / 1460 + doe / 36524 - doe / 146096) / 365 == 100 * c + 4 * f + a
  {
    var e := if 24 * c + f + r >= 1460 then 1 else 0;
    assert doe == 1460 * (25 * c + f) + (24 * c + f + r);
    assert doe / 1460 == 25 * c + f + e;
    assert doe / 36524 - doe / 146096 == c;
    assert 0 <= r - 365 * a - e < 365;
    assert doe - doe / 1460 + c == 365 * (100 * c + 4 * f + a) + (r - 365 * a - e);
  }

  /** The year of the era is the one whose days hold doe. */
  lemma YearOfEra(doe: int)
    requires 0 <= doe <= 146096
    ensures var yoe := (doe - doe / 1460 + doe / 36524 - doe / 146096) / 365;
            0 <= yoe <= 399 && YearStart(yoe) <= doe < YearStart(yoe + 1)
  {
    var c, f, a, r := Decompose(doe);
    QuotientIsYear(doe, c, f, a, r);
    var yoe := 100 * c + 4 * f + a;
    assert yoe / 100 == c && yoe / 4 == 25 * c + f && yoe / 400 == 0;
    assert YearStart(yoe) == 36524 * c + 1461 * f + 365 * a;
    if a < 3 {
      assert (yoe + 1) / 100 == c && (yoe + 1) / 4 == 25 * c + f && (yoe + 1) / 400 == 0;
    } else if f < 24 {
      assert (yoe + 1) / 100 == c && (yoe + 1) / 4 == 25 * c + f + 1 && (yoe + 1) / 400 == 0;
    } else {
      assert (yoe + 1) / 100 == c + 1 && (yoe + 1) / 4 == 25 * c + 25 && (yoe + 1) / 400 == (if c == 3 then 1 else 0);
    }
  }

  lemma MonthOfYear(doy: int)
    requires 0 <= doy <= 365
    ensures var mp := (5 * doy + 2) / 153;
            0 <= mp <= 11 && MonthStart(mp) <= doy && (mp < 11 ==> doy < MonthStart(mp + 1))
  {
  }

  lemma DivMod4(a: int, q: int, r: int)
    requires a == 4 * q + r && 0 <= r < 4
    ensures a / 4 == q && a % 4 == r
  {
  }

  lemma Step4(y: int)
    ensures y / 4 - (y - 1) / 4 == if y % 4 == 0 then 1 else 0
  {
    DivMod4(y - 1, if y % 4 == 0 then y / 4 - 1 else y / 4, if y % 4 == 0 then 3 else y % 4 - 1);
  }

  lemma DivMod100(a: int, q: int, r: int)
    requires a == 100 * q + r && 0 <= r < 100
    ensures a / 100 == q && a % 100 == r
  {
  }

  lemma Step100(y: int)
    ensures y / 100 - (y - 1) / 100 == if y % 100 == 0 then 1 else 0
  {
    DivMod100(y - 1, if y % 100 == 0 then y / 100 - 1 else y / 100, if y % 100 == 0 then 99 else y % 100 - 1);
  }

  lemma DivMod400(a: int, q: int, r: int)
    requires a == 400 * q + r && 0 <= r < 400
    ensures a / 400 == q && a % 400 == r
  {
  }

  lemma Step400(y: int)
    ensures y / 400 - (y - 1) / 400 == if y % 400 == 0 then 1 else 0
  {
    DivMod400(y - 1, if y % 400 == 0 then y / 400 - 1 else y / 400, if y % 400 == 0 then 399 else y % 400 - 1);
  }

  lemma MultiplesNest(y: int)
    ensures (y % 400 == 0 ==> y % 100 == 0) && (y % 100 == 0 ==> y % 4 == 0)
  {
    if y % 400 == 0 {
      DivMod100(y, 4 * (y / 400), 0);
    }
    if y % 100 == 0 {
      DivMod4(y, 25 * (y / 100), 0);
    }
  }

  ghost predicate LeapYear(y: int) { y % 4 == 0 && (y % 100 != 0 || y % 400 == 0) }

  /** A year that begins in March is long exactly when the February at its end is. */
  lemma YearLength(yoe: int)
    ensures YearStart(yoe + 1) - YearStart(yoe) == if LeapYear(yoe + 1) then 366 else 365
  {
    Step4(yoe + 1);
    Step100(yoe + 1);
    Step400(yoe + 1);
    MultiplesNest(yoe + 1);
  }

  /** The ranges that the comments of from_days give. */
  lemma EraParts(dp: int)
    ensures var p := PartsOf(dp);
            && p.era == (dp + 719468) / 146097 && p.doe == (dp + 719468) % 146097
            && p.yoe == (p.doe - p.doe / 1460 + p.doe / 36524 - p.doe / 146096) / 365
            && (0 <= p.yoe <= 399 ==> p.doy == p.doe - YearStart(p.yoe)) && p.mp == (5 * p.doy + 2) / 153
  {
    EraIsFloor(dp + 719468, 146097);
  }

  lemma PartsInRange(dp: int)
    ensures var p := PartsOf(dp);
            && 0 <= p.doe <= 146096 && 0 <= p.yoe <= 399 && 0 <= p.doy <= 365 && 0 <= p.mp <= 11
            && dp == p.era * 146097 + p.doe - 719468
            && p.doe == YearStart(p.yoe) + p.doy && p.doy < YearStart(p.yoe + 1) - YearStart(p.yoe)
            && MonthStart(p.mp) <= p.doy && (p.mp < 11 ==> p.doy < MonthStart(p.mp + 1))
  {
    var p := PartsOf(dp);
    EraParts(dp);
    hide PartsOf, MonthStart, YearStart, LeapYear, CDiv;
    YearOfEra(p.doe);
    YearLength(p.yoe);
    MonthOfYear(p.doy);
  }

  lemma ModIsZero(a: int, b: int)
    requires b == 4 || b == 100 || b == 400
    ensures CMod(a, b) == 0 <==> a % b == 0
  {
    if a < 0 && b == 4 {
      DivMod4(-a, -a / 4, -a % 4);
      DivMod4(a, if -a % 4 == 0 then -(-a / 4) else -(-a / 4) - 1, if -a % 4 == 0 then 0 else 4 - -a % 4);
    } else if a < 0 && b == 100 {
      DivMod100(-a, -a / 100, -a % 100);
      DivMod100(a, if -a % 100 == 0 then -(-a / 100) else -(-a / 100) - 1, if -a % 100 == 0 then 0 else 100 - -a % 100);
    } else if a < 0 {
      DivMod400(-a, -a / 400, -a % 400);
      DivMod400(a, if -a % 400 == 0 then -(-a / 400) else -(-a / 400) - 1, if -a % 400 == 0 then 0 else 400 - -a % 400);
    }
  }

  lemma LeapOf(y: int)
    ensures IsLeap(y) <==> LeapYear(y)
  {
    ModIsZero(y, 4);
    ModIsZero(y, 100);
    ModIsZero(y, 400);
  }

  lemma MultipleOf400(era: int, y: int)
    ensures (era * 400 + y) % 400 == y % 400 && (era * 400 + y) % 100 == y % 100 && (era * 400 + y) % 4 == y % 4
  {
    DivMod400(era * 400 + y, era + y / 400, y % 400);
    DivMod100(era * 400 + y, era * 4 + y / 100, y % 100);
    DivMod4(era * 400 + y, era * 100 + y / 4, y % 4);
  }

  lemma LeapOfEra(era: int, y: int)
    ensures IsLeap(era * 400 + y) <==> IsLeap(y)
  {
    hide IsLeap;
    LeapOf(y);
    LeapOf(era * 400 + y);
    MultipleOf400(era, y);
  }

  // ---------------------------------------------------------------- to_days and from_days are inverse

  /** The month and day of a day of the year are proper: no day of from_days exceeds its month. */
  lemma CivilIsOk(dp: int)
    ensures Civil(dp).Ok()
  {
    hide PartsOf, YearStart, IsLeap, LeapYear;
    PartsInRange(dp);
    var p, c := PartsOf(dp), Civil(dp);
    if p.mp == 11 {
      YearLength(p.yoe);
      LeapOfEra(p.era, p.yoe + 1);
      LeapOf(p.yoe + 1);
      assert c.year == p.era * 400 + (p.yoe + 1);
    }
  }

  lemma CivilDay(dp: int)
    ensures Civil(dp).day == PartsOf(dp).doy - MonthStart(PartsOf(dp).mp) + 1
  {
    hide PartsOf;
  }

  /** The year and the month of the March calendar. */
  ghost function MarchYear(d: YearMonthDay): int { d.year - if d.month <= 2 then 1 else 0 }

  /** Days before the year y of the March calendar. */
  ghost function MarchDays(y: int): int { y / 400 * 146097 + YearStart(y % 400) }

  ghost function MarchMonth(d: YearMonthDay): int { if d.month > 2 then d.month - 3 else d.month + 9 }

  /** to_days in terms of that calendar, for any fields. */
  lemma ToDaysIs(d: YearMonthDay)
    ensures d.ToDays() == MarchDays(MarchYear(d)) + MonthStart(MarchMonth(d)) + d.day - 1 - 719468
  {
    var y := MarchYear(d);
    EraIsFloor(y, 400);
    DivMod400(y, y / 400, y % 400);
    hide CDiv;
    assert y % 400 / 400 == 0;
  }

  /** to_days undoes from_days, as long as the year is kept whole. */
  lemma CivilToDays(dp: int)
    ensures Civil(dp).ToDays() == dp
  {
    hide PartsOf, YearStart, MonthStart, YearMonthDay.ToDays;
    PartsInRange(dp);
    var p, c := PartsOf(dp), Civil(dp);
    ToDaysIs(c);
    DivMod400(MarchYear(c), p.era, p.yoe);
    CivilDay(dp);
  }

  /** A proper day lies in its month, which February ends by the leap year rule. */
  lemma ProperDay(d: YearMonthDay)
    requires d.Ok()
    ensures var mp, doy := MarchMonth(d), MonthStart(MarchMonth(d)) + d.day - 1;
            && 0 <= mp <= 11 && MonthStart(mp) <= doy && (mp < 11 ==> doy < MonthStart(mp + 1) && doy < 365)
            && (mp == 11 ==> doy < if IsLeap(d.year) then 366 else 365)
  {
    hide IsLeap;
  }

  /** The parts of a proper date, as to_days computes them. */
  lemma DateParts(d: YearMonthDay) returns (era: int, yoe: int, mp: int, doy: int)
    requires d.Ok()
    ensures 0 <= yoe <= 399 && 0 <= mp <= 11 && MonthStart(mp) <= doy && (mp < 11 ==> doy < MonthStart(mp + 1))
    ensures doy < YearStart(yoe + 1) - YearStart(yoe)
    ensures d.ToDays() == era * 146097 + YearStart(yoe) + doy - 719468
    ensures d.month == (if mp < 10 then mp + 3 else mp - 9) && d.day == doy - MonthStart(mp) + 1
    ensures d.year == yoe + era * 400 + (if d.month <= 2 then 1 else 0)
  {
    hide YearMonthDay.ToDays, YearStart, MonthStart, IsLeap, LeapYear;
    var y := MarchYear(d);
    era, yoe, mp := y / 400, y % 400, MarchMonth(d);
    doy := MonthStart(mp) + d.day - 1;
    assert era * 400 + yoe == y && 0 <= yoe < 400;
    ToDaysIs(d);
    ProperDay(d);
    YearLength(yoe);
    if mp == 11 {
      LeapOfEra(era, yoe + 1);
      LeapOf(yoe + 1);
    }
  }

  lemma {:induction false} YearStartGrows(a: int, b: int)
    requires 0 <= a < b <= 400
    ensures YearStart(a + 1) <= YearStart(b) && YearStart(a) < YearStart(b)
    decreases b - a
  {
    YearLength(a);
    if a + 1 < b {
      YearStartGrows(a + 1, b);
    }
  }

  /** A day lies in one year of the era only, and in one month of the year only. */
  lemma YearUnique(a: int, b: int, doe: int)
    requires 0 <= a <= 399 && 0 <= b <= 399
    requires YearStart(a) <= doe < YearStart(a + 1) && YearStart(b) <= doe < YearStart(b + 1)
    ensures a == b
  {
    if a < b {
      YearStartGrows(a, b);
    } else if b < a {
      YearStartGrows(b, a);
    }
  }

  /** A year of the era lies within the era. */
  lemma WithinEra(yoe: int)
    requires 0 <= yoe <= 399
    ensures 0 <= YearStart(yoe) && YearStart(yoe + 1) <= 146097
  {
    if yoe + 1 < 400 {
      YearStartGrows(yoe + 1, 400);
    }
    if 0 < yoe {
      YearStartGrows(0, yoe);
    }
  }

  lemma MonthStartGrows(a: int, b: int)
    requires 0 <= a < b <= 11
    ensures MonthStart(a + 1) <= MonthStart(b)
  {
  }

  lemma SameMonth(a: int, b: int, doy: int)
    requires 0 <= a <= 11 && 0 <= b <= 11 && MonthStart(a) <= doy && MonthStart(b) <= doy
    requires (a < 11 ==> doy < MonthStart(a + 1)) && (b < 11 ==> doy < MonthStart(b + 1))
    ensures a == b
  {
    if a < b {
      MonthStartGrows(a, b);
    } else if b < a {
      MonthStartGrows(b, a);
    }
  }

  lemma SameEra(a: int, x: int, b: int, y: int)
    requires 0 <= x < 146097 && 0 <= y < 146097 && a * 146097 + x == b * 146097 + y
    ensures a == b && x == y
  {
  }

  /** from_days undoes to_days on every proper date. */
  lemma DaysToCivil(d: YearMonthDay)
    requires d.Ok()
    ensures Civil(d.ToDays()) == d
  {
    hide YearMonthDay.ToDays, YearMonthDay.Ok, PartsOf, YearStart;
    var dp := d.ToDays();
    var era, yoe, mp, doy := DateParts(d);
    PartsInRange(dp);
    var p := PartsOf(dp);
    WithinEra(yoe);
    SameEra(p.era, p.doe, era, YearStart(yoe) + doy);
    YearUnique(p.yoe, yoe, p.doe);
    SameMonth(p.mp, mp, doy);
  }

  // ---------------------------------------------------------------- order and succession

  lemma MarchDaysGrow(a: int, b: int)
    requires a < b
    ensures MarchDays(a) + YearStart(a % 400 + 1) - YearStart(a % 400) <= MarchDays(b)
    ensures MarchDays(a) < MarchDays(b)
  {
    hide YearStart;
    WithinEra(a % 400);
    WithinEra(b % 400);
    YearStartGrows(a % 400, a % 400 + 1);
    if a / 400 == b / 400 {
      YearStartGrows(a % 400, b % 400);
    }
  }

  lemma FirstMonth(mp: int, doy: int)
    requires 0 <= mp <= 11 && MonthStart(mp) <= doy
    ensures 0 <= doy
  {
  }

  lemma LessIsEarlier(d: YearMonthDay, e: YearMonthDay)
    requires d.Ok() && e.Ok() && d.Less(e)
    ensures d.ToDays() < e.ToDays()
  {
    hide YearMonthDay.ToDays, YearMonthDay.Ok, YearStart, MonthStart;
    var era, yoe, mp, doy := DateParts(d);
    var era', yoe', mp', doy' := DateParts(e);
    var y, y' := era * 400 + yoe, era' * 400 + yoe';
    DivMod400(y, era, yoe);
    DivMod400(y', era', yoe');
    if y == y' {
      if mp < mp' {
        MonthStartGrows(mp, mp');
      }
    } else {
      MarchDaysGrow(y, y');
      assert 0 <= doy' by { MonthStartGrows(0, 11); FirstMonth(mp', doy'); }
    }
  }

  /** Day numbers order proper dates as operator< does. */
  lemma OrderIsomorphism(d: YearMonthDay, e: YearMonthDay)
    requires d.Ok() && e.Ok()
    ensures d.Less(e) <==> d.ToDays() < e.ToDays()
  {
    if d.Less(e) {
      LessIsEarlier(d, e);
    } else if e.Less(d) {
      LessIsEarlier(e, d);
    } else {
      assert d == e;
    }
  }

  /** The days are counted from January 1, 1970. */
  lemma Epoch()
    ensures YearMonthDay(1970, 1, 1).ToDays() == 0 && FromDays(0) == YearMonthDay(1970, 1, 1)
  {
    assert YearMonthDay(1970, 1, 1).ToDays() == 0 && YearMonthDay(1970, 1, 1).Ok();
    hide YearMonthDay.ToDays, Civil;
    DaysToCivil(YearMonthDay(1970, 1, 1));
  }

  /** The calendar successor: the next day of the month, or the first of the next month, or New Year's Day. */
  function NextDay(d: YearMonthDay): YearMonthDay {
    if d.day < LastDay(d.year, d.month) then YearMonthDay(d.year, d.month, d.day + 1)
    else if d.month < 12 then YearMonthDay(d.year, d.month + 1, 1)
    else YearMonthDay(d.year + 1, 1, 1)
  }

  lemma NextIsProper(d: YearMonthDay)
    requires d.Ok()
    ensures NextDay(d).Ok() && d.Less(NextDay(d))
  {
  }

  /** No proper date lies between a date and its successor. */
  lemma NothingBetween(d: YearMonthDay, c: YearMonthDay)
    requires d.Ok() && c.Ok() && d.Less(c)
    ensures c == NextDay(d) || NextDay(d).Less(c)
  {
  }

  /** The successor is always exactly one day later. */
  lemma SuccessorIsOneLater(d: YearMonthDay)
    requires d.Ok()
    ensures NextDay(d).Ok() && NextDay(d).ToDays() == d.ToDays() + 1
  {
    hide YearMonthDay.ToDays, YearMonthDay.Ok, Civil, NextDay;
    var n, c := NextDay(d), Civil(d.ToDays() + 1);
    NextIsProper(d);
    CivilIsOk(d.ToDays() + 1);
    CivilToDays(d.ToDays() + 1);
    OrderIsomorphism(d, c);
    OrderIsomorphism(d, n);
    OrderIsomorphism(n, c);
    OrderIsomorphism(c, n);
    NothingBetween(d, c);
  }

  // ---------------------------------------------------------------- the 16-bit year

  /** The narrowed year differs by a multiple of 65536 and fits. */
  lemma ShortWraps(y: int)
    ensures -32768 <= Short(y) <= 32767 && (y - Short(y)) % 65536 == 0
  {
  }

  const MIN_DAYS := -12687794
  const MAX_DAYS := 11248737

  lemma DayNumbers()
    ensures YearMonthDay(-32768, 1, 1).ToDays() == MIN_DAYS
    ensures YearMonthDay(32767, 12, 31).ToDays() == MAX_DAYS
  {
    hide YearMonthDay.ToDays;
    ToDaysIs(YearMonthDay(-32768, 1, 1));
    ToDaysIs(YearMonthDay(32767, 12, 31));
    assert MarchDays(-32769) == -11968632 && MarchDays(32767) == 11967900;
  }

  lemma RangeEnds()
    ensures YearMonthDay(-32768, 1, 1).ToDays() == MIN_DAYS && YearMonthDay(-32768, 1, 1).Ok()
    ensures YearMonthDay(32767, 12, 31).ToDays() == MAX_DAYS && YearMonthDay(32767, 12, 31).Ok()
  {
    DayNumbers();
    hide YearMonthDay.ToDays;
  }

  /** The day numbers whose year fits its field are those from January 1 of year -32768 to
      December 31 of year 32767. */
  lemma YearFits(dp: int)
    ensures IsShort(Civil(dp).year) <==> MIN_DAYS <= dp <= MAX_DAYS
  {
    var first, last := YearMonthDay(-32768, 1, 1), YearMonthDay(32767, 12, 31);
    hide YearMonthDay.ToDays, Civil;
    RangeEnds();
    CivilIsOk(dp);
    CivilToDays(dp);
    OrderIsomorphism(Civil(dp), first);
    OrderIsomorphism(last, Civil(dp));
  }

  /** With the same month and day, a later year is at least 365 days later, proper or not. */
  lemma LaterYear(y: int, y': int, m: int, d: int)
    requires y < y'
    ensures YearMonthDay(y, m, d).ToDays() + 365 <= YearMonthDay(y', m, d).ToDays()
  {
    hide YearMonthDay.ToDays, MarchDays, MonthStart, YearStart, LeapYear;
    ToDaysIs(YearMonthDay(y, m, d));
    ToDaysIs(YearMonthDay(y', m, d));
    var s := if m <= 2 then 1 else 0;
    MarchDaysGrow(y - s, y' - s);
    YearLength((y - s) % 400);
  }

  lemma NarrowedCivil(dp: int)
    ensures FromDays(dp) == YearMonthDay(Short(Civil(dp).year), Civil(dp).month, Civil(dp).day)
  {
    hide Civil, Short;
  }

  /** to_days undoes from_days, and from_days gives a proper date, exactly for these day numbers. */
  lemma FromDaysRoundTrip(dp: int)
    ensures FromDays(dp).ToDays() == dp <==> MIN_DAYS <= dp <= MAX_DAYS
    ensures MIN_DAYS <= dp <= MAX_DAYS ==> FromDays(dp).Ok()
  {
    hide YearMonthDay.ToDays, YearMonthDay.Ok, Civil, FromDays;
    var c, f := Civil(dp), FromDays(dp);
    NarrowedCivil(dp);
    YearFits(dp);
    CivilIsOk(dp);
    CivilToDays(dp);
    if f.year < c.year {
      LaterYear(f.year, c.year, c.month, c.day);
    } else if f.year > c.year {
      LaterYear(c.year, f.year, c.month, c.day);
    }
  }

  /** The day after the last that fits comes out as the first that fits. */
  lemma YearWraps()
    ensures FromDays(MAX_DAYS + 1) == YearMonthDay(-32768, 1, 1) && FromDays(MAX_DAYS + 1).ToDays() == MIN_DAYS
  {
    hide YearMonthDay.ToDays, YearMonthDay.Ok, Civil, FromDays;
    RangeEnds();
    SuccessorIsOneLater(YearMonthDay(32767, 12, 31));
    DaysToCivil(YearMonthDay(32768, 1, 1));
    NarrowedCivil(MAX_DAYS + 1);
  }

  /** from_days undoes to_days on every proper date whose year fits. */
  lemma ToDaysRoundTrip(d: YearMonthDay)
    requires d.Ok() && IsShort(d.year)
    ensures FromDays(d.ToDays()) == d
  {
    hide YearMonthDay.ToDays, YearMonthDay.Ok, Civil, FromDays;
    DaysToCivil(d);
    NarrowedCivil(d.ToDays());
  }

  // ---------------------------------------------------------------- weekdays

  /** weekday_from_days: 0 is Sunday. */
  function WeekdayFromDays(z: int): int {
    if z >= -4 then CMod(z + 4, 7) else CMod(z + 5, 7) + 6
  }

  /** The difference of two weekdays, on unsigned numbers that wrap around. */
  function WeekdayDifference(x: int, y: int): int {
    var diff := (x - y) % UINT;
    if diff <= 6 then diff else (diff + 7) % UINT
  }

  lemma DivMod7(a: int, q: int, r: int)
    requires a == 7 * q + r && 0 <= r < 7
    ensures a / 7 == q && a % 7 == r
  {
  }

  /** The weekday of a day number, before and after the epoch, counts on in steps of one. */
  lemma WeekdayIsModulo(z: int)
    ensures WeekdayFromDays(z) == (z + 4) % 7
  {
    if z < -4 {
      var n := -(z + 5);
      DivMod7(n, n / 7, n % 7);
      assert CDiv(z + 5, 7) == -(n / 7);
      DivMod7(z + 4, -(n / 7) - 1, 6 - n % 7);
    }
  }

  /** The difference is the number of days, less than a week, from y on to x. */
  lemma DifferenceIsDays(x: int, y: int)
    requires 0 <= x <= 6 && 0 <= y <= 6
    ensures 0 <= WeekdayDifference(x, y) <= 6 && WeekdayDifference(x, y) == (x - y) % 7
  {
    if x >= y {
      DivMod7(x - y, 0, x - y);
    } else {
      DivMod7(x - y, -1, x - y + 7);
    }
  }

  /** From day number a to day number b. */
  lemma DifferenceOfDays(a: int, b: int)
    ensures 0 <= WeekdayDifference(WeekdayFromDays(b), WeekdayFromDays(a)) <= 6
    ensures WeekdayDifference(WeekdayFromDays(b), WeekdayFromDays(a)) == (b - a) % 7
  {
    hide WeekdayDifference, WeekdayFromDays;
    WeekdayIsModulo(a);
    WeekdayIsModulo(b);
    var x, y := (b + 4) % 7, (a + 4) % 7;
    DifferenceIsDays(x, y);
    DivMod7(b - a, (b + 4) / 7 - (a + 4) / 7 + (x - y) / 7, (x - y) % 7);
  }

  // ---------------------------------------------------------------- the n-th weekday of a month

  datatype YearMonthWeekday = YearMonthWeekday(year: int, month: int, weekday: int, index: int) {
    function First(): YearMonthDay { YearMonthDay(year, month, 1) }

    /** How far the weekday lies behind the first of the month. */
    function Offset(): int {
      WeekdayDifference(weekday, WeekdayFromDays(First().ToDays())) + (index - 1) * 7
    }

    /** year_month_weekday::ok. */
    predicate Ok() {
      if !(1 <= month <= 12) || !(0 <= weekday <= 6) || index < 1 then false
      else if index <= 4 then true
      else Offset() + 1 <= LastDay(year, month)
    }

    /** year_month_weekday::to_days. */
    function ToDays(): int { First().ToDays() + Offset() }
  }

  /** year_month_weekday::from_days. */
  function WeekdayDate(dp: int): YearMonthWeekday {
    var d := FromDays(dp);
    YearMonthWeekday(d.year, d.month, WeekdayFromDays(dp), (d.day - 1) / 7 + 1)
  }

  lemma DayOfMonth(y: int, m: int, d: int)
    ensures YearMonthDay(y, m, d).ToDays() == YearMonthDay(y, m, 1).ToDays() + d - 1
  {
    hide YearMonthDay.ToDays, MarchDays;
    ToDaysIs(YearMonthDay(y, m, d));
    ToDaysIs(YearMonthDay(y, m, 1));
  }

  /** A weekday date lies within five weeks from the first of its month. */
  lemma WeekdayDateOffset(dp: int)
    ensures 1 <= WeekdayDate(dp).index <= 5 && 0 <= WeekdayDate(dp).Offset() <= 34
  {
    hide YearMonthDay.ToDays, FromDays, Civil, WeekdayDifference, WeekdayFromDays;
    CivilIsOk(dp);
    NarrowedCivil(dp);
    DifferenceOfDays(WeekdayDate(dp).First().ToDays(), dp);
  }

  lemma WeekdayDateInRange(dp: int)
    requires MIN_DAYS <= dp <= MAX_DAYS
    ensures WeekdayDate(dp).ToDays() == dp && WeekdayDate(dp).Ok()
  {
    hide YearMonthDay.ToDays, FromDays, WeekdayDifference, WeekdayFromDays;
    var d, w := FromDays(dp), WeekdayDate(dp);
    FromDaysRoundTrip(dp);
    DayOfMonth(d.year, d.month, d.day);
    DifferenceOfDays(w.First().ToDays(), dp);
    WeekdayIsModulo(dp);
    DivMod7(d.day - 1, (d.day - 1) / 7, (d.day - 1) % 7);
  }

  /** The narrowed year puts the month at least a year away. */
  lemma WeekdayDateOutOfRange(dp: int)
    requires !(MIN_DAYS <= dp <= MAX_DAYS)
    ensures WeekdayDate(dp).ToDays() != dp
  {
    hide YearMonthDay.ToDays, FromDays, Civil, WeekdayDifference, WeekdayFromDays;
    var c, f := Civil(dp), FromDays(dp);
    YearFits(dp);
    CivilIsOk(dp);
    CivilToDays(dp);
    DayOfMonth(c.year, c.month, c.day);
    NarrowedCivil(dp);
    WeekdayDateOffset(dp);
    if f.year < c.year {
      LaterYear(f.year, c.year, c.month, 1);
    } else {
      LaterYear(c.year, f.year, c.month, 1);
    }
  }

  /** to_days undoes from_days, and from_days gives a proper weekday date, exactly for the day numbers
      whose year fits. */
  lemma WeekdayDateRoundTrip(dp: int)
    ensures WeekdayDate(dp).ToDays() == dp <==> MIN_DAYS <= dp <= MAX_DAYS
    ensures MIN_DAYS <= dp <= MAX_DAYS ==> WeekdayDate(dp).Ok()
    ensures 1 <= WeekdayDate(dp).index <= 5
  {
    WeekdayDateOffset(dp);
    if MIN_DAYS <= dp <= MAX_DAYS {
      WeekdayDateInRange(dp);
    } else {
      WeekdayDateOutOfRange(dp);
    }
  }

  /** A fifth weekday is ok exactly when its day number stays in the month; the first four always do. */
  lemma OkMeansSameMonth(w: YearMonthWeekday)
    requires 1 <= w.month <= 12 && 0 <= w.weekday <= 6 && 1 <= w.index <= 5
    ensures w.Ok() <==> Civil(w.ToDays()).year == w.year && Civil(w.ToDays()).month == w.month
    ensures w.Ok() ==> Civil(w.ToDays()) == YearMonthDay(w.year, w.month, w.Offset() + 1)
  {
    hide YearMonthDay.ToDays, Civil, WeekdayDifference, WeekdayFromDays;
    var first := w.First().ToDays();
    WeekdayIsModulo(first);
    DifferenceIsDays(w.weekday, WeekdayFromDays(first));
    var day := w.Offset() + 1;
    var d, c := YearMonthDay(w.year, w.month, day), Civil(w.ToDays());
    DayOfMonth(w.year, w.month, day);
    assert d.ToDays() == w.ToDays();
    assert w.Ok() <==> d.Ok();
    if d.Ok() {
      DaysToCivil(d);
    } else {
      CivilIsOk(w.ToDays());
      CivilToDays(w.ToDays());
      if c.year == w.year && c.month == w.month {
        DayOfMonth(w.year, w.month, c.day);
      }
    }
  }

  /** The day found carries the weekday asked for. */
  lemma WeekdayOfDate(w: YearMonthWeekday)
    requires 0 <= w.weekday <= 6
    ensures WeekdayFromDays(w.ToDays()) == w.weekday
  {
    hide YearMonthDay.ToDays, WeekdayDifference, WeekdayFromDays;
    var first := w.First().ToDays();
    WeekdayIsModulo(first);
    WeekdayIsModulo(w.ToDays());
    var x := (first + 4) % 7;
    DifferenceIsDays(w.weekday, x);
    DivMod7(w.ToDays() + 4, (first + 4) / 7 + w.index - 1 - (w.weekday - x) / 7, w.weekday);
  }

  /** year_month_weekday_last::to_days. */
  function LastWeekday(y: int, m: int, wd: int): int {
    var d := YearMonthDay(y, m, LastDay(y, m)).ToDays();
    d - WeekdayDifference(WeekdayFromDays(d), wd)
  }

  /** It is the requested weekday, within the last seven days of the month. */
  lemma LastWeekdayIsLast(y: int, m: int, wd: int)
    requires 1 <= m <= 12 && 0 <= wd <= 6
    ensures WeekdayFromDays(LastWeekday(y, m, wd)) == wd
    ensures Civil(LastWeekday(y, m, wd)).year == y && Civil(LastWeekday(y, m, wd)).month == m
    ensures LastDay(y, m) - 6 <= Civil(LastWeekday(y, m, wd)).day <= LastDay(y, m)
  {
    hide YearMonthDay.ToDays, WeekdayDifference, WeekdayFromDays, Civil, IsLeap;
    var d, r := YearMonthDay(y, m, LastDay(y, m)).ToDays(), LastWeekday(y, m, wd);
    WeekdayIsModulo(d);
    WeekdayIsModulo(r);
    var x := (d + 4) % 7;
    DifferenceIsDays(x, wd);
    DivMod7(r + 4, (d + 4) / 7 + (x - wd) / 7, wd);
    var day := LastDay(y, m) - WeekdayDifference(x, wd);
    DayOfMonth(y, m, LastDay(y, m));
    DayOfMonth(y, m, day);
    DaysToCivil(YearMonthDay(y, m, day));
  }
}
