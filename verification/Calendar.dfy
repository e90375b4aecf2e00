/** Modified Julian Dates, the Gregorian calendar and local time (section 8.1.3 of EN 300 401). */
module Calendar {
  import opened Modular

  // ----- the Gregorian calendar -----

  datatype Date = Date(year: int, month: int, day: int)

  predicate Leap(year: int) {
    year % 4 == 0 && (year % 100 != 0 || year % 400 == 0)
  }

  function MonthLength(year: int, month: int): int {
    if month == 2 then (if Leap(year) then 29 else 28)
    else if month == 4 || month == 6 || month == 9 || month == 11 then 30 else 31
  }

  predicate Valid(x: Date) {
    1 <= x.month <= 12 && 1 <= x.day <= MonthLength(x.year, x.month)
  }

  /** The following day. */
  function Next(x: Date): Date {
    if x.day < MonthLength(x.year, x.month) then x.(day := x.day + 1)
    else if x.month < 12 then Date(x.year, x.month + 1, 1)
    else Date(x.year + 1, 1, 1)
  }

  // ----- the conversion -----

  /** Day da of the year y that begins in March, 4800 years before the common era. */
  datatype March = March(y: int, da: int)

  function ToMarch(j: nat): March {
    var g, dg := j / 146097, j % 146097;
    var c := (dg / 36524 + 1) * 3 / 4;
    var dc := dg - c * 36524;
    var b, db := dc / 1461, dc % 1461;
    var a := (db / 365 + 1) * 3 / 4;
    var da := db - a * 365;
    March(g * 400 + c * 100 + b * 4 + a, da)
  }

  function ToDate(x: March): Date {
    var m := (x.da * 5 + 308) / 153 - 2;
    var d := x.da - (m + 4) * 153 / 5 + 122;
    Date(x.y - 4800 + (m + 2) / 12, (m + 2) % 12 + 1, d + 1)
  }

  /** _get_ymd_from_mod_julian_date. */
  function Ymd(mjd: int): Date
    requires mjd >= -2432045
  {
    ToDate(ToMarch(mjd + 2400001 + 32044))
  }

  // ----- years that begin in March -----

  function YearLength(y: int): int {
    if Leap(y + 1) then 366 else 365
  }

  /** The days before year y. */
  function YearStart(y: int): int {
    365 * y + y / 4 - y / 100 + y / 400
  }

  lemma YearEnds(y: int)
    ensures YearStart(y + 1) == YearStart(y) + YearLength(y)
  {
    Carry(y, 4);
    Carry(y, 100);
    Carry(y, 400);
    Multiples(y + 1);
  }

  lemma Carry(y: int, n: int)
    requires n == 4 || n == 100 || n == 400
    ensures (y + 1) / n == y / n + (if (y + 1) % n == 0 then 1 else 0)
  {
  }

  lemma Multiples(y: int)
    ensures y % 100 == 0 ==> y % 4 == 0
    ensures y % 400 == 0 ==> y % 100 == 0
  {
  }

  lemma {:induction false} YearsGrow(y: int, z: int)
    requires y < z
    ensures YearStart(y) + YearLength(y) <= YearStart(z)
    decreases z - y
  {
    hide YearStart;
    YearEnds(y);
    if y + 1 < z {
      YearsGrow(y + 1, z);
      YearEnds(y + 1);
    }
  }

  predicate InYear(x: March) {
    0 <= x.da < YearLength(x.y)
  }

  /** A day lies in one year only. */
  lemma MarchUnique(p: March, q: March)
    requires InYear(p) && InYear(q) && YearStart(p.y) + p.da == YearStart(q.y) + q.da
    ensures p == q
  {
    hide YearStart, YearLength;
    if p.y < q.y {
      YearsGrow(p.y, q.y);
    } else if q.y < p.y {
      YearsGrow(q.y, p.y);
    }
  }

  lemma YearParts(g: int, c: int, b: int, a: int)
    requires 0 <= c < 4 && 0 <= b < 25 && 0 <= a < 4
    ensures var y := g * 400 + c * 100 + b * 4 + a;
            && YearStart(y) == 146097 * g + 36524 * c + 1461 * b + 365 * a
            && (Leap(y + 1) <==> a == 3 && (b < 24 || c == 3))
  {
    var y := g * 400 + c * 100 + b * 4 + a;
    Split(100 * g + 25 * c + b, a, 4);
    Split(4 * g + c, 4 * b + a, 100);
    Split(g, 100 * c + 4 * b + a, 400);
    LeapParts(g, c, b, a);
  }

  lemma LeapParts(g: int, c: int, b: int, a: int)
    requires 0 <= c < 4 && 0 <= b < 25 && 0 <= a < 4
    ensures Leap(g * 400 + c * 100 + b * 4 + a + 1) <==> a == 3 && (b < 24 || c == 3)
  {
    var z := g * 400 + c * 100 + b * 4 + a + 1;
    if a < 3 {
      Split(100 * g + 25 * c + b, a + 1, 4);
    } else if b < 24 {
      Split(100 * g + 25 * c + b + 1, 0, 4);
      Split(4 * g + c, 4 * b + 4, 100);
    } else {
      Split(100 * g + 25 * c + 25, 0, 4);
      Split(4 * g + c + 1, 0, 100);
      if c < 3 {
        Split(g, 100 * c + 100, 400);
      } else {
        Split(g + 1, 0, 400);
      }
    }
  }

  lemma Centuries(dg: int)
    requires 0 <= dg < 146097
    ensures var c := (dg / 36524 + 1) * 3 / 4;
            var dc := dg - c * 36524;
            0 <= c < 4 && 0 <= dc <= 36524 && (dc == 36524 ==> c == 3)
  {
  }

  lemma Quads(dc: int)
    requires 0 <= dc <= 36524
    ensures dc / 1461 < 25 && (dc / 1461 == 24 && dc % 1461 == 1460 ==> dc == 36524)
  {
  }

  lemma Singles(db: int)
    requires 0 <= db < 1461
    ensures var a := (db / 365 + 1) * 3 / 4;
            var da := db - a * 365;
            0 <= a < 4 && 0 <= da <= 365 && (da == 365 ==> a == 3 && db == 1460)
  {
  }

  /** The cycles of 400, 100, 4 and 1 years find the year and the day in it. */
  lemma MarchFound(j: nat)
    ensures InYear(ToMarch(j)) && YearStart(ToMarch(j).y) + ToMarch(j).da == j
  {
    hide YearStart, Leap;
    var g, dg := j / 146097, j % 146097;
    var c := (dg / 36524 + 1) * 3 / 4;
    var dc := dg - c * 36524;
    var b, db := dc / 1461, dc % 1461;
    var a := (db / 365 + 1) * 3 / 4;
    Centuries(dg);
    Quads(dc);
    Singles(db);
    YearParts(g, c, b, a);
  }

  // ----- months -----

  /** The days of the year before month m, counted from March. */
  function MonthStart(m: int): int {
    (153 * m + 2) / 5
  }

  lemma MonthFound(da: int)
    requires 0 <= da <= 365
    ensures var m := (da * 5 + 308) / 153 - 2;
            0 <= m <= 11 && MonthStart(m) <= da < MonthStart(m + 1) && (m + 4) * 153 / 5 - 122 == MonthStart(m)
  {
  }

  lemma MonthDays(m: int)
    requires 0 <= m <= 11
    ensures MonthStart(0) == 0 && MonthStart(11) == 337
    ensures m < 11 ==> MonthStart(m + 1) - MonthStart(m) == MonthLength(1, (m + 2) % 12 + 1)
  {
  }

  lemma SameLength(y: int, z: int, month: int)
    requires month != 2
    ensures MonthLength(y, month) == MonthLength(z, month)
  {
  }

  lemma Shift4800(y: int, n: nat, k: nat)
    requires n > 0 && n * k == 4800
    ensures (y - 4800) % n == y % n
  {
    hide Mod;
    ModAddMultiple(y - 4800, k, n);
    ModIs(y, n);
    ModIs(y - 4800, n);
  }

  lemma ModIs(x: int, n: nat)
    requires n > 0
    ensures Mod(x, n) == x % n
  {
  }

  lemma LeapShift(y: int)
    ensures Leap(y - 4800) <==> Leap(y)
  {
    Shift4800(y, 4, 1200);
    Shift4800(y, 100, 48);
    Shift4800(y, 400, 12);
  }

  /** The date of day da in month m of year y. */
  lemma DateIs(x: March, m: int)
    requires InYear(x) && 0 <= m <= 11 && MonthStart(m) <= x.da < MonthStart(m + 1)
    ensures ToDate(x) == Date(x.y - 4800 + (m + 2) / 12, (m + 2) % 12 + 1, x.da - MonthStart(m) + 1)
  {
    hide Leap;
    MonthFound(x.da);
    var k := (x.da * 5 + 308) / 153 - 2;
    if k < m {
      MonthsGrow(k + 1, m);
    } else if m < k {
      MonthsGrow(m + 1, k);
    }
  }

  lemma MonthsGrow(m: int, k: int)
    requires 0 <= m <= k
    ensures MonthStart(m) <= MonthStart(k)
  {
  }

  /** The length of month m, counted from March, of year y. */
  lemma LengthIs(y: int, m: int)
    requires 0 <= m <= 11
    ensures MonthLength(y - 4800 + (m + 2) / 12, (m + 2) % 12 + 1) ==
            if m == 11 then YearLength(y) - 337 else MonthStart(m + 1) - MonthStart(m)
  {
    hide Leap, MonthLength;
    MonthDays(m);
    if m == 11 {
      LeapShift(y + 1);
      February(y - 4799);
    } else {
      SameLength(1, y - 4800 + (m + 2) / 12, (m + 2) % 12 + 1);
    }
  }

  lemma February(y: int)
    ensures MonthLength(y, 2) == if Leap(y) then 29 else 28
  {
  }

  /** Every day of a year has a valid date, and the next day has the next date. */
  lemma DateSteps(x: March)
    requires InYear(x)
    ensures Valid(ToDate(x))
    ensures x.da + 1 < YearLength(x.y) ==> ToDate(x.(da := x.da + 1)) == Next(ToDate(x))
    ensures x.da + 1 == YearLength(x.y) ==> ToDate(March(x.y + 1, 0)) == Next(ToDate(x))
  {
    hide ToDate, MonthLength, Leap, MonthStart;
    MonthFound(x.da);
    var m := (x.da * 5 + 308) / 153 - 2;
    DateIs(x, m);
    LengthIs(x.y, m);
    MonthDays(m);
    MonthDays(0);
    if x.da + 1 < YearLength(x.y) {
      var y := x.(da := x.da + 1);
      if y.da < MonthStart(m + 1) {
        DateIs(y, m);
      } else {
        MonthTop();
        MonthsDiffer(m + 1);
        DateIs(y, m + 1);
      }
    } else {
      MonthTop();
      MonthsDiffer(0);
      DateIs(March(x.y + 1, 0), 0);
    }
  }

  lemma MonthTop()
    ensures MonthStart(12) == 367
  {
  }

  lemma MonthsDiffer(m: int)
    requires 0 <= m
    ensures MonthStart(m) < MonthStart(m + 1)
  {
  }

  /** The conversion always yields a valid date, and consecutive days have consecutive dates. */
  lemma Consecutive(mjd: int)
    requires mjd >= -2432045
    ensures Valid(Ymd(mjd)) && Ymd(mjd + 1) == Next(Ymd(mjd))
  {
    hide ToMarch, ToDate, YearStart, YearLength, Valid, Next;
    var j := mjd + 2400001 + 32044;
    var x := ToMarch(j);
    MarchFound(j);
    MarchFound(j + 1);
    DateSteps(x);
    YearEnds(x.y);
    if x.da + 1 < YearLength(x.y) {
      MarchUnique(ToMarch(j + 1), x.(da := x.da + 1));
    } else {
      LongYear(x.y + 1);
      MarchUnique(ToMarch(j + 1), March(x.y + 1, 0));
    }
  }

  lemma LongYear(y: int)
    ensures YearLength(y) >= 365
  {
  }

  // ----- the day count -----

  /** The days before a year, and before a month of it. */
  function CivilStart(year: int): int {
    365 * year + (year - 1) / 4 - (year - 1) / 100 + (year - 1) / 400
  }

  function MonthOffset(year: int, month: nat): int {
    if month <= 1 then 0 else MonthOffset(year, month - 1) + MonthLength(year, month - 1)
  }

  /** Days since 1858-11-17. */
  function DayCount(x: Date): int
    requires x.month >= 0
  {
    CivilStart(x.year) + MonthOffset(x.year, x.month) + x.day - 678941
  }

  lemma CivilEnds(year: int)
    ensures CivilStart(year + 1) == CivilStart(year) + MonthOffset(year, 13)
  {
    hide Leap, MonthLength;
    YearEnds(year - 1);
    assert CivilStart(year + 1) == YearStart(year) + 365;
    assert CivilStart(year) == YearStart(year - 1) + 365;
    YearTotal(year);
  }

  lemma YearTotal(year: int)
    ensures MonthOffset(year, 13) == if Leap(year) then 366 else 365
  {
    hide Leap;
    assert MonthOffset(year, 4) == 62 + MonthLength(year, 2) by {
      assert MonthOffset(year, 2) == 31;
    }
    assert MonthOffset(year, 7) == MonthOffset(year, 4) + 91 by {
      assert MonthOffset(year, 5) == MonthOffset(year, 4) + 30;
    }
    assert MonthOffset(year, 10) == MonthOffset(year, 7) + 92 by {
      assert MonthOffset(year, 8) == MonthOffset(year, 7) + 31;
    }
    assert MonthOffset(year, 13) == MonthOffset(year, 10) + 92 by {
      assert MonthOffset(year, 11) == MonthOffset(year, 10) + 31;
    }
  }

  lemma CountSteps(x: Date)
    requires Valid(x)
    ensures DayCount(Next(x)) == DayCount(x) + 1
  {
    hide Leap, CivilStart, MonthLength;
    CivilEnds(x.year);
    FirstMonth(x.year + 1);
    assert MonthOffset(x.year, x.month + 1) == MonthOffset(x.year, x.month) + MonthLength(x.year, x.month);
  }

  lemma FirstMonth(year: int)
    ensures MonthOffset(year, 1) == 0
  {
  }

  lemma NotLeap1858()
    ensures !Leap(1858)
  {
  }

  lemma Offset1858()
    ensures MonthOffset(1858, 11) == 304
  {
    hide Leap;
    NotLeap1858();
    assert MonthOffset(1858, 4) == 90 by {
      assert MonthOffset(1858, 2) == 31;
    }
    assert MonthOffset(1858, 7) == 181 by {
      assert MonthOffset(1858, 5) == 120;
    }
    assert MonthOffset(1858, 10) == 273 by {
      assert MonthOffset(1858, 8) == 212;
    }
  }

  lemma March1858()
    ensures ToMarch(2432045) == March(6658, 261)
  {
    hide ToMarch, YearLength;
    MarchFound(2432045);
    assert YearStart(6658) == 2431784;
    LongYear(6658);
    MarchUnique(ToMarch(2432045), March(6658, 261));
  }

  /** The first day. */
  lemma Epoch()
    ensures Ymd(0) == Date(1858, 11, 17) && DayCount(Date(1858, 11, 17)) == 0
  {
    hide MonthOffset, Leap, ToMarch, ToDate, YearLength;
    Offset1858();
    March1858();
    LongYear(6658);
    DateIs(March(6658, 261), 8);
  }

  /** The conversion inverts the day count. */
  lemma {:induction false} CountOfDate(mjd: int)
    requires mjd >= -2432045
    ensures Ymd(mjd).month >= 0 && DayCount(Ymd(mjd)) == mjd
    decreases if mjd >= 0 then mjd else 0 - mjd
  {
    hide Ymd, DayCount, Leap, Next, MonthLength;
    Epoch();
    Consecutive(mjd);
    if mjd > 0 {
      CountOfDate(mjd - 1);
      Consecutive(mjd - 1);
      CountSteps(Ymd(mjd - 1));
    } else if mjd < 0 {
      CountOfDate(mjd + 1);
      CountSteps(Ymd(mjd));
    }
  }

  lemma {:induction false} CivilGrows(y: int, z: int)
    requires y < z
    ensures CivilStart(y) + MonthOffset(y, 13) <= CivilStart(z)
    decreases z - y
  {
    hide CivilStart, Leap, MonthLength, MonthOffset;
    CivilEnds(y);
    if y + 1 < z {
      CivilGrows(y + 1, z);
      YearTotal(y + 1);
    }
  }

  lemma {:induction false} OffsetGrows(year: int, m: nat, n: nat)
    requires 1 <= m < n
    ensures MonthOffset(year, m) + MonthLength(year, m) <= MonthOffset(year, n)
    decreases n
  {
    hide Leap;
    if m < n - 1 {
      OffsetGrows(year, m, n - 1);
    }
  }

  lemma InYearCount(x: Date)
    requires Valid(x)
    ensures 0 < MonthOffset(x.year, x.month) + x.day <= MonthOffset(x.year, 13)
  {
    hide Leap, MonthLength;
    OffsetGrows(x.year, x.month, 13);
    OffsetNatural(x.year, x.month);
  }

  lemma {:induction false} OffsetNatural(year: int, month: nat)
    ensures MonthOffset(year, month) >= 0
  {
    hide Leap;
    if month > 1 {
      OffsetNatural(year, month - 1);
    }
  }

  /** A valid date is the date of its day count. */
  lemma DateOfCount(x: Date)
    requires Valid(x) && DayCount(x) >= -2432045
    ensures Ymd(DayCount(x)) == x
  {
    hide Ymd, CivilStart, MonthOffset, MonthLength, Leap;
    var y := Ymd(DayCount(x));
    CountOfDate(DayCount(x));
    Consecutive(DayCount(x));
    InYearCount(x);
    InYearCount(y);
    if x.year < y.year {
      CivilGrows(x.year, y.year);
    } else if y.year < x.year {
      CivilGrows(y.year, x.year);
    }
    if x.month < y.month {
      OffsetGrows(x.year, x.month, y.month);
    } else if y.month < x.month {
      OffsetGrows(x.year, y.month, x.month);
    }
  }

  // ----- local time -----

  /** FIG 0/9: the offset in minutes from five bits of half hours and a sign. */
  function LtoMinutes(halfHours: nat, negative: bool): (r: int)
    requires halfHours < 32
    ensures -930 <= r <= 930 && (r == 30 * halfHours || r == -30 * halfHours)
    ensures r < 0 <==> negative && halfHours > 0
  {
    (if negative then 0 - halfHours else halfHours) * 30
  }

  /** _get_local_time: for any input the time is kept, and the hour is a proper one if and only if the sum lies between
      the previous and the next day. */
  method GetLocalTime(utcHour: int, utcMinute: int, lto: int) returns (hour: int, minute: int, shift: int)
    ensures 0 <= minute < 60 && -1 <= shift <= 1
    ensures 1440 * shift + 60 * hour + minute == 60 * utcHour + utcMinute + lto
    ensures 0 <= hour < 24 <==> -1440 <= 60 * utcHour + utcMinute + lto < 2880
  {
    hour, minute := utcHour, utcMinute;
    minute := minute + lto;
    while minute >= 60
      invariant 60 * hour + minute == 60 * utcHour + utcMinute + lto
    {
      minute := minute - 60;
      hour := hour + 1;
    }
    while minute < 0
      invariant minute < 60 && 60 * hour + minute == 60 * utcHour + utcMinute + lto
    {
      minute := minute + 60;
      hour := hour - 1;
    }
    if hour > 23 {
      hour := hour - 24;
      return hour, minute, 1;
    }
    if hour < 0 {
      hour := hour + 24;
      return hour, minute, -1;
    }
    return hour, minute, 0;
  }

  /** slot_fib_time: the displayed local date and time are UTC plus the offset, to the minute. With a proper UTC time and
      any offset that can be sent, the displayed hour is a proper one. */
  method LocalDateTime(mjd: nat, utcHour: nat, utcMinute: nat, lto: int)
    returns (utc: Date, local: Date, hour: int, minute: int)
    ensures Valid(utc) && DayCount(utc) == mjd
    ensures Valid(local) && 0 <= minute < 60
    ensures utcHour < 24 && utcMinute < 60 && -930 <= lto <= 930 ==> 0 <= hour < 24
    ensures 1440 * DayCount(local) + 60 * hour + minute == 1440 * mjd + 60 * utcHour + utcMinute + lto
  {
    hide Ymd, DayCount, Next, Valid;
    var shift;
    hour, minute, shift := GetLocalTime(utcHour, utcMinute, lto);
    utc := Ymd(mjd);
    local := if shift != 0 then Ymd(mjd + shift) else utc;
    Consecutive(mjd);
    Consecutive(mjd + shift);
    CountOfDate(mjd);
    CountOfDate(mjd + shift);
  }
}
