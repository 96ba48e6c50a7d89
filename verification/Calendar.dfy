/** Civil dates and Modified Julian Days: the forward formula, the inverse formula, and the date check. */
module Calendar {

  datatype Date = Date(iy: int, im: int, id: int)

  /** Integer division that truncates toward zero. */
  function TruncDiv(a: int, b: int): int
    requires b > 0
  {
    if a >= 0 then a / b else -((-a) / b)
  }

  /** Conversion of a real to an integer, truncating toward zero. */
  function Trunc(x: real): int
  {
    if x >= 0.0 then x.Floor else -((-x).Floor)
  }

  /** Remainder modulo one with the sign of x. */
  function FMod1(x: real): real
  {
    x - Trunc(x) as real
  }

  // ---- from a date to a day number

  /** Whole part of the Modified Julian Day of a date. */
  function DayNumber(d: Date): int
  {
    var my := TruncDiv(d.im - 14, 12);
    var iypmy := d.iy + my;
    TruncDiv(1461 * (iypmy + 4800), 4) + TruncDiv(367 * (d.im - 2 - 12 * my), 12)
    - TruncDiv(3 * TruncDiv(iypmy + 4900, 100), 4) + d.id - 2432076
  }

  function ModifiedJulianDay(d: Date, fd: real): real
  {
    DayNumber(d) as real + fd
  }

  // ---- from a day number to a date

  const AU_MJD0: real := 2400000.5

  function Mjd2Cal(mjd: real): (Date, real)
  {
    var jdn := Trunc(mjd + AU_MJD0 + 0.5);
    var A :=
      if jdn >= 2299161 then
        var t := Trunc((jdn as real - 1867216.25) / 36524.25);
        jdn + 1 + t - TruncDiv(t, 4)
      else jdn;
    var B := A + 1524;
    var C := Trunc((B as real - 122.1) / 365.25);
    var D := Trunc(365.25 * C as real);
    var E := Trunc((B - D) as real / 30.6000001);
    var id := B - D - Trunc(30.6000001 * E as real);
    var im := if E < 14 then E - 1 else E - 13;
    var iy := if im > 2 then C - 4716 else C - 4715;
    (Date(iy, im, id), FMod1(mjd))
  }

  // ---- the check of SetUTC

  function MonthDays(im: int): int
    requires 1 <= im <= 12
  {
    [0, 31, 28, 31, 30, 31, 30, 31, 31, 30, 31, 30, 31][im]
  }

  /** One in a leap February, else zero. */
  function LeapDay(iy: int, im: int): int
  {
    if im == 2 && iy % 4 == 0 && (iy % 100 != 0 || iy % 400 == 0) then 1 else 0
  }

  /** The return code of SetUTC. */
  function CheckUTC(d: Date, fd: real): int
  {
    if d.iy < -4799 then -1
    else if d.im < 1 || d.im > 12 then -2
    else if d.id < 1 || d.id > MonthDays(d.im) + LeapDay(d.iy, d.im) then -3
    else if fd < 0.0 || fd >= 1.0 then -4
    else 0
  }

  predicate ValidDate(d: Date)
  {
    d.iy >= -4799 && 1 <= d.im <= 12 && 1 <= d.id <= MonthDays(d.im) + LeapDay(d.iy, d.im)
  }

  /** The code names the first part of the date that is out of range; zero means a date of the calendar. */
  lemma UtcCodes(d: Date, fd: real)
    ensures CheckUTC(d, fd) == 0 <==> ValidDate(d) && 0.0 <= fd < 1.0
    ensures CheckUTC(d, fd) == -1 <==> d.iy < -4799
    ensures CheckUTC(d, fd) == -2 <==> d.iy >= -4799 && !(1 <= d.im <= 12)
    ensures CheckUTC(d, fd) == -3 <==> d.iy >= -4799 && 1 <= d.im <= 12 && !ValidDate(d)
    ensures CheckUTC(d, fd) == -4 <==> ValidDate(d) && !(0.0 <= fd < 1.0)
  {
  }

  function NextDate(d: Date): Date
    requires ValidDate(d)
  {
    if d.id < MonthDays(d.im) + LeapDay(d.iy, d.im) then Date(d.iy, d.im, d.id + 1)
    else if d.im < 12 then Date(d.iy, d.im + 1, 1)
    else Date(d.iy + 1, 1, 1)
  }

  // ---- the forward formula counts days

  function Quarters(y: int): int
  {
    1461 * (y + 4800) / 4
  }

  function Centuries(y: int): int
  {
    3 * ((y + 4900) / 100) / 4
  }

  /** Years from March on: the day number before the first of March of year y, up to a constant. */
  function YearStart(y: int): int
  {
    Quarters(y) - Centuries(y)
  }

  /** Days before month m of a year that starts in March, plus 30; m = 1 is March. */
  function MonthStart(m: int): int
  {
    367 * m / 12
  }

  /** The year a date belongs to when years start in March. */
  function MarchYear(d: Date): int
  {
    if d.im <= 2 then d.iy - 1 else d.iy
  }

  function MarchMonth(d: Date): int
  {
    if d.im <= 2 then d.im + 10 else d.im - 2
  }

  lemma DayNumberParts(d: Date)
    requires d.iy >= -4799 && 1 <= d.im <= 12
    ensures DayNumber(d) == YearStart(MarchYear(d)) + MonthStart(MarchMonth(d)) + d.id - 2432076
  {
    assert TruncDiv(d.im - 14, 12) == if d.im <= 2 then -1 else 0;
  }

  lemma QuarterStep(y: int)
    ensures Quarters(y + 1) - Quarters(y) == if (y + 1) % 4 == 0 then 366 else 365
  {
    var a := y + 4800;
    var q, r := a / 4, a % 4;
    assert 1461 * a == 4 * (1461 * q) + 1461 * r;
    assert (y + 1) % 4 == (a + 1) % 4;
  }

  lemma CenturyCount(y: int)
    ensures (y + 4901) / 100 == (y + 4900) / 100 + if (y + 1) % 100 == 0 then 1 else 0
  {
    assert (y + 4901) % 100 == (y + 1) % 100;
  }

  lemma FourCenturies(c: int)
    ensures (100 * c - 4900) % 400 == 0 <==> c % 4 == 1
  {
    var q, r := c / 4, c % 4;
    assert 100 * c - 4900 == 400 * (q - 13) + 100 * (r + 3);
  }

  lemma CenturyStep(y: int)
    ensures Centuries(y + 1) - Centuries(y) == if (y + 1) % 100 == 0 && (y + 1) % 400 != 0 then 1 else 0
  {
    CenturyCount(y);
    if (y + 1) % 100 == 0 {
      var c := (y + 4901) / 100;
      assert y + 1 == 100 * c - 4900;
      FourCenturies(c);
    }
  }

  /** One March year further: 365 days, and one more when its last month is a leap February. */
  lemma YearLength(y: int)
    ensures YearStart(y + 1) == YearStart(y) + 365 + LeapDay(y + 1, 2)
  {
    hide Quarters, Centuries;
    QuarterStep(y);
    CenturyStep(y);
  }

  lemma MonthLength(m: int)
    requires 1 <= m < 12
    ensures MonthStart(m + 1) - MonthStart(m) == MonthDays(if m <= 10 then m + 2 else m - 10)
    ensures MonthStart(12) - MonthStart(1) == 337
  {
  }

  /** The day number rises by exactly one from each valid date to the next. */
  lemma NextDay(d: Date)
    requires ValidDate(d)
    ensures ValidDate(NextDate(d)) && DayNumber(NextDate(d)) == DayNumber(d) + 1
  {
    hide YearStart, MonthStart, DayNumber;
    DayNumberParts(d);
    DayNumberParts(NextDate(d));
    if d.id == MonthDays(d.im) + LeapDay(d.iy, d.im) {
      if d.im == 2 {
        YearLength(d.iy - 1);
        MonthLength(1);
      } else {
        MonthLength(MarchMonth(d));
      }
    }
  }

  // ---- the inverse formula in whole numbers

  const GREGORIAN: int := 2299161

  /** Whole March centuries passed at Julian Day Number jdn, four less than the century of the year. */
  function CenturyOf(jdn: int): int
  {
    (4 * jdn - 7468865) / 146097
  }

  function Shifted(jdn: int): int
  {
    var t := CenturyOf(jdn);
    jdn + 1 + t - t / 4 + 1524
  }

  function YearOf(B: int): int
  {
    (20 * B - 2442) / 7305
  }

  function DaysBefore(C: int): int
  {
    1461 * C / 4
  }

  function MonthOf(F: int): int
  {
    10000000 * F / 306000001
  }

  function MonthOffset(E: int): int
  {
    306000001 * E / 10000000
  }

  /** The date of the shifted day number B. */
  function DateAt(B: int): Date
  {
    var C := YearOf(B);
    var F := B - DaysBefore(C);
    var E := MonthOf(F);
    var im := if E < 14 then E - 1 else E - 13;
    Date(if im > 2 then C - 4716 else C - 4715, im, F - MonthOffset(E))
  }

  function DateOf(jdn: int): Date
  {
    DateAt(Shifted(jdn))
  }

  lemma FloorIs(x: real, n: int)
    requires n as real <= x < (n + 1) as real
    ensures x.Floor == n
  {
  }

  lemma RealCentury(jdn: int)
    requires jdn >= GREGORIAN
    ensures Trunc((jdn as real - 1867216.25) / 36524.25) == CenturyOf(jdn) >= 0
    ensures TruncDiv(CenturyOf(jdn), 4) == CenturyOf(jdn) / 4
  {
    FloorIs((jdn as real - 1867216.25) / 36524.25, CenturyOf(jdn));
  }

  lemma RealYear(B: int)
    requires B >= 123
    ensures Trunc((B as real - 122.1) / 365.25) == YearOf(B) >= 0
  {
    FloorIs((B as real - 122.1) / 365.25, YearOf(B));
  }

  lemma RealDays(C: int)
    requires C >= 0
    ensures Trunc(365.25 * C as real) == DaysBefore(C)
  {
    FloorIs(365.25 * C as real, DaysBefore(C));
  }

  lemma RealMonth(F: int)
    requires F >= 0
    ensures Trunc(F as real / 30.6000001) == MonthOf(F) >= 0
  {
    FloorIs(F as real / 30.6000001, MonthOf(F));
  }

  lemma RealOffset(E: int)
    requires E >= 0
    ensures Trunc(30.6000001 * E as real) == MonthOffset(E)
  {
    FloorIs(30.6000001 * E as real, MonthOffset(E));
  }

  /** Day F of the shifted year lies between 123 and 488, and 488 only closes a year that is 3 modulo 4. */
  lemma DayRange(B: int)
    requires B >= 123
    ensures var C := YearOf(B);
      var F := B - DaysBefore(C);
      123 <= F <= 488 && (F == 488 ==> C % 4 == 3)
  {
    var C := YearOf(B);
    assert 7305 * C <= 20 * B - 2442 < 7305 * C + 7305;
    assert 4 * DaysBefore(C) == 1461 * C - (1461 * C) % 4;
    assert (1461 * C) % 4 == C % 4;
  }

  /** The month table hidden in the constant 30.6000001. */
  lemma MonthTable(F: int)
    requires 123 <= F <= 488
    ensures var E := MonthOf(F);
      && 4 <= E <= 15
      && MonthOffset(E) == MonthStart(E - 3) + 92
      && 1 <= F - MonthOffset(E) <= (if E == 15 then 29 else MonthDays(if E < 14 then E - 1 else E - 13))
      && (F - MonthOffset(E) == 29 && E == 15 ==> F == 488)
  {
    var E := MonthOf(F);
    assert 306000001 * E <= 10000000 * F < 306000001 * (E + 1);
    assert E == 4 || E == 5 || E == 6 || E == 7 || E == 8 || E == 9 || E == 10 || E == 11 || E == 12 || E == 13
           || E == 14 || E == 15;
  }

  /** The year found lies in the March century found. */
  lemma YearInCentury(jdn: int)
    requires jdn >= GREGORIAN
    ensures var t, C := CenturyOf(jdn), YearOf(Shifted(jdn));
      (C + 184) / 100 == t + 53
  {
    var t := CenturyOf(jdn);
    var B := Shifted(jdn);
    var C := YearOf(B);
    assert 146097 * t <= 4 * jdn - 7468865 < 146097 * t + 146097;
    assert 4 * (t / 4) == t - t % 4;
    assert 7305 * C <= 20 * B - 2442 < 7305 * C + 7305;
    assert 100 * t + 5116 <= C < 100 * t + 5216;
  }

  // ---- the two formulas are inverse to each other

  /** The century correction of the forward formula undoes the one of the inverse formula. */
  lemma CenturiesMatch(C: int, t: int)
    requires (C + 184) / 100 == t + 53
    ensures Centuries(C - 4716) == t - t / 4 + 39
  {
    assert C - 4716 + 4900 == C + 184;
    assert 3 * (t + 53) / 4 == t + 39 + (3 - t) / 4;
    assert (3 - t) / 4 == -(t / 4);
  }

  lemma QuartersMatch(C: int)
    ensures Quarters(C - 4716) == DaysBefore(C) + 30681
  {
    assert 1461 * (C - 4716 + 4800) == 1461 * C + 4 * 30681;
  }

  /** The number of a computed date is the number it was computed from. */
  lemma DateOfNumber(jdn: int)
    requires jdn >= GREGORIAN
    ensures DateOf(jdn).iy >= -4799 && 1 <= DateOf(jdn).im <= 12
    ensures DayNumber(DateOf(jdn)) == jdn - 2400001
  {
    hide Quarters, Centuries, MonthStart, DayNumber, MonthOf, MonthOffset, DaysBefore, CenturyOf;
    var t, B := CenturyOf(jdn), Shifted(jdn);
    CenturyPositive(jdn);
    var C := YearOf(B);
    DayRange(B);
    MonthTable(B - DaysBefore(C));
    YearInCentury(jdn);
    CenturiesMatch(C, t);
    QuartersMatch(C);
    DayNumberParts(DateOf(jdn));
  }

  lemma CenturyPositive(jdn: int)
    requires jdn >= GREGORIAN
    ensures CenturyOf(jdn) >= 11
  {
  }

  /** A 29 February is produced only in leap years. */
  lemma LeapDayEarned(jdn: int)
    requires jdn >= GREGORIAN
    requires Shifted(jdn) - DaysBefore(YearOf(Shifted(jdn))) == 488
    ensures LeapDay(YearOf(Shifted(jdn)) - 4715, 2) == 1
  {
    var t, B := CenturyOf(jdn), Shifted(jdn);
    var C := YearOf(B);
    DayRange(B);
    YearInCentury(jdn);
    hide CenturyOf, YearOf, DaysBefore, LeapDay;
    if (C - 4715) % 100 == 0 {
      CenturyYear(C, t);
      CenturyBounds(jdn);
      QuarterOf(C);
      LastCentury(jdn, t, t / 4, C, DaysBefore(C));
      FourthCentury(C, t / 4);
    } else {
      CommonLeap(C);
    }
  }

  lemma CommonLeap(C: int)
    requires C % 4 == 3 && (C - 4715) % 100 != 0
    ensures LeapDay(C - 4715, 2) == 1
  {
  }

  lemma FourHundred(z: int)
    ensures (400 * z) % 400 == 0 && (400 * z) % 4 == 0
  {
    assert 400 * z == 4 * (100 * z);
  }

  lemma FourthCentury(C: int, q: int)
    requires C == 100 * (4 * q + 3) + 5215
    ensures LeapDay(C - 4715, 2) == 1
  {
    assert C - 4715 == 400 * (q + 2);
    FourHundred(q + 2);
  }

  lemma CenturyYear(C: int, t: int)
    requires (C + 184) / 100 == t + 53 && (C - 4715) % 100 == 0
    ensures C == 100 * t + 5215
  {
  }

  lemma CenturyBounds(jdn: int)
    ensures 4 * jdn - 7468865 < 146097 * CenturyOf(jdn) + 146097
  {
  }

  lemma QuarterOf(C: int)
    requires C % 4 == 3
    ensures 4 * DaysBefore(C) == 1461 * C - 3
  {
  }

  lemma LastCentury(jdn: int, t: int, q: int, C: int, days: int)
    requires 4 * q <= t <= 4 * q + 3 && C == 100 * t + 5215 && 4 * days == 1461 * C - 3
    requires jdn + 1 + t - q + 1524 - days == 488 && 4 * jdn - 7468865 < 146097 * t + 146097
    ensures t == 4 * q + 3
  {
  }

  lemma DateOfValid(jdn: int)
    requires jdn >= GREGORIAN
    ensures ValidDate(DateOf(jdn))
  {
    hide CenturyOf, MonthOf, MonthOffset, DaysBefore, LeapDay;
    DateOfNumber(jdn);
    CenturyPositive(jdn);
    var B := Shifted(jdn);
    var C := YearOf(B);
    var F := B - DaysBefore(C);
    DayRange(B);
    MonthTable(F);
    LeapDayOne(C - 4715, 2);
    LeapDayOne(DateOf(jdn).iy, DateOf(jdn).im);
    if F == 488 {
      LeapDayEarned(jdn);
    }
  }

  lemma LeapDayOne(iy: int, im: int)
    ensures 0 <= LeapDay(iy, im) <= if im == 2 then 1 else 0
  {
  }

  lemma Mjd2CalWhole(mjd: real)
    requires Trunc(mjd + AU_MJD0 + 0.5) >= GREGORIAN
    ensures Mjd2Cal(mjd) == (DateOf(Trunc(mjd + AU_MJD0 + 0.5)), FMod1(mjd))
  {
    hide CenturyOf, MonthOf, MonthOffset, DaysBefore, YearOf, Trunc, TruncDiv, FMod1;
    var jdn := Trunc(mjd + AU_MJD0 + 0.5);
    CenturyPositive(jdn);
    RealCentury(jdn);
    var B := Shifted(jdn);
    var C := YearOf(B);
    RealYear(B);
    RealDays(C);
    DayRange(B);
    RealMonth(B - DaysBefore(C));
    RealOffset(MonthOf(B - DaysBefore(C)));
  }

  lemma CheckAccepts(d: Date, fd: real)
    ensures CheckUTC(d, fd) == 0 <==> ValidDate(d) && 0.0 <= fd < 1.0
  {
  }

  lemma JulianDayNumber(mjd: real)
    requires mjd >= -2400001.0
    ensures Trunc(mjd + AU_MJD0 + 0.5) == mjd.Floor + 2400001
    ensures FMod1(mjd) == if mjd >= 0.0 || mjd.Floor as real == mjd then mjd - mjd.Floor as real
                          else mjd - mjd.Floor as real - 1.0
  {
    FloorIs(mjd + AU_MJD0 + 0.5, mjd.Floor + 2400001);
    if mjd < 0.0 {
      if mjd.Floor as real == mjd {
        FloorIs(-mjd, -mjd.Floor);
      } else {
        FloorIs(-mjd, -mjd.Floor - 1);
      }
    }
  }

  /** The round trip through a date, and acceptance by SetUTC, hold exactly for whole days and for days from
      the zero point on: before it the fraction of the day is negative. */
  lemma MjdRoundTrip(mjd: real)
    requires mjd >= (GREGORIAN - 2400001) as real
    ensures var (d, fd) := Mjd2Cal(mjd);
      ValidDate(d)
      && (ModifiedJulianDay(d, fd) == mjd <==> mjd >= 0.0 || FMod1(mjd) == 0.0)
      && (CheckUTC(d, fd) == 0 <==> mjd >= 0.0 || FMod1(mjd) == 0.0)
  {
    hide DateOf, DayNumber, LeapDay, Mjd2Cal, Trunc, FMod1, ValidDate, CheckUTC;
    var jdn := mjd.Floor + 2400001;
    JulianDayNumber(mjd);
    Mjd2CalWhole(mjd);
    DateOfNumber(jdn);
    DateOfValid(jdn);
    CheckAccepts(DateOf(jdn), FMod1(mjd));
  }

  /** Half a day before the zero point is refused, and would not come back. */
  lemma NegativeFraction()
    ensures var (d, fd) := Mjd2Cal(-0.5); CheckUTC(d, fd) != 0 && ModifiedJulianDay(d, fd) != -0.5
  {
    hide Mjd2Cal, CheckUTC, ModifiedJulianDay, ValidDate, FMod1;
    MjdRoundTrip(-0.5);
    JulianDayNumber(-0.5);
  }

  lemma {:induction false} YearsApart(y: int, z: int)
    requires y < z
    ensures YearStart(z) >= YearStart(y) + 365 + LeapDay(y + 1, 2)
    decreases z - y
  {
    hide YearStart;
    YearLength(z - 1);
    LeapDayOne(z, 2);
    if y < z - 1 {
      YearsApart(y, z - 1);
    }
  }

  lemma {:induction false} MonthsApart(m: int, n: int)
    requires 1 <= m < n <= 12
    ensures MonthStart(n) >= MonthStart(m) + MonthDays(if m <= 10 then m + 2 else m - 10)
    decreases n - m
  {
    hide MonthStart;
    MonthLength(n - 1);
    if m < n - 1 {
      MonthsApart(m, n - 1);
    }
  }

  /** Days from the start of the March year to a valid date. */
  lemma WithinYear(d: Date)
    requires ValidDate(d)
    ensures 31 <= MonthStart(MarchMonth(d)) + d.id <= 395 + LeapDay(MarchYear(d) + 1, 2)
  {
    LeapDayOne(d.iy, d.im);
    LeapDayOne(MarchYear(d) + 1, 2);
    MonthLength(1);
    if MarchMonth(d) < 12 {
      MonthsApart(MarchMonth(d), 12);
    }
  }

  /** Months since year zero. */
  function MonthIndex(d: Date): int
  {
    12 * d.iy + d.im
  }

  /** Dates of an earlier month have smaller numbers. */
  lemma MonthOrder(d: Date, e: Date)
    requires ValidDate(d) && ValidDate(e) && MonthIndex(d) < MonthIndex(e)
    ensures DayNumber(d) < DayNumber(e)
  {
    hide YearStart, MonthStart, DayNumber, LeapDay;
    DayNumberParts(d);
    DayNumberParts(e);
    WithinYear(d);
    WithinYear(e);
    LeapDayOne(d.iy, d.im);
    if MarchYear(d) < MarchYear(e) {
      YearsApart(MarchYear(d), MarchYear(e));
    } else {
      MonthsApart(MarchMonth(d), MarchMonth(e));
    }
  }

  /** Two valid dates with the same number are the same date. */
  lemma NumberInjective(d: Date, e: Date)
    requires ValidDate(d) && ValidDate(e) && DayNumber(d) == DayNumber(e)
    ensures d == e
  {
    hide YearStart, MonthStart, DayNumber, ValidDate;
    if MonthIndex(d) < MonthIndex(e) {
      MonthOrder(d, e);
    } else if MonthIndex(e) < MonthIndex(d) {
      MonthOrder(e, d);
    } else {
      SameMonth(d, e);
      DayNumberParts(d);
      DayNumberParts(e);
    }
  }

  lemma SameMonth(d: Date, e: Date)
    requires ValidDate(d) && ValidDate(e) && MonthIndex(d) == MonthIndex(e)
    ensures d.iy == e.iy >= -4799 && 1 <= d.im == e.im <= 12
  {
  }

  /** The other way round: a valid date and a day fraction come back from their Modified Julian Day. */
  lemma DateRoundTrip(d: Date, fd: real)
    requires ValidDate(d) && 0.0 <= fd < 1.0
    requires DayNumber(d) >= GREGORIAN - 2400001 && (DayNumber(d) >= 0 || fd == 0.0)
    ensures Mjd2Cal(ModifiedJulianDay(d, fd)) == (d, fd)
  {
    hide DateOf, DayNumber, LeapDay, Mjd2Cal, Trunc, FMod1, ValidDate;
    var mjd, jdn := ModifiedJulianDay(d, fd), DayNumber(d) + 2400001;
    FloorIs(mjd, DayNumber(d));
    JulianDayNumber(mjd);
    Mjd2CalWhole(mjd);
    DateOfNumber(jdn);
    DateOfValid(jdn);
    NumberInjective(DateOf(jdn), d);
  }
}
