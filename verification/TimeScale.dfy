/** TAI - UTC from the leap second table, and the time scale built on it. */
module TimeScale {
  import opened Calendar

  const AU_DAYSEC: real := 86400.0

  /** From the given month on, TAI - UTC is delat seconds. */
  datatype Change = Change(iyear: int, month: int, delat: real)

  const NDAT: int := 42
  const NERA1: int := 14

  function TableRow(i: int): Change
    requires 0 <= i < NDAT
  {
    match i
    case 0 => Change(1960, 1, 1.417818)
    case 1 => Change(1961, 1, 1.422818)
    case 2 => Change(1961, 8, 1.372818)
    case 3 => Change(1962, 1, 1.845858)
    case 4 => Change(1963, 11, 1.945858)
    case 5 => Change(1964, 1, 3.24013)
    case 6 => Change(1964, 4, 3.34013)
    case 7 => Change(1964, 9, 3.44013)
    case 8 => Change(1965, 1, 3.54013)
    case 9 => Change(1965, 3, 3.64013)
    case 10 => Change(1965, 7, 3.74013)
    case 11 => Change(1965, 9, 3.84013)
    case 12 => Change(1966, 1, 4.31317)
    case 13 => Change(1968, 2, 4.21317)
    case 14 => Change(1972, 1, 10.0)
    case 15 => Change(1972, 7, 11.0)
    case 16 => Change(1973, 1, 12.0)
    case 17 => Change(1974, 1, 13.0)
    case 18 => Change(1975, 1, 14.0)
    case 19 => Change(1976, 1, 15.0)
    case 20 => Change(1977, 1, 16.0)
    case 21 => Change(1978, 1, 17.0)
    case 22 => Change(1979, 1, 18.0)
    case 23 => Change(1980, 1, 19.0)
    case 24 => Change(1981, 7, 20.0)
    case 25 => Change(1982, 7, 21.0)
    case 26 => Change(1983, 7, 22.0)
    case 27 => Change(1985, 7, 23.0)
    case 28 => Change(1988, 1, 24.0)
    case 29 => Change(1990, 1, 25.0)
    case 30 => Change(1991, 1, 26.0)
    case 31 => Change(1992, 7, 27.0)
    case 32 => Change(1993, 7, 28.0)
    case 33 => Change(1994, 7, 29.0)
    case 34 => Change(1996, 1, 30.0)
    case 35 => Change(1997, 7, 31.0)
    case 36 => Change(1999, 1, 32.0)
    case 37 => Change(2006, 1, 33.0)
    case 38 => Change(2009, 1, 34.0)
    case 39 => Change(2012, 7, 35.0)
    case 40 => Change(2015, 7, 36.0)
    case _ => Change(2017, 1, 37.0)
  }

  /** Reference day and drift in seconds a day, before leap seconds were introduced. */
  function DriftRow(i: int): (real, real)
    requires 0 <= i < NERA1
  {
    match i
    case 0 => (37300.0, 0.0012960)
    case 1 => (37300.0, 0.0012960)
    case 2 => (37300.0, 0.0012960)
    case 3 => (37665.0, 0.0011232)
    case 4 => (37665.0, 0.0011232)
    case 5 => (38761.0, 0.0012960)
    case 6 => (38761.0, 0.0012960)
    case 7 => (38761.0, 0.0012960)
    case 8 => (38761.0, 0.0012960)
    case 9 => (38761.0, 0.0012960)
    case 10 => (38761.0, 0.0012960)
    case 11 => (38761.0, 0.0012960)
    case 12 => (39126.0, 0.0025920)
    case _ => (39126.0, 0.0025920)
  }

  function RowMonth(i: int): int
    requires 0 <= i < NDAT
  {
    MonthIndex(Date(TableRow(i).iyear, TableRow(i).month, 1))
  }

  /** The last row, from i down, that is not later than month m; -1 if all are later. */
  function EntryFrom(m: int, i: int): (r: int)
    requires -1 <= i < NDAT
    ensures -1 <= r <= i
    decreases i + 1
  {
    if i == -1 || m >= RowMonth(i) then i else EntryFrom(m, i - 1)
  }

  function Entry(m: int): (r: int)
    ensures -1 <= r < NDAT
  {
    EntryFrom(m, NDAT - 1)
  }

  lemma {:induction false} EntryRange(m: int, i: int)
    requires 0 <= i < NDAT && m >= RowMonth(0)
    ensures 0 <= EntryFrom(m, i) && m >= RowMonth(EntryFrom(m, i))
    ensures EntryFrom(m, i) < i ==> m < RowMonth(EntryFrom(m, i) + 1)
  {
    hide RowMonth;
    if m < RowMonth(i) {
      EntryRange(m, i - 1);
    }
  }

  /** TAI - UTC on a date from 1960 on. */
  function DeltaAT(d: Date, fd: real): real
    requires MonthIndex(d) >= RowMonth(0)
  {
    var m := MonthIndex(d);
    EntryRange(m, NDAT - 1);
    var i := Entry(m);
    if i < NERA1 then
      TableRow(i).delat + (ModifiedJulianDay(d, fd) + fd - DriftRow(i).0) * DriftRow(i).1
    else TableRow(i).delat
  }

  /** The table search. */
  method FindEntry(m: int) returns (i: int)
    requires m >= RowMonth(0)
    ensures 0 <= i == Entry(m)
  {
    hide RowMonth;
    EntryRange(m, NDAT - 1);
    i := NDAT - 1;
    while i >= 0
      invariant 0 <= i < NDAT && Entry(m) == EntryFrom(m, i)
    {
      if m >= RowMonth(i) {
        break;
      }
      i := i - 1;
    }
  }

  // ---- the time scale

  lemma NewYear(iy: int)
    requires iy >= -4799
    ensures ValidDate(Date(iy, 1, 1))
  {
    LeapDayOne(iy, 1);
  }

  /** Whole day 36934 is 1960-01-01, where the table begins. */
  lemma TableCovers(mjd: real)
    requires mjd >= 36934.0
    ensures MonthIndex(Mjd2Cal(mjd).0) >= RowMonth(0)
  {
    hide Mjd2Cal, DateOf, LeapDay, FMod1;
    var d, first := DateOf(mjd.Floor + 2400001), Date(1960, 1, 1);
    JulianDayNumber(mjd);
    Mjd2CalWhole(mjd);
    DateOfNumber(mjd.Floor + 2400001);
    DateOfValid(mjd.Floor + 2400001);
    NewYear(1960);
    assert DayNumber(first) == 36934;
    if MonthIndex(d) < MonthIndex(first) {
      MonthOrder(d, first);
    }
  }

  function UTC2TAI(mjd: real): real
    requires mjd >= 36934.0
  {
    TableCovers(mjd);
    var (d, fd0) := Mjd2Cal(mjd);
    var dat0 := DeltaAT(d, 0.0);
    var dat12 := DeltaAT(d, 0.5);
    var tomorrow := mjd - fd0 + 1.5;
    FractionBelow(mjd);
    TableCovers(tomorrow);
    var dat24 := DeltaAT(Mjd2Cal(tomorrow).0, 0.0);
    var dlod := 2.0 * (dat12 - dat0);
    var dleap := dat24 - (dat0 + dlod);
    var fd1 := fd0 * ((AU_DAYSEC + dleap) / AU_DAYSEC);
    var fd2 := fd1 * ((AU_DAYSEC + dlod) / AU_DAYSEC);
    ModifiedJulianDay(d, fd2) + dat0 / AU_DAYSEC
  }

  lemma FractionBelow(mjd: real)
    requires mjd >= 0.0
    ensures 0.0 <= Mjd2Cal(mjd).1 < 1.0 && Mjd2Cal(mjd).1 == mjd - mjd.Floor as real
  {
    hide DateOf;
    JulianDayNumber(mjd);
    Mjd2CalWhole(mjd);
  }

  /** 1972-01-01, the first day of whole leap seconds. */
  const LEAP_ERA: int := 41317

  /** Table row in force on a day. */
  function DayEntry(day: int): int
    requires day >= LEAP_ERA
  {
    Entry(MonthIndex(DateOf(day + 2400001)))
  }

  /** TAI - UTC throughout a day of the leap second era. */
  function DayOffset(day: int): real
    requires day >= LEAP_ERA
  {
    EntryInRange(day);
    TableRow(DayEntry(day)).delat
  }

  lemma DayDate(day: int)
    requires day >= LEAP_ERA
    ensures var d := DateOf(day + 2400001);
      ValidDate(d) && DayNumber(d) == day && MonthIndex(d) >= RowMonth(NERA1)
  {
    hide DateOf, LeapDay;
    var d, first := DateOf(day + 2400001), Date(1972, 1, 1);
    DateOfNumber(day + 2400001);
    DateOfValid(day + 2400001);
    NewYear(1972);
    assert DayNumber(first) == LEAP_ERA;
    if MonthIndex(d) < MonthIndex(first) {
      MonthOrder(d, first);
    }
  }

  lemma {:induction false} EntryReaches(m: int, i: int, r: int)
    requires 0 <= r <= i < NDAT && m >= RowMonth(r)
    ensures EntryFrom(m, i) >= r
  {
    hide RowMonth;
    if m < RowMonth(i) {
      EntryReaches(m, i - 1, r);
    }
  }

  lemma EntryInRange(day: int)
    requires day >= LEAP_ERA
    ensures NERA1 <= DayEntry(day) < NDAT
  {
    hide DateOf, RowMonth, EntryFrom;
    DayDate(day);
    EntryReaches(MonthIndex(DateOf(day + 2400001)), NDAT - 1, NERA1);
  }

  /** Within the day the scale is a straight line that takes up the leap second, if there is one. */
  function DayLine(day: int, f: real): real
    requires day >= LEAP_ERA
  {
    day as real + f * ((AU_DAYSEC + (DayOffset(day + 1) - DayOffset(day))) / AU_DAYSEC) + DayOffset(day) / AU_DAYSEC
  }

  lemma OffsetOnDay(day: int, mjd: real, fd: real)
    requires day >= LEAP_ERA && mjd.Floor == day
    ensures MonthIndex(Mjd2Cal(mjd).0) >= RowMonth(0) && DeltaAT(Mjd2Cal(mjd).0, fd) == DayOffset(day)
    ensures DayNumber(Mjd2Cal(mjd).0) == day
  {
    hide DateOf, EntryFrom, Mjd2Cal, DayNumber, FMod1;
    JulianDayNumber(mjd);
    Mjd2CalWhole(mjd);
    TableCovers(mjd);
    DayDate(day);
    EntryInRange(day);
  }

  lemma ScaleIsLine(day: int, f: real)
    requires day >= LEAP_ERA && 0.0 <= f < 1.0
    ensures UTC2TAI(day as real + f) == DayLine(day, f)
  {
    hide Mjd2Cal, DeltaAT, DayOffset, DayNumber;
    var mjd := day as real + f;
    FloorIs(mjd, day);
    FractionBelow(mjd);
    OffsetOnDay(day, mjd, 0.0);
    OffsetOnDay(day, mjd, 0.5);
    FloorIs(mjd - f + 1.5, day + 1);
    OffsetOnDay(day + 1, mjd - f + 1.5, 0.0);
  }

  // ---- leap seconds

  /** From 1972 on every row comes later than the one before and adds one second. */
  lemma RowStep(i: int)
    requires NERA1 <= i < NDAT - 1
    ensures RowMonth(i) < RowMonth(i + 1) && TableRow(i + 1).delat == TableRow(i).delat + 1.0
  {
  }

  lemma {:induction false} OffsetOfRow(i: int)
    requires NERA1 <= i < NDAT
    ensures TableRow(i).delat == 10.0 + (i - NERA1) as real
  {
    hide TableRow;
    if i > NERA1 {
      RowStep(i - 1);
      OffsetOfRow(i - 1);
    } else {
      FirstOffset();
    }
  }

  lemma FirstOffset()
    ensures TableRow(NERA1).delat == 10.0
  {
  }

  /** The day on which row i comes into force. */
  function FirstDay(i: int): int
    requires NERA1 <= i < NDAT
  {
    DayNumber(Date(TableRow(i).iyear, TableRow(i).month, 1))
  }

  lemma RowDateValid(i: int)
    requires NERA1 <= i < NDAT
    ensures ValidDate(Date(TableRow(i).iyear, TableRow(i).month, 1))
  {
  }

  /** A month has been reached exactly when its first day has. */
  lemma MonthReached(d: Date, e: Date)
    requires ValidDate(d) && ValidDate(e) && e.id == 1
    ensures MonthIndex(d) >= MonthIndex(e) <==> DayNumber(d) >= DayNumber(e)
  {
    hide DayNumber, LeapDay;
    if MonthIndex(d) < MonthIndex(e) {
      MonthOrder(d, e);
    } else if MonthIndex(d) > MonthIndex(e) {
      MonthOrder(e, d);
    } else {
      SameMonth(d, e);
      DayNumberParts(d);
      DayNumberParts(e);
    }
  }

  /** Row i is in force or past on a day exactly when that day is not before its first. */
  lemma EntryByDay(day: int, i: int)
    requires day >= LEAP_ERA && NERA1 <= i < NDAT
    ensures i <= DayEntry(day) <==> FirstDay(i) <= day
  {
    hide DateOf, DayNumber, Entry, TableRow, MonthIndex, ValidDate;
    var d := DateOf(day + 2400001);
    DayDate(day);
    RowDateValid(i);
    MonthReached(d, Date(TableRow(i).iyear, TableRow(i).month, 1));
    RowReached(MonthIndex(d), i);
  }

  lemma RowReached(m: int, i: int)
    requires NERA1 <= i < NDAT && m >= RowMonth(NERA1)
    ensures i <= Entry(m) <==> RowMonth(i) <= m
  {
    hide RowMonth, EntryFrom;
    EntryReaches(m, NDAT - 1, NERA1);
    FirstRowEarliest();
    EntryRange(m, NDAT - 1);
    if RowMonth(i) <= m {
      EntryReaches(m, NDAT - 1, i);
    } else if i <= Entry(m) {
      RowsOrdered(i, Entry(m));
    }
  }

  lemma FirstRowEarliest()
    ensures RowMonth(0) <= RowMonth(NERA1)
  {
  }

  lemma {:induction false} RowsOrdered(i: int, j: int)
    requires NERA1 <= i <= j < NDAT
    ensures RowMonth(i) <= RowMonth(j)
    decreases j - i
  {
    hide RowMonth;
    if i < j {
      RowStep(j - 1);
      RowsOrdered(i, j - 1);
    }
  }

  /** Rows before row i that come into force after day a, but not after day b. */
  function RowsBetween(a: int, b: int, i: int): nat
    requires NERA1 <= i <= NDAT
    decreases i
  {
    if i == NERA1 then 0
    else RowsBetween(a, b, i - 1) + if a < FirstDay(i - 1) <= b then 1 else 0
  }

  /** How many leap seconds are inserted at the midnights after day a, up to the one that starts day b. */
  function LeapSeconds(a: int, b: int): nat
  {
    RowsBetween(a, b, NDAT)
  }

  lemma {:induction false} RowsCounted(a: int, b: int, i: int)
    requires LEAP_ERA <= a <= b && NERA1 <= i <= NDAT
    ensures DayEntry(a) <= DayEntry(b)
    ensures RowsBetween(a, b, i) ==
      if i <= DayEntry(a) then 0 else if i <= DayEntry(b) then i - 1 - DayEntry(a) else DayEntry(b) - DayEntry(a)
    decreases i
  {
    hide DayEntry, FirstDay;
    EntryInRange(a);
    EntryInRange(b);
    EntryByDay(a, DayEntry(a));
    EntryByDay(b, DayEntry(a));
    if i > NERA1 {
      RowsCounted(a, b, i - 1);
      EntryByDay(a, i - 1);
      EntryByDay(b, i - 1);
    }
  }

  lemma LeapSecondRows(a: int, b: int)
    requires LEAP_ERA <= a <= b
    ensures LeapSeconds(a, b) == DayEntry(b) - DayEntry(a)
  {
    hide DayEntry, FirstDay;
    EntryInRange(b);
    RowsCounted(a, b, NDAT);
  }

  /** TAI elapsed between two midnights: the days, and the leap seconds inserted between them. */
  lemma TaiBetweenMidnights(a: int, b: int)
    requires LEAP_ERA <= a <= b
    ensures UTC2TAI(b as real) - UTC2TAI(a as real) == (b - a) as real + LeapSeconds(a, b) as real / AU_DAYSEC
  {
    hide UTC2TAI, TableRow, DayEntry, LeapSeconds;
    ScaleIsLine(a, 0.0);
    ScaleIsLine(b, 0.0);
    LeapSecondRows(a, b);
    EntryInRange(a);
    EntryInRange(b);
    OffsetOfRow(DayEntry(a));
    OffsetOfRow(DayEntry(b));
  }

  /** The line of each day ends where that of the next begins. */
  lemma MidnightMeets(day: int)
    requires day >= LEAP_ERA
    ensures DayLine(day, 1.0) == UTC2TAI((day + 1) as real)
  {
    hide UTC2TAI, DayOffset;
    ScaleIsLine(day + 1, 0.0);
  }

  /** A day is 86400 or 86401 seconds long. */
  lemma DayLength(day: int)
    requires day >= LEAP_ERA
    ensures DayOffset(day + 1) == DayOffset(day) + LeapSeconds(day, day + 1) as real
    ensures LeapSeconds(day, day + 1) <= 1
  {
    hide UTC2TAI, TableRow, DayEntry, FirstDay;
    LeapSecondRows(day, day + 1);
    EntryInRange(day);
    EntryInRange(day + 1);
    OffsetOfRow(DayEntry(day));
    OffsetOfRow(DayEntry(day + 1));
    if DayEntry(day) + 2 <= DayEntry(day + 1) {
      EntryByDay(day, DayEntry(day) + 1);
      EntryByDay(day + 1, DayEntry(day) + 2);
      FirstDaysApart(DayEntry(day) + 1);
    }
  }

  lemma FirstDaysApart(i: int)
    requires NERA1 <= i < NDAT - 1
    ensures FirstDay(i) < FirstDay(i + 1)
  {
    hide DayNumber, TableRow;
    RowStep(i);
    RowDateValid(i);
    RowDateValid(i + 1);
    MonthOrder(Date(TableRow(i).iyear, TableRow(i).month, 1), Date(TableRow(i + 1).iyear, TableRow(i + 1).month, 1));
  }

  lemma LineRises(day: int, f: real, g: real)
    requires day >= LEAP_ERA && f < g
    ensures DayLine(day, f) < DayLine(day, g)
  {
    hide DayOffset, LeapSeconds;
    DayLength(day);
    var s := (AU_DAYSEC + (DayOffset(day + 1) - DayOffset(day))) / AU_DAYSEC;
    assert s > 0.0;
    assert (g - f) * s > 0.0;
  }

  lemma MidnightsRise(a: int, b: int)
    requires LEAP_ERA <= a <= b
    ensures UTC2TAI(a as real) <= UTC2TAI(b as real)
  {
    hide UTC2TAI, LeapSeconds;
    TaiBetweenMidnights(a, b);
  }

  /** The scale is strictly increasing from 1972 on. */
  lemma ScaleRises(u: real, v: real)
    requires LEAP_ERA as real <= u < v
    ensures UTC2TAI(u) < UTC2TAI(v)
  {
    hide UTC2TAI, DayLine;
    var a, b := u.Floor, v.Floor;
    ScaleIsLine(a, u - a as real);
    ScaleIsLine(b, v - b as real);
    if a == b {
      LineRises(a, u - a as real, v - b as real);
    } else {
      LineRises(a, u - a as real, 1.0);
      MidnightMeets(a);
      MidnightsRise(a + 1, b);
      ScaleIsLine(b, 0.0);
      if v > b as real {
        LineRises(b, 0.0, v - b as real);
      }
    }
  }

  // ---- fixed points

  /** The leap second era begins ten seconds apart, and the table ends with 37 seconds on 2017-01-01. */
  lemma FixedPoints(day: int)
    ensures UTC2TAI(41317.0) == 41317.0 + 10.0 / 86400.0
    ensures day >= 57754 ==> UTC2TAI(day as real) == day as real + 37.0 / 86400.0
  {
    hide UTC2TAI, DayEntry, TableRow;
    ScaleIsLine(LEAP_ERA, 0.0);
    FirstDays(NERA1 + 1);
    FirstDays(NDAT - 1);
    EntryInRange(LEAP_ERA);
    EntryByDay(LEAP_ERA, NERA1 + 1);
    OffsetOfRow(NERA1);
    if day >= 57754 {
      ScaleIsLine(day, 0.0);
      EntryInRange(day);
      EntryByDay(day, NDAT - 1);
      OffsetOfRow(NDAT - 1);
    }
  }

  /** The days that begin after a leap second, as Modified Julian Days. */
  const LEAP_DAYS: seq<int> := [
    41499, 41683, 42048, 42413, 42778, 43144, 43509, 43874, 44239, 44786, 45151, 45516, 46247, 47161,
    47892, 48257, 48804, 49169, 49534, 50083, 50630, 51179, 53736, 54832, 56109, 57204, 57754]

  /** January and July first of a year from 1901 to 2099. */
  function HalfYear(iy: int, im: int): int
  {
    365 * (iy - 1901) + (iy - 1901) / 4 + 15385 + if im == 1 then 0 else if iy % 4 == 0 then 182 else 181
  }

  lemma Quarters(n: int)
    requires n >= 0
    ensures TruncDiv(1461 * n, 4) == 365 * n + n / 4
  {
  }

  lemma Centuries(n: int)
    requires 6800 <= n < 7000
    ensures TruncDiv(3 * TruncDiv(n, 100), 4) == 51
  {
    assert n / 100 == 68 || n / 100 == 69;
  }

  lemma DayByFormula(d: Date)
    requires 1901 <= d.iy <= 2099 && (d.im == 1 || d.im == 7) && d.id == 1
    ensures DayNumber(d) == HalfYear(d.iy, d.im)
  {
    hide TruncDiv;
    SmallQuotients();
    if d.im == 1 {
      Quarters(d.iy + 4799);
      Centuries(d.iy + 4899);
    } else {
      Quarters(d.iy + 4800);
      Centuries(d.iy + 4900);
    }
  }

  lemma SmallQuotients()
    ensures TruncDiv(-13, 12) == -1 && TruncDiv(-7, 12) == 0 && TruncDiv(4037, 12) == 336 && TruncDiv(1835, 12) == 152
  {
  }

  lemma FirstDays(i: int)
    requires NERA1 < i < NDAT
    ensures |LEAP_DAYS| == NDAT - NERA1 - 1 && FirstDay(i) == LEAP_DAYS[i - NERA1 - 1]
  {
    hide DayNumber, TableRow, HalfYear, LEAP_DAYS;
    RowHalfYear(i);
    ListedDay(i);
    DayByFormula(Date(TableRow(i).iyear, TableRow(i).month, 1));
  }

  lemma RowHalfYear(i: int)
    requires NERA1 < i < NDAT
    ensures 1901 <= TableRow(i).iyear <= 2099 && (TableRow(i).month == 1 || TableRow(i).month == 7)
  {
  }

  lemma ListedDay(i: int)
    requires NERA1 < i < NDAT
    ensures |LEAP_DAYS| == NDAT - NERA1 - 1
    ensures HalfYear(TableRow(i).iyear, TableRow(i).month) == LEAP_DAYS[i - NERA1 - 1]
  {
  }

  /** A leap second has been inserted just before day b exactly when some row comes into force on it. */
  lemma LeapSecondRow(b: int)
    requires b > LEAP_ERA
    ensures LeapSeconds(b - 1, b) == if exists i :: NERA1 < i < NDAT && FirstDay(i) == b then 1 else 0
  {
    hide DayEntry, FirstDay, LeapSeconds;
    LeapSecondRows(b - 1, b);
    DayLength(b - 1);
    EntryInRange(b - 1);
    EntryInRange(b);
    EntryByDay(b, DayEntry(b));
    EntryByDay(b - 1, DayEntry(b));
    if i :| NERA1 < i < NDAT && FirstDay(i) == b {
      EntryByDay(b, i);
      EntryByDay(b - 1, i);
    }
  }

  /** So the leap seconds are those of the list, and there is none at any other midnight. */
  lemma LeapSecondDays(b: int)
    requires b > LEAP_ERA
    ensures LeapSeconds(b - 1, b) == if b in LEAP_DAYS then 1 else 0
  {
    hide FirstDay, LeapSeconds, LEAP_DAYS;
    FirstDays(NERA1 + 1);
    LeapSecondRow(b);
    if i :| NERA1 < i < NDAT && FirstDay(i) == b {
      FirstDays(i);
    }
    if k :| 0 <= k < |LEAP_DAYS| && LEAP_DAYS[k] == b {
      FirstDays(k + NERA1 + 1);
    }
  }

  /** Before 1972 the fraction of the day is counted twice: the offset moves by two days' drift within one day,
      while from one midnight to the next of the same row it moves by one. */
  lemma DriftTwice(d: Date, e: Date, fd: real)
    requires MonthIndex(d) >= RowMonth(0) && Entry(MonthIndex(d)) < NERA1
    requires MonthIndex(e) >= RowMonth(0) && Entry(MonthIndex(e)) == Entry(MonthIndex(d))
    requires DayNumber(e) == DayNumber(d) + 1
    ensures DeltaAT(d, fd) - DeltaAT(d, 0.0) == 2.0 * fd * (DeltaAT(e, 0.0) - DeltaAT(d, 0.0))
  {
    hide RowMonth, TableRow, DriftRow, Entry, DayNumber;
    EntryRange(MonthIndex(d), NDAT - 1);
  }

  // ---- days before 1972

  lemma DateOn(mjd: real)
    requires mjd >= 36934.0
    ensures Mjd2Cal(mjd).0 == Mjd2Cal(mjd.Floor as real).0 && DayNumber(Mjd2Cal(mjd).0) == mjd.Floor
  {
    hide DateOf, DayNumber, Mjd2Cal, FMod1;
    JulianDayNumber(mjd);
    Mjd2CalWhole(mjd);
    JulianDayNumber(mjd.Floor as real);
    Mjd2CalWhole(mjd.Floor as real);
    DateOfNumber(mjd.Floor + 2400001);
  }

  /** TAI - UTC at the midnight that begins a day. */
  function MidnightOffset(day: int): real
    requires day >= 36934
  {
    TableCovers(day as real);
    DeltaAT(Mjd2Cal(day as real).0, 0.0)
  }

  /** The day and the next lie in the same row of the time before leap seconds. */
  ghost predicate Drifting(day: int)
  {
    day >= 36934 &&
    var i := Entry(MonthIndex(Mjd2Cal(day as real).0));
    i < NERA1 && Entry(MonthIndex(Mjd2Cal((day + 1) as real).0)) == i
  }

  /** The drift over the day, in days. */
  ghost function DayDrift(day: int): real
    requires day >= 36934
  {
    (MidnightOffset(day + 1) - MidnightOffset(day)) / 86400.0
  }

  /** In the course of such a day the drift is added twice and taken back once. */
  lemma EarlyDay(day: int, f: real)
    requires Drifting(day) && 0.0 <= f < 1.0
    ensures var u := DayDrift(day);
      UTC2TAI(day as real + f) == day as real + f * (1.0 - u) * (1.0 + 2.0 * u) + MidnightOffset(day) / 86400.0
  {
    hide Mjd2Cal, DeltaAT, DayNumber, Entry, MonthIndex, RowMonth;
    var mjd := day as real + f;
    FloorIs(mjd, day);
    FractionBelow(mjd);
    DateOn(mjd);
    FloorIs(mjd - f + 1.5, day + 1);
    DateOn(mjd - f + 1.5);
    DateOn(day as real);
    DateOn((day + 1) as real);
    TableCovers(day as real);
    TableCovers((day + 1) as real);
    var d, e := Mjd2Cal(day as real).0, Mjd2Cal((day + 1) as real).0;
    DriftTwice(d, e, 0.5);
    var r, u := MidnightOffset(day + 1) - MidnightOffset(day), DayDrift(day);
    assert (AU_DAYSEC - r) / AU_DAYSEC == 1.0 - u && (AU_DAYSEC + 2.0 * r) / AU_DAYSEC == 1.0 + 2.0 * u;
  }

  /** So the scale does not meet the next midnight: it arrives short of it by twice the square of the drift, and
      the drift is never zero. */
  lemma EarlyMidnight(day: int)
    requires Drifting(day)
    ensures var u := DayDrift(day);
      && UTC2TAI((day + 1) as real) - (day as real + (1.0 - u) * (1.0 + 2.0 * u) + MidnightOffset(day) / 86400.0)
         == 2.0 * (u * u)
      && u > 0.0
  {
    hide UTC2TAI;
    MidnightValue(day + 1);
    DriftPositive(day);
  }

  lemma MidnightValue(day: int)
    requires day >= 36934
    ensures UTC2TAI(day as real) == day as real + MidnightOffset(day) / 86400.0
  {
    hide Mjd2Cal, DeltaAT, DayNumber;
    FractionBelow(day as real);
    DateOn(day as real);
  }

  lemma DriftPositive(day: int)
    requires Drifting(day)
    ensures DayDrift(day) > 0.0
  {
    hide Mjd2Cal, DayNumber, Entry, MonthIndex, RowMonth, TableRow;
    DateOn(day as real);
    DateOn((day + 1) as real);
    TableCovers(day as real);
    TableCovers((day + 1) as real);
    EntryRange(MonthIndex(Mjd2Cal(day as real).0), NDAT - 1);
  }
}
