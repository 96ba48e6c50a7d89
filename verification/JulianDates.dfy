/** Days before the Gregorian reform: they get dates of the Julian calendar, which the day count does not know. */
module JulianDates {
  import opened Calendar

  /** Day 2299160, the last of the Julian calendar, is 4 October 1582; the next is 15 October. */
  function EarlyDate(jdn: int): Date
  {
    DateAt(jdn + 1524)
  }

  lemma EarlyWhole(mjd: real)
    requires 0 <= Trunc(mjd + AU_MJD0 + 0.5) < 2299161
    ensures Mjd2Cal(mjd) == (EarlyDate(Trunc(mjd + AU_MJD0 + 0.5)), FMod1(mjd))
  {
    hide MonthOf, MonthOffset, DaysBefore, YearOf, Trunc, FMod1;
    var B := Trunc(mjd + AU_MJD0 + 0.5) + 1524;
    var C := YearOf(B);
    RealYear(B);
    RealDays(C);
    DayRange(B);
    RealMonth(B - DaysBefore(C));
    RealOffset(MonthOf(B - DaysBefore(C)));
  }

  /** A day of the Julian calendar, in years that start in March. */
  lemma EarlyNumber(jdn: int)
    requires jdn >= 0
    ensures var d := EarlyDate(jdn);
      d.iy >= -4799 && 1 <= d.im <= 12 && DayNumber(d) == jdn - 2400001 + 38 - Centuries(MarchYear(d))
  {
    hide Quarters, Centuries, MonthStart, DayNumber, MonthOf, MonthOffset, DaysBefore;
    var B := jdn + 1524;
    var C := YearOf(B);
    DayRange(B);
    MonthTable(B - DaysBefore(C));
    QuartersMatch(C);
    DayNumberParts(EarlyDate(jdn));
    YearPositive(B);
  }

  lemma YearPositive(B: int)
    requires B >= 123
    ensures YearOf(B) >= 0
  {
  }

  lemma CenturiesAre(y: int)
    ensures Centuries(y) == 38 <==> 200 <= y < 300
    ensures Centuries(y) == 37 <==> 100 <= y < 200
  {
    var h := (y + 4900) / 100;
    assert Centuries(y) == 3 * h / 4;
    assert 3 * h / 4 == 38 <==> h == 51;
    assert 3 * h / 4 == 37 <==> h == 50;
  }

  /** From Julian day 0 up to the reform the round trip through a date holds exactly for whole days of the years from
      March 200 to February 300, where both calendars agree, and, because the fraction of a day comes out negative, for
      days with a fraction of the years from March 100 to February 200, where they differ by one day. */
  lemma EarlyRoundTrip(mjd: real)
    requires -2400001.0 <= mjd < (2299161 - 2400001) as real
    ensures var (d, fd) := Mjd2Cal(mjd); var y := if d.im <= 2 then d.iy - 1 else d.iy;
      ModifiedJulianDay(d, fd) == mjd <==> if mjd.Floor as real == mjd then 200 <= y < 300 else 100 <= y < 200
  {
    hide EarlyDate, DayNumber, Mjd2Cal, Trunc, FMod1, Centuries;
    var jdn := mjd.Floor + 2400001;
    JulianDayNumber(mjd);
    EarlyWhole(mjd);
    EarlyNumber(jdn);
    CenturiesAre(MarchYear(EarlyDate(jdn)));
  }

  lemma ReformDates()
    ensures EarlyDate(2299160) == Date(1582, 10, 4) && DateOf(2299161) == Date(1582, 10, 15)
  {
    hide YearOf, DaysBefore, MonthOf, MonthOffset;
    assert Shifted(2299161) == 2300695;
    DateParts(2300684, 6298, 340, 11, 336);
    DateParts(2300695, 6298, 351, 11, 336);
  }

  lemma DateParts(B: int, C: int, F: int, E: int, offset: int)
    requires 7305 * C <= 20 * B - 2442 < 7305 * (C + 1) && 4 * (B - F) <= 1461 * C < 4 * (B - F + 1)
    requires 306000001 * E <= 10000000 * F < 306000001 * (E + 1)
    requires 10000000 * offset <= 306000001 * E < 10000000 * (offset + 1)
    ensures YearOf(B) == C && DaysBefore(C) == B - F && MonthOf(F) == E && MonthOffset(E) == offset
  {
  }

  lemma ReformNumbers()
    ensures DayNumber(Date(1582, 10, 4)) == -100851 && DayNumber(Date(1582, 10, 15)) == -100840
  {
    DayNumberParts(Date(1582, 10, 4));
    DayNumberParts(Date(1582, 10, 15));
  }

  /** The reform: 15 October 1582 follows 4 October, and only the later of the two days comes back. */
  lemma Reform()
    ensures Mjd2Cal(-100841.0).0 == Date(1582, 10, 4) && ModifiedJulianDay(Date(1582, 10, 4), 0.0) == -100851.0
    ensures Mjd2Cal(-100840.0).0 == Date(1582, 10, 15) && ModifiedJulianDay(Date(1582, 10, 15), 0.0) == -100840.0
  {
    hide EarlyDate, DateOf, DayNumber, Mjd2Cal, Trunc, FMod1;
    ReformDates();
    ReformNumbers();
    JulianDayNumber(-100841.0);
    EarlyWhole(-100841.0);
    JulianDayNumber(-100840.0);
    Mjd2CalWhole(-100840.0);
  }
}
