/** The memo table of ATimeSpace: every cached getter agrees with evaluation from scratch. */
module Almanac {
  import opened Calendar
  import opened TimeScale

  const AU_MJD2K: real := 51544.5
  const AU_D2R: real := 0.01745329251994329576923691
  const AU_2PI: real := 6.283185307179586476925287

  /** A position: distance, right ascension, declination. */
  datatype Place = Place(r: real, ra: real, dec: real)

  /** The series and the trigonometric functions, whose values are of no concern here. */
  datatype Series = Series(
    sin: real -> real, cos: real -> real,
    meanObliquity: real -> real,
    meanAnomalySun: real -> real,
    meanAnomalyMoon: real -> real,
    meanElongationMoonSun: real -> real,
    meanLongAscNodeMoon: real -> real,
    relLongMoon: real -> real,
    meanLongSun: real -> real,
    eccentricityEarth: real -> real,
    perihelionLongEarth: real -> real,
    nutation: (real, real, real, real, real, real) -> (real, real),
    sun: real -> Place,
    moon: (real, real, real, real) -> Place,
    parallax: (real, real, Place) -> Place)

  function CycMod(x: real, t: real): real
    requires t > 0.0
  {
    x - (x / t).Floor as real * t
  }

  /** Mean sidereal time at Greenwich in degrees, not reduced. */
  function MeanSidereal(t: real): real
  {
    280.46061837 + t * (13185000.77005374225 + t * (0.000387933 - t / 38710000.0))
  }

  /** TAI - UTC at a day from 1960 on. */
  function OffsetAt(mjd: real): real
    requires mjd >= 36934.0
  {
    TableCovers(mjd);
    DeltaAT(Mjd2Cal(mjd).0, Mjd2Cal(mjd).1)
  }

  /** Everything the getters depend on; its functions evaluate without any cache. */
  datatype Moment = Moment(series: Series, lgt: real, lat: real, mjd: real, dat: real)
  {
    function JulianCentury(): real { (mjd - AU_MJD2K) / 36525.0 }
    function JulianDay(): real { mjd + AU_MJD0 }
    function TAI(): real { mjd + dat / AU_DAYSEC }

    function GreenwichMeanSiderealTime(): real
    {
      CycMod(MeanSidereal(JulianCentury()), 360.0) * AU_D2R
    }

    function MeanAnomalySun(): real { series.meanAnomalySun(JulianCentury()) }
    function MeanAnomalyMoon(): real { series.meanAnomalyMoon(JulianCentury()) }
    function MeanElongationMoonSun(): real { series.meanElongationMoonSun(JulianCentury()) }
    function MeanLongAscNodeMoon(): real { series.meanLongAscNodeMoon(JulianCentury()) }
    function RelLongMoon(): real { series.relLongMoon(JulianCentury()) }
    function MeanLongSun(): real { series.meanLongSun(JulianCentury()) }
    function EccentricityEarth(): real { series.eccentricityEarth(JulianCentury()) }
    function PerihelionLongEarth(): real { series.perihelionLongEarth(JulianCentury()) }

    /** The nutation series, in time and its five arguments. */
    function Nutation(): (real, real)
    {
      series.nutation(JulianCentury(), MeanAnomalyMoon(), MeanAnomalySun(), RelLongMoon(),
                      MeanElongationMoonSun(), MeanLongAscNodeMoon())
    }

    function NutationLongitude(): real { Nutation().0 }
    function NutationObliquity(): real { Nutation().1 }
    function MeanObliquity(): real { series.meanObliquity(JulianCentury()) }
    function TrueObliquity(): real { MeanObliquity() + NutationObliquity() }

    function GreenwichSiderealTime(): real
    {
      GreenwichMeanSiderealTime() + NutationLongitude() * series.cos(TrueObliquity())
    }

    function LocalMeanSiderealTime(): real { CycMod(GreenwichMeanSiderealTime() + lgt, AU_2PI) }
    function LocalSiderealTime(): real { CycMod(GreenwichSiderealTime() + lgt, AU_2PI) }

    function CenterSun(): real
    {
      var t, ma := JulianCentury(), MeanAnomalySun();
      ((1.914602 - (0.004817 + 0.000014 * t) * t) * series.sin(ma)
       + (0.019993 - 0.000101 * t) * series.sin(2.0 * ma) + 0.000289 * series.sin(3.0 * ma)) * AU_D2R
    }

    function TrueLongSun(): real { MeanLongSun() + CenterSun() }
    function TrueAnomalySun(): real { MeanAnomalySun() + CenterSun() }
    function SunPosition(): Place { series.sun(JulianCentury()) }
    function MoonPosition(): Place { series.moon(mjd, TrueObliquity(), MeanLongSun(), MeanAnomalySun()) }
    function MoonTopo(): Place { series.parallax(lat, LocalMeanSiderealTime(), MoonPosition()) }
  }

  // slots of the table
  const MJD: int := 0
  const JD: int := 1
  const TAI: int := 2
  const DAT: int := 3
  const JC: int := 4
  const GMST: int := 5
  const GST: int := 6
  const LMST: int := 7
  const LST: int := 8
  const MO: int := 9
  const NL: int := 10
  const NO: int := 11
  const MASUN: int := 12
  const MAMOON: int := 13
  const MELONG_MOON_SUN: int := 14
  const MLAN_MOON: int := 15
  const RLONG_MOON: int := 16
  const ML_SUN: int := 17
  const CENTER_SUN: int := 18
  const TL_SUN: int := 19
  const TA_SUN: int := 20
  const ECCENTRICITY_EARTH: int := 21
  const PL_EARTH: int := 22
  const POSITION_SUN: int := 23
  const POSITION_MOON: int := 26
  const POSITION_MOON_TOPO: int := 30
  const END: int := 34

  /** The value kept in a slot of its own. */
  ghost function Uncached(m: Moment, s: int): real
  {
    if s == JD then m.JulianDay() else if s == TAI then m.TAI() else if s == JC then m.JulianCentury()
    else if s == GMST then m.GreenwichMeanSiderealTime() else if s == GST then m.GreenwichSiderealTime()
    else if s == LMST then m.LocalMeanSiderealTime() else if s == LST then m.LocalSiderealTime()
    else if s == MO then m.MeanObliquity() else if s == NL then m.NutationLongitude()
    else if s == NO then m.NutationObliquity() else if s == MASUN then m.MeanAnomalySun()
    else if s == MAMOON then m.MeanAnomalyMoon() else if s == MELONG_MOON_SUN then m.MeanElongationMoonSun()
    else if s == MLAN_MOON then m.MeanLongAscNodeMoon() else if s == RLONG_MOON then m.RelLongMoon()
    else if s == ECCENTRICITY_EARTH then m.EccentricityEarth() else if s == PL_EARTH then m.PerihelionLongEarth()
    else if s == ML_SUN then m.MeanLongSun() else if s == CENTER_SUN then m.CenterSun()
    else if s == TL_SUN then m.TrueLongSun() else m.TrueAnomalySun()
  }

  /** The slots that hold one value of their own, other than the two basic ones. */
  predicate Single(s: int)
  {
    (JD <= s <= TA_SUN && s != DAT) || s == ECCENTRICITY_EARTH || s == PL_EARTH
  }

  /** Only sidereal time at the site, and the Moon seen from there, depend on the site. */
  lemma SiteFree(m: Moment, lgt: real, lat: real, s: int)
    requires Single(s) && s != LMST && s != LST
    ensures Uncached(m.(lgt := lgt, lat := lat), s) == Uncached(m, s)
  {
  }

  /** The difference is a whole number of turns. */
  predicate WholeTurns(d: real, t: real)
    requires t > 0.0
  {
    (d / t).Floor as real == d / t
  }

  lemma SameRemainder(x: real, y: real, t: real)
    requires t > 0.0
    ensures CycMod(x, t) == CycMod(y, t) <==> WholeTurns(y - x, t)
  {
    hide CycMod;
    var a, b := x / t, y / t;
    TurnsLeft(x, t);
    TurnsLeft(y, t);
    SameFraction(a, b);
    Cancelled(a - a.Floor as real, b - b.Floor as real, t);
    TurnsBetween(x, y, t);
  }

  lemma SameFraction(a: real, b: real)
    ensures a - a.Floor as real == b - b.Floor as real <==> (b - a).Floor as real == b - a
  {
    if a - a.Floor as real == b - b.Floor as real {
      assert b - a == (b.Floor - a.Floor) as real;
    }
    if (b - a).Floor as real == b - a {
      assert b.Floor == a.Floor + (b - a).Floor;
    }
  }

  lemma Cancelled(u: real, v: real, t: real)
    requires t > 0.0
    ensures u * t == v * t <==> u == v
  {
    assert u * t - v * t == (u - v) * t;
  }

  lemma TurnsBetween(x: real, y: real, t: real)
    requires t > 0.0
    ensures (y - x) / t == y / t - x / t
  {
  }

  lemma TurnsLeft(x: real, t: real)
    requires t > 0.0
    ensures CycMod(x, t) == (x / t - (x / t).Floor as real) * t
  {
    assert x == x / t * t;
  }

  /** The local sidereal times are the same at another site exactly if its longitude differs by whole turns. */
  lemma SiteSlots(m: Moment, lgt: real, lat: real)
    ensures var n := m.(lgt := lgt, lat := lat);
      && (Uncached(n, LMST) == Uncached(m, LMST) <==> WholeTurns(lgt - m.lgt, AU_2PI))
      && (Uncached(n, LST) == Uncached(m, LST) <==> WholeTurns(lgt - m.lgt, AU_2PI))
  {
    hide CycMod, WholeTurns;
    var n := m.(lgt := lgt, lat := lat);
    var g, h := m.GreenwichMeanSiderealTime(), m.GreenwichSiderealTime();
    assert n.GreenwichSiderealTime() == h && n.GreenwichMeanSiderealTime() == g;
    SameRemainder(g + m.lgt, g + lgt, AU_2PI);
    SameRemainder(h + m.lgt, h + lgt, AU_2PI);
    assert g + lgt - (g + m.lgt) == lgt - m.lgt && h + lgt - (h + m.lgt) == lgt - m.lgt;
  }

  /** The local sidereal time of the overload that takes a time and a longitude: it is reduced before the nutation
      is added. */
  function LocalSiderealOverload(m: Moment): real
  {
    m.LocalMeanSiderealTime() + m.NutationLongitude() * m.series.cos(m.TrueObliquity())
  }

  lemma RemainderRange(x: real, t: real)
    requires t > 0.0
    ensures 0.0 <= CycMod(x, t) < t
    ensures CycMod(x, t) == x <==> 0.0 <= x < t
    ensures WholeTurns(x - CycMod(x, t), t)
  {
    RemainderTurns(x, t);
    RemainderInside(x, t);
    RemainderBelow(x, t);
  }

  lemma RemainderBelow(x: real, t: real)
    requires t > 0.0
    ensures 0.0 <= CycMod(x, t) < t
  {
    var n := (x / t).Floor;
    assert n as real <= x / t < n as real + 1.0;
    UnitScaled(x, t, n as real);
  }

  lemma UnitScaled(x: real, t: real, n: real)
    requires t > 0.0 && n <= x / t < n + 1.0
    ensures n * t <= x < n * t + t
  {
    var f := x / t - n;
    assert x == x / t * t;
    assert x == f * t + n * t;
    Below(f, t);
  }

  lemma RemainderTurns(x: real, t: real)
    requires t > 0.0
    ensures WholeTurns(x - CycMod(x, t), t)
  {
    hide WholeTurns;
    var n := (x / t).Floor;
    Whole(n, t);
    assert x - CycMod(x, t) == n as real * t;
  }

  lemma RemainderInside(x: real, t: real)
    requires 0.0 < t
    ensures 0.0 <= x < t ==> CycMod(x, t) == x
  {
    if 0.0 <= x < t {
      InUnit(x, t);
      assert (x / t).Floor == 0;
    }
  }

  lemma Below(f: real, t: real)
    requires 0.0 <= f < 1.0 && t > 0.0
    ensures 0.0 <= f * t < t
  {
  }

  lemma InUnit(x: real, t: real)
    requires 0.0 <= x < t
    ensures 0.0 <= x / t < 1.0
  {
  }

  lemma Whole(n: int, t: real)
    requires t > 0.0
    ensures WholeTurns(n as real * t, t)
  {
    assert n as real * t / t == n as real;
  }

  /** The cached local sidereal time and the overload differ by whole turns, and agree exactly when the overload,
      which does not reduce its sum again, stays within a turn. */
  lemma OverloadAgrees(m: Moment)
    ensures WholeTurns(LocalSiderealOverload(m) - m.LocalSiderealTime(), AU_2PI)
    ensures LocalSiderealOverload(m) == m.LocalSiderealTime() <==> 0.0 <= LocalSiderealOverload(m) < AU_2PI
  {
    hide CycMod, WholeTurns, Moment.GreenwichMeanSiderealTime, Moment.NutationLongitude, Moment.TrueObliquity;
    var g, n := m.GreenwichMeanSiderealTime() + m.lgt, m.NutationLongitude() * m.series.cos(m.TrueObliquity());
    var o := CycMod(g, AU_2PI) + n;
    RemainderRange(g, AU_2PI);
    SameRemainder(o, g + n, AU_2PI);
    assert g + n - o == g - CycMod(g, AU_2PI);
    assert m.GreenwichSiderealTime() + m.lgt == g + n;
    RemainderRange(o, AU_2PI);
  }

  // ---- the basic getters

  /** The offset stored with a date is that of its day. */
  lemma UtcOffset(d: Date, fd: real)
    requires ValidDate(d) && 0.0 <= fd < 1.0 && DayNumber(d) >= LEAP_ERA
    ensures var mjd := Calendar.ModifiedJulianDay(d, fd); mjd.Floor == DayNumber(d) && DeltaAT(d, fd) == OffsetAt(mjd)
    ensures CheckUTC(d, fd) == 0 && MonthIndex(d) >= RowMonth(0)
  {
    hide DayNumber, Mjd2Cal, RowMonth, Entry, LeapDay;
    FloorIs(Calendar.ModifiedJulianDay(d, fd), DayNumber(d));
    DateRoundTrip(d, fd);
    TableCovers(Calendar.ModifiedJulianDay(d, fd));
  }

  /** In the leap second era the getter falls behind the time scale by the part of the day's leap second that has
      passed: it agrees with it at every midnight, and within the day exactly when no leap second ends the day. */
  lemma TaiGetter(m: Moment, day: int, f: real)
    requires day >= LEAP_ERA && 0.0 <= f < 1.0 && m.mjd == day as real + f && m.dat == OffsetAt(m.mjd)
    ensures UTC2TAI(m.mjd) - m.TAI() == f * LeapSeconds(day, day + 1) as real / 86400.0
    ensures m.TAI() == UTC2TAI(m.mjd) <==> f == 0.0 || LeapSeconds(day, day + 1) == 0
  {
    hide UTC2TAI, DayOffset, DeltaAT, Mjd2Cal, DayNumber, LeapSeconds;
    FloorIs(m.mjd, day);
    OffsetOnDay(day, m.mjd, Mjd2Cal(m.mjd).1);
    ScaleIsLine(day, f);
    DayLength(day);
    var n := LeapSeconds(day, day + 1);
    assert n == 0 || n == 1;
  }

  /** At the midnight that begins a day from 1972 on. */
  lemma TaiAtMidnight(m: Moment, day: int)
    requires day >= 41317 && m.mjd == day as real && m.dat == OffsetAt(m.mjd)
    ensures m.TAI() == UTC2TAI(day as real)
  {
    hide UTC2TAI, LeapSeconds, OffsetAt, Moment.TAI;
    TaiGetter(m, day, 0.0);
  }

  /** So for every date from 1972 on that is accepted: TAI is right at midnight and on days without a leap second. */
  lemma TaiAfterDate(m: Moment, d: Date, fd: real)
    requires CheckUTC(d, fd) == 0 && DayNumber(d) >= 41317
    ensures Allowed(SetUTC(d, fd))
    ensures var n, day := After(m, SetUTC(d, fd)), DayNumber(d);
      n.TAI() == UTC2TAI(n.mjd) <==> fd == 0.0 || LeapSeconds(day, day + 1) == 0
  {
    hide UTC2TAI, LeapSeconds, Moment.TAI, DeltaAT, DayNumber, Mjd2Cal, OffsetAt, LeapDay;
    UtcOffset(d, fd);
    TaiGetter(After(m, SetUTC(d, fd)), DayNumber(d), fd);
  }

  /** Sidereal time counts from Julian day 2451545, a little more than a turn a day. */
  lemma SiderealByDay(m: Moment)
    ensures var t := (m.JulianDay() - 2451545.0) / 36525.0;
      && t == m.JulianCentury()
      && MeanSidereal(m.JulianCentury()) == 280.46061837 + 360.98564736629 * (m.JulianDay() - 2451545.0)
         + 0.000387933 * Square(t) - Square(t) * t / 38710000.0
  {
    var t := m.JulianCentury();
    assert 360.98564736629 * (36525.0 * t) == 13185000.77005374225 * t;
    assert m.JulianDay() - 2451545.0 == 36525.0 * t;
    Expanded(t);
  }

  function Square(t: real): real
  {
    t * t
  }

  lemma Expanded(t: real)
    ensures MeanSidereal(t)
      == 280.46061837 + 13185000.77005374225 * t + 0.000387933 * Square(t) - Square(t) * t / 38710000.0
  {
    var a, b := 0.000387933, t / 38710000.0;
    assert t * (t * (a - b)) == (t * t) * a - (t * t) * b;
    assert (t * t) * b == (t * t) * t / 38710000.0;
  }

  /** Apparent sidereal time differs from mean by the nutation in longitude, projected by the true obliquity; the
      true longitude and anomaly of the Sun differ from the mean ones by the same equation of the centre. */
  lemma Reductions(m: Moment)
    ensures m.GreenwichSiderealTime() - m.GreenwichMeanSiderealTime()
      == m.Nutation().0 * m.series.cos(m.MeanObliquity() + m.Nutation().1)
    ensures m.TrueLongSun() - m.MeanLongSun() == m.TrueAnomalySun() - m.MeanAnomalySun() == m.CenterSun()
  {
    hide CycMod, MeanSidereal, Moment.CenterSun, Moment.Nutation;
  }

  /** What reaches the series in the end: the century, the five arguments at that century, and the corrected
      obliquity. */
  lemma SeriesArguments(m: Moment)
    ensures var t, f := (m.mjd - 51544.5) / 36525.0, m.series;
      var (nl, no) := f.nutation(t, f.meanAnomalyMoon(t), f.meanAnomalySun(t), f.relLongMoon(t),
                                 f.meanElongationMoonSun(t), f.meanLongAscNodeMoon(t));
      && m.NutationLongitude() == nl && m.TrueObliquity() == f.meanObliquity(t) + no && m.SunPosition() == f.sun(t)
      && m.MoonPosition() == f.moon(m.mjd, f.meanObliquity(t) + no, f.meanLongSun(t), f.meanAnomalySun(t))
      && m.MoonTopo() == f.parallax(m.lat, m.LocalMeanSiderealTime(), m.MoonPosition())
  {
    hide Moment.LocalMeanSiderealTime;
  }

  /** The equation of the centre in degrees, written out in powers of the time. */
  lemma CentreExpanded(m: Moment)
    ensures var t, ma := m.JulianCentury(), m.MeanAnomalySun();
      m.CenterSun() == ((1.914602 - 0.004817 * t - 0.000014 * Square(t)) * m.series.sin(ma)
                        + (0.019993 - 0.000101 * t) * m.series.sin(2.0 * ma)
                        + 0.000289 * m.series.sin(3.0 * ma)) * AU_D2R
  {
    hide Moment.JulianCentury, Moment.MeanAnomalySun;
    var t := m.JulianCentury();
    assert (0.004817 + 0.000014 * t) * t == 0.004817 * t + 0.000014 * Square(t);
  }

  /** Local mean sidereal time is that of Greenwich and the longitude, up to whole turns. */
  lemma LocalIsGreenwich(m: Moment)
    ensures WholeTurns(m.GreenwichMeanSiderealTime() + m.lgt - m.LocalMeanSiderealTime(), AU_2PI)
    ensures WholeTurns(m.GreenwichSiderealTime() + m.lgt - m.LocalSiderealTime(), AU_2PI)
    ensures 0.0 <= m.LocalMeanSiderealTime() < AU_2PI && 0.0 <= m.LocalSiderealTime() < AU_2PI
  {
    hide CycMod, WholeTurns, Moment.GreenwichMeanSiderealTime, Moment.GreenwichSiderealTime;
    RemainderRange(m.GreenwichMeanSiderealTime() + m.lgt, AU_2PI);
    RemainderRange(m.GreenwichSiderealTime() + m.lgt, AU_2PI);
  }

  lemma SiteBodies(m: Moment, lgt: real, lat: real)
    ensures var n := m.(lgt := lgt, lat := lat);
      n.SunPosition() == m.SunPosition() && n.MoonPosition() == m.MoonPosition()
  {
  }

  // ---- calls in any order

  datatype Call = SetUTC(d: Date, fd: real) | Value(slot: int) | TrueObliquity | Sun | Moon | MoonTopo

  datatype Answer = Code(code: int) | Number(v: real) | Sky(ra: real, dec: real) | At(p: Place)

  /** A date that is accepted lies in the leap-second table; a value is asked for by its slot. */
  ghost predicate Allowed(c: Call)
  {
    match c
    case SetUTC(d, fd) => CheckUTC(d, fd) == 0 ==> MonthIndex(d) >= RowMonth(0)
    case Value(slot) => Single(slot)
    case _ => true
  }

  ghost function After(m: Moment, c: Call): Moment
    requires Allowed(c)
  {
    if c.SetUTC? && CheckUTC(c.d, c.fd) == 0 then
      m.(mjd := Calendar.ModifiedJulianDay(c.d, c.fd), dat := DeltaAT(c.d, c.fd))
    else m
  }

  /** The answer by evaluation from scratch. */
  ghost function Answered(m: Moment, c: Call): Answer
  {
    match c
    case SetUTC(d, fd) => Code(CheckUTC(d, fd))
    case Value(slot) => Number(Uncached(m, slot))
    case TrueObliquity => Number(m.TrueObliquity())
    case Sun => Sky(m.SunPosition().ra, m.SunPosition().dec)
    case Moon => At(m.MoonPosition())
    case MoonTopo => At(m.MoonTopo())
  }

  ghost function MomentAfter(m: Moment, calls: seq<Call>): Moment
    requires forall i :: 0 <= i < |calls| ==> Allowed(calls[i])
  {
    if calls == [] then m else After(MomentAfter(m, calls[..|calls| - 1]), calls[|calls| - 1])
  }

  ghost function AllAnswered(m: Moment, calls: seq<Call>): (r: seq<Answer>)
    requires forall i :: 0 <= i < |calls| ==> Allowed(calls[i])
    ensures |r| == |calls|
  {
    if calls == [] then []
    else
      var n := |calls| - 1;
      AllAnswered(m, calls[..n]) + [Answered(MomentAfter(m, calls[..n]), calls[n])]
  }

  /** One session with a fresh object that begins with an accepted date: whatever the order of the calls, every
      answer is that of evaluation from scratch at the moment set last. marks tells the Moon's mark after each call:
      it is never set. */
  method Session(series: Series, longitude: real, latitude: real, calls: seq<Call>)
    returns (answers: seq<Answer>, ghost marks: seq<bool>)
    requires forall i :: 0 <= i < |calls| ==> Allowed(calls[i])
    requires calls != [] ==> calls[0].SetUTC? && CheckUTC(calls[0].d, calls[0].fd) == 0
    ensures answers == AllAnswered(Moment(series, longitude * AU_D2R, latitude * AU_D2R, 0.0, 0.0), calls)
    ensures |marks| == |calls| && true !in marks
  {
    hide Answered, After, Allowed;
    var ats := new ATimeSpace(series);
    ats.SetSite(longitude, latitude);
    answers, marks := [], [];
    ghost var m := ats.Now();
    for k := 0 to |calls|
      invariant ats.Agrees() && !ats.MoonMark() && |marks| == k && true !in marks
      invariant ats.Now() == MomentAfter(m, calls[..k]) && answers == AllAnswered(m, calls[..k])
    {
      assert calls[..k + 1][..k] == calls[..k];
      var a := ats.Do(calls[k]);
      answers, marks := answers + [a], marks + [ats.MoonMark()];
    }
    assert calls[..|calls|] == calls;
  }

  class ATimeSpace {
    const series: Series
    var lgt: real
    var lat: real
    const values: array<real>
    const valid: array<bool>

    constructor (series: Series)
      ensures this.series == series && fresh(values) && fresh(valid) && Sized() && Agrees()
      ensures forall s :: 0 <= s < END ==> !valid[s]
      ensures lgt == lat == values[MJD] == values[DAT] == 0.0
    {
      this.series := series;
      lgt, lat := 0.0, 0.0;
      values := new real[END](_ => 0.0);
      valid := new bool[END](_ => false);
    }

    ghost predicate Sized()
      reads this
    {
      values.Length == END == valid.Length
    }

    /** The moment the two basic slots and the site describe. */
    ghost function Now(): Moment
      reads this, values
      requires Sized()
    {
      Moment(series, lgt, lat, values[MJD], values[DAT])
    }

    /** The mark of the Moon's position. */
    ghost predicate MoonMark()
      reads this, valid
      requires valid.Length == END
    {
      valid[POSITION_MOON]
    }

    /** Every slot marked valid holds what evaluation from scratch gives. */
    ghost predicate Agrees()
      reads this, values, valid
      ensures Agrees() ==> Sized()
    {
      Sized() && values as object != valid &&
      var m := Now();
      && (forall s :: 0 <= s < END && Single(s) && valid[s] ==> values[s] == Uncached(m, s))
      && (valid[POSITION_SUN] ==>
            values[POSITION_SUN + 1] == m.SunPosition().ra && values[POSITION_SUN + 2] == m.SunPosition().dec)
      && (valid[POSITION_MOON] ==>
            Place(values[POSITION_MOON + 1], values[POSITION_MOON + 2], values[POSITION_MOON + 3]) == m.MoonPosition())
      && (valid[POSITION_MOON_TOPO] ==>
            Place(values[POSITION_MOON_TOPO + 1], values[POSITION_MOON_TOPO + 2], values[POSITION_MOON_TOPO + 3])
            == m.MoonTopo())
    }

    /** Stores the value of a slot and marks it. */
    method Keep(s: int, v: real)
      requires Agrees() && 0 <= s < END && Single(s) && v == Uncached(Now(), s)
      modifies values, valid
      ensures Agrees() && Now() == old(Now()) && MoonMark() == old(MoonMark()) && valid[s] && values[s] == v
      ensures forall t :: 0 <= t < END && old(valid[t]) ==> valid[t]
    {
      hide Moment.MoonTopo, Moment.MoonPosition, Moment.SunPosition;
      hide Uncached;
      values[s] := v;
      valid[s] := true;
    }

    method ModifiedJulianDay() returns (r: real)
      requires Agrees()
      ensures r == Now().mjd
    {
      r := values[MJD];
    }

    method JulianCentury() returns (r: real)
      requires Agrees()
      modifies values, valid
      ensures Agrees() && Now() == old(Now()) && MoonMark() == old(MoonMark()) && r == Now().JulianCentury()
    {
      if !valid[JC] {
        Keep(JC, (values[MJD] - AU_MJD2K) / 36525.0);
      }
      r := values[JC];
    }

    method JulianDay() returns (r: real)
      requires Agrees()
      modifies values, valid
      ensures Agrees() && Now() == old(Now()) && MoonMark() == old(MoonMark()) && r == Now().JulianDay()
    {
      if !valid[JD] {
        Keep(JD, values[MJD] + AU_MJD0);
      }
      r := values[JD];
    }

    method TaiDay() returns (r: real)
      requires Agrees()
      modifies values, valid
      ensures Agrees() && Now() == old(Now()) && MoonMark() == old(MoonMark()) && r == Now().TAI()
    {
      if !valid[TAI] {
        Keep(TAI, values[MJD] + values[DAT] / AU_DAYSEC);
      }
      r := values[TAI];
    }

    method GreenwichMeanSiderealTime() returns (r: real)
      requires Agrees()
      modifies values, valid
      ensures Agrees() && Now() == old(Now()) && MoonMark() == old(MoonMark()) && r == Now().GreenwichMeanSiderealTime()
    {
      if !valid[GMST] {
        var t := JulianCentury();
        Keep(GMST, CycMod(MeanSidereal(t), 360.0) * AU_D2R);
      }
      r := values[GMST];
    }

    method MeanAnomalyMoon() returns (r: real)
      requires Agrees()
      modifies values, valid
      ensures Agrees() && Now() == old(Now()) && MoonMark() == old(MoonMark()) && r == Now().MeanAnomalyMoon()
    {
      if !valid[MAMOON] {
        var t := JulianCentury();
        Keep(MAMOON, series.meanAnomalyMoon(t));
      }
      r := values[MAMOON];
    }

    method MeanElongationMoonSun() returns (r: real)
      requires Agrees()
      modifies values, valid
      ensures Agrees() && Now() == old(Now()) && MoonMark() == old(MoonMark()) && r == Now().MeanElongationMoonSun()
    {
      if !valid[MELONG_MOON_SUN] {
        var t := JulianCentury();
        Keep(MELONG_MOON_SUN, series.meanElongationMoonSun(t));
      }
      r := values[MELONG_MOON_SUN];
    }

    method MeanLongAscNodeMoon() returns (r: real)
      requires Agrees()
      modifies values, valid
      ensures Agrees() && Now() == old(Now()) && MoonMark() == old(MoonMark()) && r == Now().MeanLongAscNodeMoon()
    {
      if !valid[MLAN_MOON] {
        var t := JulianCentury();
        Keep(MLAN_MOON, series.meanLongAscNodeMoon(t));
      }
      r := values[MLAN_MOON];
    }

    method RelLongMoon() returns (r: real)
      requires Agrees()
      modifies values, valid
      ensures Agrees() && Now() == old(Now()) && MoonMark() == old(MoonMark()) && r == Now().RelLongMoon()
    {
      if !valid[RLONG_MOON] {
        var t := JulianCentury();
        Keep(RLONG_MOON, series.relLongMoon(t));
      }
      r := values[RLONG_MOON];
    }

    method EccentricityEarth() returns (r: real)
      requires Agrees()
      modifies values, valid
      ensures Agrees() && Now() == old(Now()) && MoonMark() == old(MoonMark()) && r == Now().EccentricityEarth()
    {
      if !valid[ECCENTRICITY_EARTH] {
        var t := JulianCentury();
        Keep(ECCENTRICITY_EARTH, series.eccentricityEarth(t));
      }
      r := values[ECCENTRICITY_EARTH];
    }

    method PerihelionLongEarth() returns (r: real)
      requires Agrees()
      modifies values, valid
      ensures Agrees() && Now() == old(Now()) && MoonMark() == old(MoonMark()) && r == Now().PerihelionLongEarth()
    {
      if !valid[PL_EARTH] {
        var t := JulianCentury();
        Keep(PL_EARTH, series.perihelionLongEarth(t));
      }
      r := values[PL_EARTH];
    }

    /** The series over the values of six other getters. */
    method Nutation() returns (nl: real, no: real)
      requires Agrees()
      modifies values, valid
      ensures Agrees() && Now() == old(Now()) && MoonMark() == old(MoonMark()) && (nl, no) == Now().Nutation()
    {
      var t := JulianCentury();
      var el := MeanAnomalyMoon();
      var elp := MeanAnomalySun();
      var f := RelLongMoon();
      var d := MeanElongationMoonSun();
      var om := MeanLongAscNodeMoon();
      var n := series.nutation(t, el, elp, f, d, om);
      nl, no := n.0, n.1;
    }

    /** One evaluation of the series fills both slots. */
    method NutationLongitude() returns (r: real)
      requires Agrees()
      modifies values, valid
      ensures Agrees() && Now() == old(Now()) && MoonMark() == old(MoonMark()) && r == Now().NutationLongitude()
    {
      if !valid[NL] {
        var nl, no := Nutation();
        Keep(NL, nl);
        Keep(NO, no);
      }
      r := values[NL];
    }

    method NutationObliquity() returns (r: real)
      requires Agrees()
      modifies values, valid
      ensures Agrees() && Now() == old(Now()) && MoonMark() == old(MoonMark()) && r == Now().NutationObliquity()
    {
      if !valid[NO] {
        var nl, no := Nutation();
        Keep(NO, no);
        Keep(NL, nl);
      }
      r := values[NO];
    }

    method MeanObliquity() returns (r: real)
      requires Agrees()
      modifies values, valid
      ensures Agrees() && Now() == old(Now()) && MoonMark() == old(MoonMark()) && r == Now().MeanObliquity()
    {
      if !valid[MO] {
        var t := JulianCentury();
        Keep(MO, series.meanObliquity(t));
      }
      r := values[MO];
    }

    method TrueObliquity() returns (r: real)
      requires Agrees()
      modifies values, valid
      ensures Agrees() && Now() == old(Now()) && MoonMark() == old(MoonMark()) && r == Now().TrueObliquity()
    {
      var mo := MeanObliquity();
      var no := NutationObliquity();
      r := mo + no;
    }

    method GreenwichSiderealTime() returns (r: real)
      requires Agrees()
      modifies values, valid
      ensures Agrees() && Now() == old(Now()) && MoonMark() == old(MoonMark()) && r == Now().GreenwichSiderealTime()
    {
      hide Moment.GreenwichMeanSiderealTime, Moment.NutationLongitude, Moment.TrueObliquity;
      if !valid[GST] {
        var gmst0 := GreenwichMeanSiderealTime();
        var nl := NutationLongitude();
        var to := TrueObliquity();
        Keep(GST, gmst0 + nl * series.cos(to));
      }
      r := values[GST];
    }

    method LocalMeanSiderealTime() returns (r: real)
      requires Agrees()
      modifies values, valid
      ensures Agrees() && Now() == old(Now()) && MoonMark() == old(MoonMark()) && r == Now().LocalMeanSiderealTime()
    {
      hide Moment.GreenwichMeanSiderealTime, CycMod;
      if !valid[LMST] {
        var g := GreenwichMeanSiderealTime();
        Keep(LMST, CycMod(g + lgt, AU_2PI));
      }
      r := values[LMST];
    }

    method LocalSiderealTime() returns (r: real)
      requires Agrees()
      modifies values, valid
      ensures Agrees() && Now() == old(Now()) && MoonMark() == old(MoonMark()) && r == Now().LocalSiderealTime()
    {
      hide Moment.GreenwichSiderealTime, CycMod;
      if !valid[LST] {
        var g := GreenwichSiderealTime();
        Keep(LST, CycMod(g + lgt, AU_2PI));
      }
      r := values[LST];
    }

    method MeanAnomalySun() returns (r: real)
      requires Agrees()
      modifies values, valid
      ensures Agrees() && Now() == old(Now()) && MoonMark() == old(MoonMark()) && r == Now().MeanAnomalySun()
    {
      if !valid[MASUN] {
        var t := JulianCentury();
        Keep(MASUN, series.meanAnomalySun(t));
      }
      r := values[MASUN];
    }

    method MeanLongSun() returns (r: real)
      requires Agrees()
      modifies values, valid
      ensures Agrees() && Now() == old(Now()) && MoonMark() == old(MoonMark()) && r == Now().MeanLongSun()
    {
      if !valid[ML_SUN] {
        var t := JulianCentury();
        Keep(ML_SUN, series.meanLongSun(t));
      }
      r := values[ML_SUN];
    }

    method CenterSun() returns (r: real)
      requires Agrees()
      modifies values, valid
      ensures Agrees() && Now() == old(Now()) && MoonMark() == old(MoonMark()) && r == Now().CenterSun()
    {
      if !valid[CENTER_SUN] {
        var t := JulianCentury();
        var ma := MeanAnomalySun();
        var c := (1.914602 - (0.004817 + 0.000014 * t) * t) * series.sin(ma)
                 + (0.019993 - 0.000101 * t) * series.sin(2.0 * ma) + 0.000289 * series.sin(3.0 * ma);
        Keep(CENTER_SUN, c * AU_D2R);
      }
      r := values[CENTER_SUN];
    }

    method TrueLongSun() returns (r: real)
      requires Agrees()
      modifies values, valid
      ensures Agrees() && Now() == old(Now()) && MoonMark() == old(MoonMark()) && r == Now().TrueLongSun()
    {
      if !valid[TL_SUN] {
        var ml := MeanLongSun();
        var c := CenterSun();
        Keep(TL_SUN, ml + c);
      }
      r := values[TL_SUN];
    }

    method TrueAnomalySun() returns (r: real)
      requires Agrees()
      modifies values, valid
      ensures Agrees() && Now() == old(Now()) && MoonMark() == old(MoonMark()) && r == Now().TrueAnomalySun()
    {
      if !valid[TA_SUN] {
        var ma := MeanAnomalySun();
        var c := CenterSun();
        Keep(TA_SUN, ma + c);
      }
      r := values[TA_SUN];
    }

    method SunPosition() returns (ra: real, dec: real)
      requires Agrees()
      modifies values, valid
      ensures Agrees() && Now() == old(Now()) && MoonMark() == old(MoonMark())
      ensures ra == Now().SunPosition().ra && dec == Now().SunPosition().dec
    {
      if !valid[POSITION_SUN] {
        var t := JulianCentury();
        var p := series.sun(t);
        ra, dec := p.ra, p.dec;
        hide Uncached;
        values[POSITION_SUN + 1] := ra;
        values[POSITION_SUN + 2] := dec;
        valid[POSITION_SUN] := true;
      } else {
        ra, dec := values[POSITION_SUN + 1], values[POSITION_SUN + 2];
      }
    }

    /** The flag goes into the value table instead of the validity table: the slot does not become valid. */
    method StoreMoon(p: Place)
      requires Agrees() && !MoonMark()
      modifies values
      ensures Agrees() && Now() == old(Now())
      ensures values[POSITION_MOON..POSITION_MOON_TOPO] == [1.0, p.r, p.ra, p.dec]
    {
      hide Uncached, Moment.MoonTopo, Moment.MoonPosition, Moment.SunPosition;
      values[POSITION_MOON + 1] := p.r;
      values[POSITION_MOON + 2] := p.ra;
      values[POSITION_MOON + 3] := p.dec;
      values[POSITION_MOON] := 1.0;
    }

    method MoonPosition() returns (p: Place)
      requires Agrees()
      modifies values, valid
      ensures Agrees() && Now() == old(Now()) && MoonMark() == old(MoonMark()) && p == Now().MoonPosition()
    {
      hide Moment.TrueObliquity, Moment.MeanLongSun, Moment.MeanAnomalySun, Uncached;
      if !valid[POSITION_MOON] {
        hide Agrees;
        var eo := TrueObliquity();
        var ls := MeanLongSun();
        var ms := MeanAnomalySun();
        p := series.moon(values[MJD], eo, ls, ms);
        StoreMoon(p);
      } else {
        p := Place(values[POSITION_MOON + 1], values[POSITION_MOON + 2], values[POSITION_MOON + 3]);
      }
    }

    /** Marks and stores the place of the Moon seen from the site. */
    method KeepTopo(p: Place)
      requires Agrees() && p == Now().MoonTopo()
      modifies values, valid
      ensures Agrees() && Now() == old(Now()) && MoonMark() == old(MoonMark())
    {
      hide Uncached, Moment.MoonTopo, Moment.MoonPosition, Moment.SunPosition;
      valid[POSITION_MOON_TOPO] := true;
      values[POSITION_MOON_TOPO + 1] := p.r;
      values[POSITION_MOON_TOPO + 2] := p.ra;
      values[POSITION_MOON_TOPO + 3] := p.dec;
    }

    method MoonTopo() returns (p: Place)
      requires Agrees()
      modifies values, valid
      ensures Agrees() && Now() == old(Now()) && MoonMark() == old(MoonMark()) && p == Now().MoonTopo()
    {
      hide Moment.LocalMeanSiderealTime, Moment.MoonPosition;
      hide Uncached;
      if !valid[POSITION_MOON_TOPO] {
        hide Agrees;
        var lmst := LocalMeanSiderealTime();
        var q := MoonPosition();
        p := series.parallax(lat, lmst, q);
        KeepTopo(p);
      } else {
        p := Place(values[POSITION_MOON_TOPO + 1], values[POSITION_MOON_TOPO + 2], values[POSITION_MOON_TOPO + 3]);
      }
    }

    /** A refused date changes nothing; an accepted one forgets everything computed before. */
    method SetUTC(d: Date, fd: real) returns (code: int)
      requires Agrees() && (CheckUTC(d, fd) == 0 ==> MonthIndex(d) >= RowMonth(0))
      modifies values, valid
      ensures code == CheckUTC(d, fd)
      ensures code != 0 ==> values[..] == old(values[..]) && valid[..] == old(valid[..])
      ensures Agrees()
      ensures code != 0 ==> MoonMark() == old(MoonMark())
      ensures code == 0 ==> !MoonMark()
      ensures code == 0 ==> Now() == Moment(series, lgt, lat, Calendar.ModifiedJulianDay(d, fd), DeltaAT(d, fd))
    {
      hide Uncached, TableRow, DayNumber;
      code := CheckUTC(d, fd);
      if code != 0 {
        return;
      }
      forall s | 0 <= s < END {
        valid[s] := false;
      }
      values[DAT] := DeltaAT(d, fd);
      values[MJD] := Calendar.ModifiedJulianDay(d, fd);
    }

    method ValueOf(slot: int) returns (r: real)
      requires Agrees() && Single(slot)
      modifies values, valid
      ensures Agrees() && Now() == old(Now()) && MoonMark() == old(MoonMark()) && r == Uncached(Now(), slot)
    {
      hide Agrees;
      match slot
      case 1 => r := JulianDay();
      case 2 => r := TaiDay();
      case 4 => r := JulianCentury();
      case 5 => r := GreenwichMeanSiderealTime();
      case 6 => r := GreenwichSiderealTime();
      case 7 => r := LocalMeanSiderealTime();
      case 8 => r := LocalSiderealTime();
      case 9 => r := MeanObliquity();
      case 10 => r := NutationLongitude();
      case 11 => r := NutationObliquity();
      case 12 => r := MeanAnomalySun();
      case 13 => r := MeanAnomalyMoon();
      case 14 => r := MeanElongationMoonSun();
      case 15 => r := MeanLongAscNodeMoon();
      case 16 => r := RelLongMoon();
      case 17 => r := MeanLongSun();
      case 18 => r := CenterSun();
      case 19 => r := TrueLongSun();
      case 20 => r := TrueAnomalySun();
      case 21 => r := EccentricityEarth();
      case _ => r := PerihelionLongEarth();
    }

    method Do(c: Call) returns (a: Answer)
      requires Agrees() && Allowed(c)
      modifies values, valid
      ensures Agrees() && Now() == After(old(Now()), c) && a == Answered(old(Now()), c)
      ensures !old(MoonMark()) ==> !MoonMark()
    {
      hide Agrees, Uncached, CheckUTC;
      match c
      case SetUTC(d, fd) =>
        var code := SetUTC(d, fd);
        a := Code(code);
      case Value(slot) =>
        var v := ValueOf(slot);
        a := Number(v);
      case TrueObliquity =>
        var v := TrueObliquity();
        a := Number(v);
      case Sun =>
        var ra, dec := SunPosition();
        a := Sky(ra, dec);
      case Moon =>
        var p := MoonPosition();
        a := At(p);
      case MoonTopo =>
        var p := MoonTopo();
        a := At(p);
    }

    /** The day is taken apart and put together again: the object then stands at that very moment. */
    method SetMJD(mjd: real)
      requires Agrees() && mjd >= 36934.0
      modifies values, valid
      ensures Agrees() && Now().mjd == mjd
      ensures Now() == Moment(series, lgt, lat, mjd, OffsetAt(mjd))
    {
      hide Uncached, TableRow, DayNumber, CheckUTC, Mjd2Cal, FMod1, ValidDate;
      var (d, fd) := Mjd2Cal(mjd);
      MjdRoundTrip(mjd);
      TableCovers(mjd);
      var _ := SetUTC(d, fd);
    }

    /** No slot is forgotten. The table stays right exactly when the filled local sidereal times see the site
        turned by whole turns, and the filled place of the Moon looks the same from both sites. */
    method SetSite(longitude: real, latitude: real)
      requires Agrees()
      modifies this`lgt, this`lat
      ensures lgt == longitude * AU_D2R && lat == latitude * AU_D2R
      ensures Agrees() <==>
        && (valid[LMST] || valid[LST] ==> WholeTurns(lgt - old(lgt), AU_2PI))
        && (valid[POSITION_MOON_TOPO] ==> Now().MoonTopo() == old(Now().MoonTopo()))
    {
      hide Uncached, CycMod, WholeTurns, Moment.MoonTopo, Moment.MoonPosition, Moment.SunPosition;
      ghost var m := Now();
      lgt := longitude * AU_D2R;
      lat := latitude * AU_D2R;
      forall s | Single(s) && s != LMST && s != LST
        ensures Uncached(Now(), s) == Uncached(m, s)
      {
        SiteFree(m, lgt, lat, s);
      }
      SiteSlots(m, lgt, lat);
      SiteBodies(m, lgt, lat);
    }
  }
}
