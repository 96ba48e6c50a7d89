/** Printing hours and degrees, and reading the text back. */
module SexagesimalText {
  import opened Characters
  import opened Sexagesimal

  // ---- decimal text

  function Two(n: int): (s: string)
    requires 0 <= n < 100
    ensures |s| == 2 && AllDigits(s)
  {
    [Digit(n / 10), Digit(n % 10)]
  }

  function Three(n: int): (s: string)
    requires 0 <= n < 1000
    ensures |s| == 3 && AllDigits(s)
  {
    [Digit(n / 100), Digit(n / 10 % 10), Digit(n % 10)]
  }

  /** Without leading zeros. */
  function Plain(n: int): (s: string)
    requires 0 <= n < 1000
    ensures 1 <= |s| <= 3 && AllDigits(s)
  {
    if n < 10 then [Digit(n)] else if n < 100 then Two(n) else Three(n)
  }

  lemma {:induction false} AtofDigits(s: string, t: string, acc: real)
    requires AllDigits(s)
    ensures AtofFrom(s + t, acc) == AtofFrom(t, AtofFrom(s, acc))
    decreases |s|
  {
    if s == "" {
      assert s + t == t;
    } else {
      assert (s + t)[1..] == s[1..] + t;
      AtofDigits(s[1..], t, 10.0 * acc + DigitValue(s[0]) as real);
    }
  }

  lemma AtofOne(n: int, acc: real)
    requires 0 <= n < 10
    ensures AtofFrom([Digit(n)], acc) == 10.0 * acc + n as real
  {
    assert [Digit(n)][1..] == "";
  }

  lemma AtofTwo(n: int)
    requires 0 <= n < 100
    ensures Atof(Two(n)) == n as real
  {
    hide Digit;
    assert Two(n) == [Digit(n / 10)] + [Digit(n % 10)];
    AtofDigits([Digit(n / 10)], [Digit(n % 10)], 0.0);
    AtofOne(n / 10, 0.0);
    AtofOne(n % 10, (n / 10) as real);
  }

  lemma AtofPlain(n: int)
    requires 0 <= n < 1000
    ensures Atof(Plain(n)) == n as real
  {
    hide Digit;
    if n < 10 {
      AtofOne(n, 0.0);
    } else if n < 100 {
      AtofTwo(n);
    } else {
      var t := Two(n / 10);
      assert Three(n) == t + [Digit(n % 10)] by {
        assert n / 10 / 10 == n / 100;
      }
      AtofDigits(t, [Digit(n % 10)], 0.0);
      AtofTwo(n / 10);
      AtofOne(n % 10, (n / 10) as real);
    }
  }

  lemma FractionOne(n: int, s: string)
    requires 0 <= n < 10 && AllDigits(s)
    ensures AllDigits([Digit(n)] + s) && Fraction([Digit(n)] + s) == (n as real + Fraction(s)) / 10.0
  {
    assert ([Digit(n)] + s)[1..] == s;
  }

  lemma FractionTwo(n: int)
    requires 0 <= n < 100
    ensures Fraction(Two(n)) == n as real / 100.0
  {
    hide Digit;
    FractionOne(n % 10, "");
    FractionOne(n / 10, [Digit(n % 10)]);
    assert [Digit(n % 10)] + "" == [Digit(n % 10)];
    assert Two(n) == [Digit(n / 10)] + [Digit(n % 10)];
  }

  lemma FractionThree(n: int)
    requires 0 <= n < 1000
    ensures Fraction(Three(n)) == n as real / 1000.0
  {
    hide Digit, Fraction, Three, Two;
    FractionTwo(n % 100);
    FractionOne(n / 100, Two(n % 100));
    ThreeSplit(n);
    assert n as real == 100.0 * (n / 100) as real + (n % 100) as real;
  }

  lemma ThreeSplit(n: int)
    requires 0 <= n < 1000
    ensures Three(n) == [Digit(n / 100)] + Two(n % 100)
  {
    hide Digit;
    var a, b, c := n / 100, n / 10 % 10, n % 10;
    assert n == 100 * a + 10 * b + c;
    assert n % 100 == 10 * b + c;
    assert (10 * b + c) / 10 == b && (10 * b + c) % 10 == c;
  }

  lemma AtofPointed(n: int, frac: string)
    requires 0 <= n < 100 && AllDigits(frac)
    ensures Atof(Two(n) + "." + frac) == n as real + Fraction(frac)
  {
    assert Two(n) + "." + frac == Two(n) + ("." + frac);
    AtofDigits(Two(n), "." + frac, 0.0);
    AtofTwo(n);
    assert ("." + frac)[1..] == frac;
  }

  // ---- the printed fields

  /** Nearest whole number, a tie to the even one. */
  function Round(x: real): (k: int)
    ensures -0.5 <= k as real - x <= 0.5
  {
    var f := x.Floor;
    if x - f as real < 0.5 then f
    else if x - f as real > 0.5 then f + 1
    else if f % 2 == 0 then f else f + 1
  }

  function Units(x: real): int
  {
    x.Floor
  }

  function Minutes(x: real): int
  {
    ((x - Units(x) as real) * 60.0).Floor
  }

  function Seconds(x: real): real
  {
    ((x - Units(x) as real) * 60.0 - Minutes(x) as real) * 60.0
  }

  /** Seconds as printed: cut off at the largest printable value below 60. */
  function Capped(x: real, cap: real): real
  {
    if Seconds(x) > cap then cap else Seconds(x)
  }

  lemma FieldsRecombine(x: real)
    requires x >= 0.0
    ensures Units(x) >= 0 && 0 <= Minutes(x) < 60 && 0.0 <= Seconds(x) < 60.0
    ensures x == Units(x) as real + (Minutes(x) as real + Seconds(x) / 60.0) / 60.0
  {
    var f := x - Units(x) as real;
    assert 0.0 <= f < 1.0;
    var m := f * 60.0;
    assert 0.0 <= m < 60.0;
  }

  function HourText(x: real): string
    requires 0.0 <= x < 100.0
  {
    FieldsRecombine(x);
    var k := Round(Capped(x, 59.999) * 1000.0);
    Two(Units(x)) + ":" + Two(Minutes(x)) + ":" + (Two(k / 1000) + "." + Three(k % 1000))
  }

  /** The same without separators. */
  function PackedHourText(x: real): string
    requires 0.0 <= x < 100.0
  {
    FieldsRecombine(x);
    var k := Round(Capped(x, 59.999) * 1000.0);
    Two(Units(x)) + Two(Minutes(x)) + (Two(k / 1000) + "." + Three(k % 1000))
  }

  function ArcSeconds(x: real): string
    requires x >= 0.0
  {
    FieldsRecombine(x);
    var k := Round(Capped(x, 59.99) * 100.0);
    Two(k / 100) + "." + Two(k % 100)
  }

  function DegreeText(x: real): string
    requires 0.0 <= x < 360.0
  {
    FieldsRecombine(x);
    Plain(Units(x)) + ":" + Two(Minutes(x)) + ":" + ArcSeconds(x)
  }

  function DeclinationText(x: real): string
    requires -90.0 <= x <= 90.0
  {
    var a := if x < 0.0 then -x else x;
    FieldsRecombine(a);
    [if x < 0.0 then '-' else '+'] + (Two(Units(a)) + ":" + Two(Minutes(a)) + ":" + ArcSeconds(a))
  }

  function Gap(x: real, y: real): real
  {
    if x < y then y - x else x - y
  }

  /** Close enough: the fields agree and the seconds differ by less than tol. */
  lemma FieldError(x: real, s: real, tol: real)
    requires x >= 0.0 && Gap(Seconds(x), s) < tol
    ensures Gap(x, Units(x) as real + (Minutes(x) as real + s / 60.0) / 60.0) * 3600.0 < tol
  {
    hide Seconds, Minutes, Units;
    FieldsRecombine(x);
  }

  lemma JoinText(a: string, b: string, c: string, d: string)
    ensures a + ":" + b + ":" + (c + "." + d) == a + ":" + b + ":" + c + "." + d
  {
  }

  /** Reading back printed hours gives the value printed, to less than a millisecond; packed or not. */
  lemma HoursReadBack(x: real)
    requires 0.0 <= x < 100.0
    ensures var p := ParseHours(HourText(x)); p.Value? && Gap(x, p.v) * 3600.0 < 0.001
    ensures ParseHours(PackedHourText(x)) == ParseHours(HourText(x))
  {
    hide Two, Three, Round, Run, Atof, Fraction, Seconds, Minutes, Units;
    FieldsRecombine(x);
    var k := Round(Capped(x, 59.999) * 1000.0);
    var h, m, s := Two(Units(x)), Two(Minutes(x)), Two(k / 1000) + "." + Three(k % 1000);
    JoinText(h, m, Two(k / 1000), Three(k % 1000));
    RunThree(2, h, m, Two(k / 1000), Three(k % 1000));
    PackedForm(2, h, m, s);
    AtofTwo(Units(x));
    AtofTwo(Minutes(x));
    AtofPointed(k / 1000, Three(k % 1000));
    FractionThree(k % 1000);
    FieldError(x, k as real / 1000.0, 0.001);
  }

  lemma ArcSecondsValue(x: real) returns (whole: string, frac: string, s: real)
    requires x >= 0.0
    ensures ArcSeconds(x) == whole + "." + frac && AllDigits(whole) && AllDigits(frac)
    ensures Atof(whole + "." + frac) == s && Gap(Seconds(x), s) < 0.01
  {
    hide Two, Round, Atof, Fraction, Seconds, Minutes, Units;
    FieldsRecombine(x);
    var k := Round(Capped(x, 59.99) * 100.0);
    AtofPointed(k / 100, Two(k % 100));
    FractionTwo(k % 100);
    whole, frac, s := Two(k / 100), Two(k % 100), k as real / 100.0;
  }

  /** ... printed degrees to less than a hundredth of an arc second. */
  lemma DegreesReadBack(x: real)
    requires 0.0 <= x < 360.0
    ensures var p := ParseDegrees(DegreeText(x)); p.Value? && Gap(x, p.v) * 3600.0 < 0.01
  {
    hide Two, Plain, Run, Atof, Seconds, Minutes, Units, ArcSeconds;
    FieldsRecombine(x);
    var d, m := Plain(Units(x)), Two(Minutes(x));
    var whole, frac, s := ArcSecondsValue(x);
    JoinText(d, m, whole, frac);
    RunThree(3, d, m, whole, frac);
    AtofPlain(Units(x));
    AtofTwo(Minutes(x));
    FieldError(x, s, 0.01);
    assert DegreeText(x)[0] == d[0];
  }

  /** ... and printed declinations likewise, with their sign. */
  lemma DeclinationReadsBack(x: real)
    requires -90.0 <= x <= 90.0
    ensures var p := ParseDegrees(DeclinationText(x)); p.Value? && Gap(x, p.v) * 3600.0 < 0.01
  {
    hide Two, Run, Atof, Seconds, Minutes, Units, ArcSeconds;
    var a := if x < 0.0 then -x else x;
    FieldsRecombine(a);
    var d, m := Two(Units(a)), Two(Minutes(a));
    var whole, frac, s := ArcSecondsValue(a);
    JoinText(d, m, whole, frac);
    RunThree(3, d, m, whole, frac);
    AtofTwo(Units(a));
    AtofTwo(Minutes(a));
    FieldError(a, s, 0.01);
    var t := d + ":" + m + ":" + ArcSeconds(a);
    assert DeclinationText(x)[1..] == t;
  }

  // ---- the form of the text

  /** a and b are the whole units and minutes of x, and c is what is left in seconds, to the nearest multiple of step
      or, where that would be sixty, one step below. */
  ghost predicate Clock(x: real, a: string, b: string, c: string, step: real)
  {
    && AllDigits(a) && AllDigits(b) && |b| == 2
    && Atof(a) <= x < Atof(a) + 1.0
    && Atof(a) + Atof(b) / 60.0 <= x < Atof(a) + (Atof(b) + 1.0) / 60.0
    && Atof(c) <= 60.0 - step
    && var rest := (x - Atof(a) - Atof(b) / 60.0) * 3600.0;
       Gap(rest, Atof(c)) <= step / 2.0 || (rest > 60.0 - step && Atof(c) == 60.0 - step)
  }

  lemma FieldsBound(x: real)
    requires x >= 0.0
    ensures Units(x) as real <= x < Units(x) as real + 1.0
    ensures Units(x) as real + Minutes(x) as real / 60.0 <= x < Units(x) as real + (Minutes(x) as real + 1.0) / 60.0
    ensures (x - Units(x) as real - Minutes(x) as real / 60.0) * 3600.0 == Seconds(x)
  {
    hide Minutes, Units, Seconds;
    FieldsRecombine(x);
    assert Units(x) == x.Floor by {
      WholeUnits(x);
    }
  }

  lemma WholeUnits(x: real)
    ensures Units(x) == x.Floor
  {
  }

  /** What rounding makes of the capped seconds: k steps of 1 / n. */
  lemma RoundedSeconds(x: real, n: int, k: int)
    requires x >= 0.0 && (n == 1000 || n == 100) && k == Round(Capped(x, 60.0 - 1.0 / n as real) * n as real)
    ensures var step := 1.0 / n as real; var s := k as real * step;
      && 0 <= k < 60 * n && s <= 60.0 - step
      && (Gap(Seconds(x), s) <= step / 2.0 || (Seconds(x) > 60.0 - step && s == 60.0 - step))
  {
    hide Minutes, Units, Seconds;
    FieldsRecombine(x);
  }

  lemma ClockHolds(x: real, a: string, b: string, c: string, n: int, k: int)
    requires x >= 0.0 && (n == 1000 || n == 100) && k == Round(Capped(x, 60.0 - 1.0 / n as real) * n as real)
    requires AllDigits(a) && AllDigits(b) && |b| == 2
    requires Atof(a) == Units(x) as real && Atof(b) == Minutes(x) as real && Atof(c) == k as real * (1.0 / n as real)
    ensures Clock(x, a, b, c, 1.0 / n as real)
  {
    hide Minutes, Units, Seconds, Atof, Round, Capped, AllDigits;
    FieldsBound(x);
    RoundedSeconds(x, n, k);
  }

  /** Hours are printed with two digits, minutes and seconds likewise, and milliseconds with three. */
  lemma HourForm(x: real) returns (a: string, b: string, c: string, d: string)
    requires 0.0 <= x < 100.0
    ensures HourText(x) == a + ":" + b + ":" + c + "." + d && PackedHourText(x) == a + b + c + "." + d
    ensures |a| == |c| == 2 && |d| == 3 && AllDigits(c) && AllDigits(d) && Clock(x, a, b, c + "." + d, 0.001)
  {
    hide Two, Three, Round, Atof, Fraction, Seconds, Minutes, Units, Clock;
    FieldsRecombine(x);
    var k := Round(Capped(x, 59.999) * 1000.0);
    assert Capped(x, 59.999) == Capped(x, 60.0 - 1.0 / 1000 as real);
    a, b, c, d := Two(Units(x)), Two(Minutes(x)), Two(k / 1000), Three(k % 1000);
    JoinText(a, b, c, d);
    assert a + b + (c + "." + d) == a + b + c + "." + d;
    AtofTwo(Units(x));
    AtofTwo(Minutes(x));
    AtofPointed(k / 1000, d);
    FractionThree(k % 1000);
    ClockHolds(x, a, b, c + "." + d, 1000, k);
  }

  lemma ArcSecondsForm(x: real) returns (c: string, d: string, k: int)
    requires x >= 0.0
    ensures ArcSeconds(x) == c + "." + d && |c| == |d| == 2 && AllDigits(c) && AllDigits(d)
    ensures k == Round(Capped(x, 59.99) * 100.0) && Atof(c + "." + d) == k as real * (1.0 / 100.0)
  {
    hide Two, Round, Atof, Fraction, Seconds, Minutes, Units;
    FieldsRecombine(x);
    k := Round(Capped(x, 59.99) * 100.0);
    c, d := Two(k / 100), Two(k % 100);
    AtofPointed(k / 100, d);
    FractionTwo(k % 100);
  }

  /** Degrees are printed without leading zeros, the seconds with two decimals. */
  lemma DegreeForm(x: real) returns (a: string, b: string, c: string, d: string)
    requires 0.0 <= x < 360.0
    ensures DegreeText(x) == a + ":" + b + ":" + c + "." + d
    ensures 1 <= |a| <= 3 && (|a| > 1 ==> a[0] != '0')
    ensures |c| == |d| == 2 && AllDigits(c) && AllDigits(d) && Clock(x, a, b, c + "." + d, 0.01)
  {
    hide Two, Round, Atof, Seconds, Minutes, Units, ArcSeconds, Clock, Plain;
    FieldsRecombine(x);
    var k;
    c, d, k := ArcSecondsForm(x);
    a, b := Plain(Units(x)), Two(Minutes(x));
    JoinText(a, b, c, d);
    AtofPlain(Units(x));
    AtofTwo(Minutes(x));
    PlainHead(Units(x));
    ClockHolds(x, a, b, c + "." + d, 100, k);
  }

  lemma PlainHead(n: int)
    requires 0 <= n < 1000
    ensures |Plain(n)| > 1 ==> Plain(n)[0] != '0'
  {
    hide Digit;
    assert Digit(n / 10 % 10) != '0' || n / 10 % 10 == 0;
    assert n >= 100 ==> DigitValue(Plain(n)[0]) == n / 100;
    assert 10 <= n < 100 ==> DigitValue(Plain(n)[0]) == n / 10;
  }

  /** Declinations are printed with a sign and two digits. */
  lemma DeclinationForm(x: real) returns (a: string, b: string, c: string, d: string)
    requires -90.0 <= x <= 90.0
    ensures DeclinationText(x) == (if x < 0.0 then "-" else "+") + (a + ":" + b + ":" + c + "." + d)
    ensures |a| == |c| == |d| == 2 && AllDigits(c) && AllDigits(d)
    ensures Clock(if x < 0.0 then -x else x, a, b, c + "." + d, 0.01)
  {
    hide Two, Round, Atof, Seconds, Minutes, Units, ArcSeconds, Clock;
    var y := if x < 0.0 then -x else x;
    FieldsRecombine(y);
    var k;
    c, d, k := ArcSecondsForm(y);
    a, b := Two(Units(y)), Two(Minutes(y));
    JoinText(a, b, c, d);
    AtofTwo(Units(y));
    AtofTwo(Minutes(y));
    ClockHolds(y, a, b, c + "." + d, 100, k);
  }

  // ---- reduction to one turn

  /** r differs from x by whole turns. Negative values and values of at least top are moved; the others stay. */
  ghost predicate Wrapped(x: real, r: real, turn: int, top: int)
  {
    && (exists k: int :: r == x + (turn * k) as real)
    && (x < 0.0 ==> 0.0 <= r < turn as real)
    && (0.0 <= x < top as real ==> r == x)
    && (x >= top as real ==> (top - turn) as real <= r < top as real)
  }

  method Wrap(x: real, turn: int, top: int) returns (r: real)
    requires 0 < turn <= top
    ensures Wrapped(x, r, turn, top)
  {
    r := x;
    ghost var k := 0;
    while r < 0.0
      invariant r == x + (turn * k) as real
      invariant x >= 0.0 ==> r == x
      invariant x < 0.0 ==> r < turn as real
      decreases -r
    {
      r, k := r + turn as real, k + 1;
      assert (turn * k) as real == (turn * (k - 1)) as real + turn as real;
    }
    while r >= top as real
      invariant r == x + (turn * k) as real
      invariant 0.0 <= x < top as real ==> r == x
      invariant x < 0.0 ==> 0.0 <= r < turn as real
      invariant x >= top as real ==> (top - turn) as real <= r
      decreases r
    {
      r, k := r - turn as real, k - 1;
      assert (turn * k) as real == (turn * (k + 1)) as real - turn as real;
    }
  }

  function DayRemainder(x: real): real
  {
    x - 24.0 * (x / 24.0).Floor as real
  }

  /** Hours are reduced only from 36 up, so a value of 24 or more is printed exactly when the input was at
      least 24 and fell into the first half of a day. */
  lemma HoursNotReduced(x: real, r: real)
    requires Wrapped(x, r, 24, 36)
    ensures r < 24.0 <==> x < 24.0 || DayRemainder(x) >= 12.0
  {
    var k: int :| r == x + (24 * k) as real;
    var q := (x / 24.0).Floor;
    assert q as real <= x / 24.0 < q as real + 1.0;
    if x >= 36.0 {
      assert r == DayRemainder(x) + 24.0 * (q + k) as real;
      assert q + k == if DayRemainder(x) >= 12.0 then 0 else 1;
    }
  }

  /** 25 hours are printed as 25 hours. */
  lemma HourTwentyFive(r: real)
    requires Wrapped(25.0, r, 24, 36)
    ensures r == 25.0 && !(r < 24.0) && HourText(r)[..2] == "25"
  {
    hide Minutes, Seconds;
    assert Units(r) == 25;
    assert HourText(r)[..2] == Two(25);
  }

  /** y is within tol / 3600 of x, up to whole turns. */
  ghost predicate Congruent(x: real, y: real, turn: int, tol: real)
  {
    exists k: int :: Gap(x + (turn * k) as real, y) * 3600.0 < tol
  }

  lemma WrappedCongruent(x: real, r: real, turn: int, top: int, y: real, tol: real)
    requires Wrapped(x, r, turn, top) && Gap(r, y) * 3600.0 < tol
    ensures Congruent(x, y, turn, tol)
  {
    var k: int :| r == x + (turn * k) as real;
    assert Gap(x + (turn * k) as real, y) * 3600.0 < tol;
  }

  /** The text reads back as the same time of day, to less than a millisecond. */
  method HourDbl2Str(hour: real) returns (text: string)
    ensures exists r :: Wrapped(hour, r, 24, 36) && 0.0 <= r < 36.0 && text == HourText(r)
    ensures ParseHours(text).Value? && Congruent(hour, ParseHours(text).v, 24, 0.001)
  {
    hide HourText, Gap, ParseHours;
    var x := Wrap(hour, 24, 36);
    text := HourText(x);
    HoursReadBack(x);
    WrappedCongruent(hour, x, 24, 36, ParseHours(text).v, 0.001);
  }

  /** The text reads back as the same direction, to less than a hundredth of an arc second. */
  method DegDbl2Str(degree: real) returns (text: string)
    ensures exists r :: Wrapped(degree, r, 360, 360) && 0.0 <= r < 360.0 && text == DegreeText(r)
    ensures ParseDegrees(text).Value? && Congruent(degree, ParseDegrees(text).v, 360, 0.01)
  {
    hide DegreeText, Gap, ParseDegrees;
    var x := Wrap(degree, 360, 360);
    text := DegreeText(x);
    DegreesReadBack(x);
    WrappedCongruent(degree, x, 360, 360, ParseDegrees(text).v, 0.01);
  }

  datatype Text = NoText | Text(s: string)

  method DecDbl2Str(dec: real) returns (text: Text)
    ensures text.Text? <==> -90.0 <= dec <= 90.0
    ensures text.Text? ==> text.s == DeclinationText(dec)
    ensures text.Text? ==> ParseDegrees(text.s).Value? && Gap(dec, ParseDegrees(text.s).v) * 3600.0 < 0.01
  {
    hide Gap, ParseDegrees, DeclinationText;
    if dec < -90.0 || dec > 90.0 {
      return NoText;
    }
    text := Text(DeclinationText(dec));
    DeclinationReadsBack(dec);
  }

  // ---- the parser loops

  /** Reads str from position i0 on, one character at a time. */
  method Scan(w: nat, str: string, i0: nat) returns (code: int, h: real, m: real, buff: string, part: int)
    requires i0 <= |str|
    ensures var o := Run(w, START, str[i0..]);
      if o.Failed? then code == o.code else code == 0 && State(h, m, buff, part, o.st.dot) == o.st
  {
    hide Atof;
    h, m, buff, part := 0.0, 0.0, "", 0;
    var dot := false;
    code := 0;
    for i := i0 to |str|
      invariant part >= 0
      invariant Run(w, START, str[i0..]) == Run(w, State(h, m, buff, part, dot), str[i..])
    {
      var ch := str[i];
      assert str[i..][1..] == str[i + 1..];
      if IsDigit(ch) {
        if !dot && part <= 1 && |buff| == Width(w, part) {
          if part == 0 {
            h := Atof(buff);
          } else {
            m := Atof(buff);
          }
          buff, part := "", part + 1;
        }
        buff := buff + [ch];
      } else if ch == ' ' || ch == ':' {
        if dot || part >= 2 {
          return -2, h, m, buff, part;
        }
        if |buff| > 0 {
          if part == 0 {
            h := Atof(buff);
          } else if part == 1 {
            m := Atof(buff);
          }
          buff, part := "", part + 1;
        }
      } else if ch == '.' {
        if dot {
          return -3, h, m, buff, part;
        }
        dot := true;
        buff := buff + [ch];
      } else {
        return -4, h, m, buff, part;
      }
    }
  }

  method HourStr2Dbl(str: string) returns (code: int, hour: real)
    ensures var p := ParseHours(str);
      if p.Error? then code == p.code else code == 0 && hour == p.v
  {
    hour := 0.0;
    if |str| == 0 {
      return -1, hour;
    }
    var h, m, buff, part;
    code, h, m, buff, part := Scan(2, str, 0);
    assert str[0..] == str;
    FailureCodes(2, START, str);
    if code != 0 {
      return;
    }
    hour := if part == 0 then Atof(buff) else if part == 1 then h + Atof(buff) / 60.0
            else h + (m + Atof(buff) / 60.0) / 60.0;
  }

  lemma {:induction false} FailureCodes(w: nat, st: State, s: string)
    ensures Run(w, st, s).Failed? ==> Run(w, st, s).code < 0
    decreases |s|
  {
    if s != "" && Step(w, st, s[0]).Running? {
      FailureCodes(w, Step(w, st, s[0]).st, s[1..]);
    }
  }

  method DegStr2Dbl(str: string) returns (code: int, degree: real)
    ensures var p := ParseDegrees(str);
      if p.Error? then code == p.code else code == 0 && degree == p.v
  {
    degree := 0.0;
    if |str| == 0 {
      return -1, degree;
    }
    var sign, i := 1.0, 0;
    if str[0] == '+' || str[0] == '-' {
      i := 1;
      if str[0] == '-' {
        sign := -1.0;
      }
    }
    var d, m, buff, part;
    code, d, m, buff, part := Scan(3, str, i);
    assert str[0..] == str;
    FailureCodes(3, START, str[i..]);
    if code != 0 {
      return;
    }
    degree := sign * (if part == 0 then Atof(buff) else if part == 1 then d + Atof(buff) / 60.0
                      else d + (m + Atof(buff) / 60.0) / 60.0);
  }
}
