/** Hours and degrees as text: the field-by-field parser and the printers. */
module Sexagesimal {
  import opened Characters

  predicate AllDigits(s: string)
  {
    forall i :: 0 <= i < |s| ==> IsDigit(s[i])
  }

  // ---- atof on digits with at most one decimal point

  /** The digits after the point. */
  function Fraction(s: string): real
    requires AllDigits(s)
  {
    if s == "" then 0.0 else (DigitValue(s[0]) as real + Fraction(s[1..])) / 10.0
  }

  /** Digits and one point at most; acc is the value of the digits already read. */
  function AtofFrom(s: string, acc: real): real
  {
    if s == "" then acc
    else if s[0] == '.' then if AllDigits(s[1..]) then acc + Fraction(s[1..]) else acc
    else if IsDigit(s[0]) then AtofFrom(s[1..], 10.0 * acc + DigitValue(s[0]) as real)
    else acc
  }

  function Atof(s: string): real
  {
    AtofFrom(s, 0.0)
  }

  // ---- the parser

  /** Fields read so far, the characters of the current field, its number, and whether a point was seen. */
  datatype State = State(first: real, second: real, buff: string, part: int, dot: bool)

  datatype Outcome = Running(st: State) | Failed(code: int)

  datatype Parsed = Value(v: real) | Error(code: int)

  /** Digits that fill a field; w for the first, two for the second. */
  function Width(w: nat, part: int): int
  {
    if part == 0 then w else 2
  }

  predicate Full(w: nat, st: State)
  {
    !st.dot && st.part <= 1 && |st.buff| == Width(w, st.part)
  }

  /** Close the current field. */
  function Closed(st: State): State
  {
    State(if st.part == 0 then Atof(st.buff) else st.first,
          if st.part == 1 then Atof(st.buff) else st.second,
          "", st.part + 1, st.dot)
  }

  function Step(w: nat, st: State, ch: char): Outcome
  {
    if IsDigit(ch) then
      var st' := if Full(w, st) then Closed(st) else st;
      Running(st'.(buff := st'.buff + [ch]))
    else if ch == ' ' || ch == ':' then
      if st.dot || st.part >= 2 then Failed(-2)
      else if |st.buff| > 0 then Running(Closed(st))
      else Running(st)
    else if ch == '.' then
      if st.dot then Failed(-3) else Running(st.(buff := st.buff + [ch], dot := true))
    else Failed(-4)
  }

  function Run(w: nat, st: State, s: string): Outcome
    decreases |s|
  {
    if s == "" then Running(st)
    else
      var o := Step(w, st, s[0]);
      if o.Failed? then o else Run(w, o.st, s[1..])
  }

  const START: State := State(0.0, 0.0, "", 0, false)

  function Total(st: State): real
  {
    if st.part == 0 then Atof(st.buff)
    else if st.part == 1 then st.first + Atof(st.buff) / 60.0
    else st.first + (st.second + Atof(st.buff) / 60.0) / 60.0
  }

  function ParseHours(s: string): Parsed
  {
    if s == "" then Error(-1)
    else
      var o := Run(2, START, s);
      if o.Failed? then Error(o.code) else Value(Total(o.st))
  }

  function ParseDegrees(s: string): Parsed
  {
    if s == "" then Error(-1)
    else
      var signed := s[0] == '+' || s[0] == '-';
      var o := Run(3, START, if signed then s[1..] else s);
      if o.Failed? then Error(o.code)
      else Value(if s[0] == '-' then -Total(o.st) else Total(o.st))
  }

  // ---- parsing piece by piece

  lemma {:induction false} RunConcat(w: nat, st: State, s: string, t: string)
    ensures Run(w, st, s + t) == if Run(w, st, s).Failed? then Run(w, st, s) else Run(w, Run(w, st, s).st, t)
    decreases |s|
  {
    hide Step;
    if s == "" {
      assert s + t == t;
    } else {
      assert (s + t)[1..] == s[1..] + t;
      var o := Step(w, st, s[0]);
      if o.Running? {
        RunConcat(w, o.st, s[1..], t);
      }
    }
  }

  /** Digits that do not overfill the field are collected. */
  lemma {:induction false} RunDigits(w: nat, st: State, s: string)
    requires AllDigits(s)
    requires st.dot || st.part > 1 || |st.buff| + |s| <= Width(w, st.part)
    ensures Run(w, st, s) == Running(st.(buff := st.buff + s))
    decreases |s|
  {
    if s != "" {
      var st' := st.(buff := st.buff + [s[0]]);
      RunDigits(w, st', s[1..]);
      assert st'.buff + s[1..] == st.buff + s;
    } else {
      assert st.buff + s == st.buff;
    }
  }

  /** A digit after a full field opens the next one. */
  lemma FullCloses(w: nat, st: State, s: string)
    requires Full(w, st) && s != "" && IsDigit(s[0]) && Width(w, st.part + 1) > 0
    ensures Run(w, st, s) == Run(w, Closed(st), s)
  {
    assert Step(w, Closed(st), s[0]) == Step(w, st, s[0]);
  }

  /** So the separator after a full field may be left out. */
  lemma FullNeedsNoSeparator(w: nat, st: State, sep: char, s: string)
    requires Full(w, st) && st.buff != "" && (sep == ' ' || sep == ':') && s != "" && IsDigit(s[0])
    requires Width(w, st.part + 1) > 0
    ensures Run(w, st, [sep] + s) == Run(w, st, s)
  {
    hide Atof;
    assert ([sep] + s)[1..] == s;
    FullCloses(w, st, s);
  }

  /** One field closed by a separator. */
  lemma RunField(w: nat, st: State, ds: string, sep: char)
    requires st.buff == "" && !st.dot && 0 <= st.part <= 1 && AllDigits(ds) && 1 <= |ds| <= Width(w, st.part)
    requires sep == ' ' || sep == ':'
    ensures Run(w, st, ds + [sep]) == Running(Closed(st.(buff := ds)))
  {
    RunConcat(w, st, ds, [sep]);
    RunDigits(w, st, ds);
    assert st.buff + ds == ds;
    var st' := st.(buff := ds);
    assert [sep][1..] == "";
  }

  /** The last field: digits, a point, digits. */
  lemma RunSeconds(w: nat, st: State, whole: string, frac: string)
    requires st.buff == "" && !st.dot && st.part == 2 && AllDigits(whole) && AllDigits(frac)
    ensures Run(w, st, whole + "." + frac) == Running(st.(buff := whole + "." + frac, dot := true))
  {
    RunConcat(w, st, whole + ".", frac);
    RunConcat(w, st, whole, ".");
    RunDigits(w, st, whole);
    assert st.buff + whole == whole;
    var st' := st.(buff := whole);
    assert "."[1..] == "";
    assert Run(w, st', ".") == Running(st'.(buff := whole + ".", dot := true));
    RunDigits(w, st'.(buff := whole + ".", dot := true), frac);
  }

  /** Three fields with separators. */
  lemma RunThree(w: nat, a: string, b: string, whole: string, frac: string)
    requires AllDigits(a) && 1 <= |a| <= w && AllDigits(b) && 1 <= |b| <= 2 && AllDigits(whole) && AllDigits(frac)
    ensures Run(w, START, a + ":" + b + ":" + whole + "." + frac)
      == Running(State(Atof(a), Atof(b), whole + "." + frac, 2, true))
  {
    hide Atof;
    var s1, s2, s3 := a + ":", b + ":", whole + "." + frac;
    assert a + ":" + b + ":" + whole + "." + frac == s1 + (s2 + s3);
    RunConcat(w, START, s1, s2 + s3);
    RunField(w, START, a, ':');
    var st1 := Closed(START.(buff := a));
    RunConcat(w, st1, s2, s3);
    RunField(w, st1, b, ':');
    var st2 := Closed(st1.(buff := b));
    RunSeconds(w, st2, whole, frac);
  }

  /** With all fields full the separators may be dropped. */
  lemma PackedForm(w: nat, a: string, b: string, c: string)
    requires AllDigits(a) && |a| == w > 0 && AllDigits(b) && |b| == 2 && c != "" && IsDigit(c[0])
    ensures Run(w, START, a + b + c) == Run(w, START, a + ":" + b + ":" + c)
  {
    hide Atof, Step, Closed;
    var st1 := START.(buff := a);
    RunDigits(w, START, a);
    assert "" + a == a;
    assert a + b + c == a + (b + c);
    RunConcat(w, START, a, b + c);
    assert a + ":" + b + ":" + c == a + ([':'] + (b + (":" + c)));
    RunConcat(w, START, a, [':'] + (b + (":" + c)));
    FullNeedsNoSeparator(w, st1, ':', b + (":" + c));
    SecondField(w, st1, b, c);
  }

  lemma SecondField(w: nat, st: State, b: string, c: string)
    requires Full(w, st) && st.part == 0 && AllDigits(b) && |b| == 2 && c != "" && IsDigit(c[0])
    ensures Run(w, st, b + c) == Run(w, st, b + (":" + c))
  {
    hide Atof;
    var st' := Closed(st).(buff := b);
    RunConcat(w, st, b, c);
    RunConcat(w, st, b, ":" + c);
    FullCloses(w, st, b);
    RunDigits(w, Closed(st), b);
    assert "" + b == b;
    FullNeedsNoSeparator(w, st', ':', c);
  }

  // ---- texts with one, two or three fields

  /** Digits of a field that a separator closes. */
  predicate Field(n: nat, a: string)
  {
    AllDigits(a) && 1 <= |a| <= n
  }

  /** c is k digits, at most n, and then nothing or a point and more digits. */
  predicate PointAt(n: nat, c: string, k: int)
  {
    0 <= k <= n && k <= |c| && AllDigits(c[..k]) && (k < |c| ==> c[k] == '.' && AllDigits(c[k + 1..]))
  }

  /** The last field: digits that fit, and perhaps a point and a fraction. It may be empty. */
  ghost predicate LastField(n: nat, c: string)
  {
    exists k :: PointAt(n, c, k)
  }

  predicate Separator(sep: char)
  {
    sep == ' ' || sep == ':'
  }

  /** The last field is collected whole; the third may have any number of digits. */
  lemma RunLast(w: nat, st: State, c: string) returns (dot: bool)
    requires st.buff == "" && !st.dot && 0 <= st.part <= 2
    requires LastField(if st.part <= 1 then Width(w, st.part) else |c|, c)
    ensures Run(w, st, c) == Running(st.(buff := c, dot := dot))
  {
    var n := if st.part <= 1 then Width(w, st.part) else |c|;
    var k :| PointAt(n, c, k);
    var whole := c[..k];
    RunConcat(w, st, whole, c[k..]);
    assert whole + c[k..] == c;
    RunDigits(w, st, whole);
    assert "" + whole == whole;
    var st1 := st.(buff := whole);
    dot := k < |c|;
    if dot {
      assert c[k..][1..] == c[k + 1..];
      var st2 := st1.(buff := whole + ".", dot := true);
      assert [c[k]] == ".";
      RunDigits(w, st2, c[k + 1..]);
      assert whole + "." + c[k + 1..] == c;
    } else {
      assert whole == c;
    }
  }

  /** One field, two, or three, whatever separates them. */
  lemma RunFields(w: nat, a: string, s: char, b: string, t: char, c: string) returns (d0: bool, d1: bool, d2: bool)
    requires Field(w, a) && Field(2, b) && Separator(s) && Separator(t)
    ensures LastField(w, c) ==> Run(w, START, c) == Running(State(0.0, 0.0, c, 0, d0))
    ensures LastField(2, c) ==> Run(w, START, a + [s] + c) == Running(State(Atof(a), 0.0, c, 1, d1))
    ensures LastField(|c|, c) ==>
      Run(w, START, a + [s] + b + [t] + c) == Running(State(Atof(a), Atof(b), c, 2, d2))
  {
    hide Atof, LastField, Run, AllDigits;
    d0, d1, d2 := false, false, false;
    var st1 := Closed(START.(buff := a));
    var st2 := Closed(st1.(buff := b));
    RunField(w, START, a, s);
    RunField(w, st1, b, t);
    if LastField(w, c) {
      d0 := RunLast(w, START, c);
    }
    if LastField(2, c) {
      RunConcat(w, START, a + [s], c);
      d1 := RunLast(w, st1, c);
    }
    if LastField(|c|, c) {
      assert a + [s] + b + [t] + c == (a + [s]) + ((b + [t]) + c);
      RunConcat(w, START, a + [s], (b + [t]) + c);
      RunConcat(w, st1, b + [t], c);
      d2 := RunLast(w, st2, c);
    }
  }

  /** What hours mean: units of one, a sixtieth and a sixtieth of that, the last field with its decimals. */
  lemma HourFields(a: string, s: char, b: string, t: char, c: string)
    requires Field(2, a) && Field(2, b) && Separator(s) && Separator(t)
    ensures LastField(2, c) && c != "" ==> ParseHours(c) == Value(Atof(c))
    ensures LastField(2, c) ==> ParseHours(a + [s] + c) == Value(Atof(a) + Atof(c) / 60.0)
    ensures LastField(|c|, c) ==>
      ParseHours(a + [s] + b + [t] + c) == Value(Atof(a) + Atof(b) / 60.0 + Atof(c) / 3600.0)
  {
    hide Atof, Run, LastField;
    var _, _, _ := RunFields(2, a, s, b, t, c);
  }

  function Signed(sign: string, v: real): real
  {
    if sign == "-" then -v else v
  }

  predicate IsSign(sign: string)
  {
    sign == "" || sign == "+" || sign == "-"
  }

  lemma SignStripped(sign: string, s: string)
    requires IsSign(sign) && sign + s != "" && (s != "" ==> s[0] != '+' && s[0] != '-')
    ensures var o := Run(3, START, s);
      ParseDegrees(sign + s) == if o.Failed? then Error(o.code) else Value(Signed(sign, Total(o.st)))
  {
    hide Run, Total;
    if sign == "" {
      assert sign + s == s;
    } else {
      assert (sign + s)[1..] == s;
    }
  }

  lemma NoSign(n: nat, s: string)
    requires s != "" && (IsDigit(s[0]) || LastField(n, s))
    ensures s[0] != '+' && s[0] != '-'
  {
    if LastField(n, s) {
      var k :| PointAt(n, s, k);
      if k > 0 {
        assert s[..k][0] == s[0];
      }
    }
  }

  /** The same for degrees, with a sign before the first field. */
  lemma DegreeFields(sign: string, a: string, s: char, b: string, t: char, c: string)
    requires IsSign(sign) && Field(3, a) && Field(2, b) && Separator(s) && Separator(t)
    ensures LastField(3, c) && c != "" ==> ParseDegrees(sign + c) == Value(Signed(sign, Atof(c)))
    ensures LastField(2, c) ==>
      ParseDegrees(sign + (a + [s] + c)) == Value(Signed(sign, Atof(a) + Atof(c) / 60.0))
    ensures LastField(|c|, c) ==>
      ParseDegrees(sign + (a + [s] + b + [t] + c))
        == Value(Signed(sign, Atof(a) + Atof(b) / 60.0 + Atof(c) / 3600.0))
  {
    hide Atof, Run, ParseDegrees, LastField;
    var _, _, _ := RunFields(3, a, s, b, t, c);
    var two, three := a + [s] + c, a + [s] + b + [t] + c;
    assert two[0] == a[0] && three[0] == a[0];
    NoSign(3, two);
    NoSign(3, three);
    SignStripped(sign, two);
    SignStripped(sign, three);
    if LastField(3, c) && c != "" {
      NoSign(3, c);
      SignStripped(sign, c);
    }
  }

  /** More separators in a row, before the first field or behind it, change nothing. */
  lemma ExtraSeparator(sign: string, a: string, s: char, u: char, rest: string)
    requires IsSign(sign) && Separator(s) && Separator(u) && AllDigits(a)
    ensures rest != "" ==> ParseHours([u] + rest) == ParseHours(rest)
    ensures Field(2, a) ==> ParseHours(a + [s] + [u] + rest) == ParseHours(a + [s] + rest)
    ensures Field(3, a) ==> ParseDegrees(sign + (a + [s] + [u] + rest)) == ParseDegrees(sign + (a + [s] + rest))
  {
    hide Atof;
    assert ([u] + rest)[1..] == rest;
    assert a + [s] + [u] + rest == (a + [s]) + ([u] + rest);
    forall w: nat | Field(w, a)
      ensures Run(w, START, a + [s] + [u] + rest) == Run(w, START, a + [s] + rest)
    {
      RunField(w, START, a, s);
      RunConcat(w, START, a + [s], [u] + rest);
      RunConcat(w, START, a + [s], rest);
    }
    if Field(3, a) {
      hide Run;
      assert (a + [s] + [u] + rest)[0] == a[0] == (a + [s] + rest)[0];
      SignStripped(sign, a + [s] + [u] + rest);
      SignStripped(sign, a + [s] + rest);
    }
  }

  lemma ZeroField()
    ensures Field(2, "00") && LastField(2, "00") && Atof("00") == 0.0
  {
    assert PointAt(2, "00", 2);
    assert "00"[1..] == "0" && "0"[1..] == "";
  }

  /** Fields left out at the end count as zero. */
  lemma ShortForms(sign: string, a: string, s: char, b: string, t: char)
    requires IsSign(sign) && Separator(s) && Separator(t) && Field(2, b)
    ensures Field(2, a) ==> ParseHours(a) == ParseHours(a + [s] + "00" + [t] + "00") == Value(Atof(a))
    ensures Field(2, a) ==>
      ParseHours(a + [s] + b) == ParseHours(a + [s] + b + [t] + "00") == Value(Atof(a) + Atof(b) / 60.0)
    ensures Field(3, a) ==>
      ParseDegrees(sign + a) == ParseDegrees(sign + (a + [s] + "00" + [t] + "00")) == Value(Signed(sign, Atof(a)))
    ensures Field(3, a) ==>
      ParseDegrees(sign + (a + [s] + b)) == ParseDegrees(sign + (a + [s] + b + [t] + "00"))
        == Value(Signed(sign, Atof(a) + Atof(b) / 60.0))
  {
    hide Atof, ParseHours, ParseDegrees, LastField;
    ZeroField();
    WholeLast(2, b);
    if Field(2, a) {
      WholeLast(2, a);
      HourFields(a, s, b, t, a);
      HourFields(a, s, b, t, b);
      HourFields(a, s, b, t, "00");
      HourFields(a, s, "00", t, "00");
    }
    if Field(3, a) {
      WholeLast(3, a);
      DegreeFields(sign, a, s, b, t, a);
      DegreeFields(sign, a, s, b, t, b);
      DegreeFields(sign, a, s, b, t, "00");
      DegreeFields(sign, a, s, "00", t, "00");
    }
  }

  lemma WholeLast(n: nat, a: string)
    requires Field(n, a)
    ensures LastField(n, a)
  {
    assert a[..|a|] == a;
    assert PointAt(n, a, |a|);
  }

  // ---- what is refused

  /** A text that can be read has seen a point exactly when there is one in it. */
  lemma {:induction false} RunDot(w: nat, st: State, s: string)
    requires Run(w, st, s).Running?
    ensures Run(w, st, s).st.dot <==> st.dot || '.' in s
    decreases |s|
  {
    if s != "" {
      RunDot(w, Step(w, st, s[0]).st, s[1..]);
      assert s == [s[0]] + s[1..];
    }
  }

  lemma NextChar(w: nat, s: string, ch: char, rest: string)
    requires Run(w, START, s).Running?
    ensures var o := Step(w, Run(w, START, s).st, ch);
      Run(w, START, s + [ch] + rest) == if o.Failed? then o else Run(w, o.st, rest)
  {
    hide Step;
    assert s + [ch] + rest == s + ([ch] + rest);
    RunConcat(w, START, s, [ch] + rest);
    assert ([ch] + rest)[1..] == rest;
  }

  predicate Legal(ch: char)
  {
    IsDigit(ch) || Separator(ch) || ch == '.'
  }

  /** The error codes: after a text that can be read, a foreign character is -4, a second point -3,
      and a separator behind a point or a third separator -2. */
  lemma HourErrors(s: string, ch: char, rest: string)
    requires ParseHours(s).Value?
    ensures !Legal(ch) ==> ParseHours(s + [ch] + rest) == Error(-4)
    ensures ch == '.' && '.' in s ==> ParseHours(s + [ch] + rest) == Error(-3)
    ensures Separator(ch) && '.' in s ==> ParseHours(s + [ch] + rest) == Error(-2)
  {
    hide Atof;
    RunDot(2, START, s);
    NextChar(2, s, ch, rest);
  }

  lemma HourThirdSeparator(a: string, s: char, b: string, t: char, c: string, u: char, rest: string)
    requires Field(2, a) && Field(2, b) && Separator(s) && Separator(t) && Separator(u) && LastField(|c|, c)
    ensures ParseHours(a + [s] + b + [t] + c + [u] + rest) == Error(-2)
  {
    hide Atof, Run, LastField;
    var _, _, _ := RunFields(2, a, s, b, t, c);
    NextChar(2, a + [s] + b + [t] + c, u, rest);
  }

  /** The same for degrees; a sign anywhere but in front is a foreign character. */
  lemma DegreeErrors(s: string, ch: char, rest: string)
    requires ParseDegrees(s).Value?
    ensures !Legal(ch) ==> ParseDegrees(s + [ch] + rest) == Error(-4)
    ensures ch == '.' && '.' in s ==> ParseDegrees(s + [ch] + rest) == Error(-3)
    ensures Separator(ch) && '.' in s ==> ParseDegrees(s + [ch] + rest) == Error(-2)
  {
    hide Atof;
    var bare := if s[0] == '+' || s[0] == '-' then s[1..] else s;
    assert s == [s[0]] + s[1..];
    RunDot(3, START, bare);
    NextChar(3, bare, ch, rest);
    assert (s + [ch] + rest)[1..] == s[1..] + [ch] + rest;
  }

  lemma DegreeThirdSeparator(sign: string, a: string, s: char, b: string, t: char, c: string, u: char, rest: string)
    requires IsSign(sign) && Field(3, a) && Field(2, b) && LastField(|c|, c)
    requires Separator(s) && Separator(t) && Separator(u)
    ensures ParseDegrees(sign + (a + [s] + b + [t] + c + [u] + rest)) == Error(-2)
  {
    hide Atof, Run, LastField, ParseDegrees;
    var _, _, _ := RunFields(3, a, s, b, t, c);
    NextChar(3, a + [s] + b + [t] + c, u, rest);
    var all := a + [s] + b + [t] + c + [u] + rest;
    assert all[0] == a[0];
    NoSign(3, all);
    SignStripped(sign, all);
  }
}
