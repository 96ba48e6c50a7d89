/** Which texts are read as which numbers. */
module KVNumbers {
  import opened Options
  import opened Characters
  import opened KVText
  import opened KVSpelling

  predicate NoDigit(s: string)
  {
    s == "" || !IsDigit(s[0])
  }

  predicate AreDigits(s: string)
  {
    forall i :: 0 <= i < |s| ==> IsDigit(s[i])
  }

  lemma {:induction false} DigitsEnd(a: string, b: string)
    requires AreDigits(a) && NoDigit(b)
    ensures LeadingDigits(a + b) == |a|
    decreases |a|
  {
    if a == "" {
      assert a + b == b;
    } else {
      assert (a + b)[1..] == a[1..] + b;
      DigitsEnd(a[1..], b);
    }
  }

  lemma ValueNext(d: string, c: char)
    requires AreDigits(d) && IsDigit(c)
    ensures AreDigits(d + [c]) && ValueOf(d + [c]) == ValueOf(d) * 10 + DigitValue(c)
  {
    assert (d + [c])[..|d|] == d;
  }

  /** Leading zeros do not count. */
  lemma {:induction false} ZerosAside(z: string, d: string)
    requires RunOf('0', z) && AreDigits(d)
    ensures AreDigits(z + d) && ValueOf(z + d) == ValueOf(d)
    decreases |d|, |z|
  {
    if d != "" {
      var front, c := d[..|d| - 1], d[|d| - 1];
      ZerosAside(z, front);
      ValueNext(z + front, c);
      ValueNext(front, c);
      assert z + d == (z + front) + [c] && d == front + [c];
    } else if z != "" {
      var front := z[..|z| - 1];
      ZerosAside(front, "");
      assert front + "" == front && z + d == front + ['0'];
      ValueNext(front, '0');
    }
  }

  /** Digits in a row are the digits of their value behind some zeros. */
  lemma {:induction false} DigitsOf(d: string) returns (z: string)
    requires d != "" && AreDigits(d)
    ensures RunOf('0', z) && d == z + Digits(ValueOf(d))
    decreases |d|
  {
    var front, c := d[..|d| - 1], d[|d| - 1];
    var v := DigitValue(c);
    assert d == front + [c] && Digit(v) == c;
    ValueNext(front, c);
    if front == "" {
      z := "";
      assert ValueOf(front) == 0;
    } else {
      z := DigitsOf(front);
      var w := ValueOf(front);
      if w == 0 {
        z := z + "0";
        assert Digits(0) == "0";
      } else {
        assert (w * 10 + v) / 10 == w && (w * 10 + v) % 10 == v;
        assert Digits(w * 10 + v) == Digits(w) + [c];
      }
    }
  }

  predicate IsSign(sign: string)
  {
    sign == "" || sign == "+" || sign == "-"
  }

  /** Blanks, a sign, zeros, the digits of n, and anything that does not begin with a digit. */
  function Numeral(p: string, sign: string, z: string, n: nat, rest: string): string
  {
    p + (sign + ((z + Digits(n)) + rest))
  }

  predicate Parts(p: string, sign: string, z: string, rest: string)
  {
    Blanks(p) && IsSign(sign) && RunOf('0', z) && NoDigit(rest)
  }

  predicate ReadAs(s: string, v: int32, p: string, sign: string, z: string, rest: string)
  {
    && Parts(p, sign, z, rest) && s == Numeral(p, sign, z, if v < 0 then -(v as int) else v, rest)
    && if sign == "-" then v <= 0 else v >= 0
  }

  lemma NoBlankFirst(s: string)
    requires s != "" && !IsSpace(s[0])
    ensures TrimLeft(s) == s
  {
  }

  lemma SignedText(p: string, sign: string, u: string)
    requires Blanks(p) && IsSign(sign) && u != "" && IsDigit(u[0])
    ensures var t := TrimLeft(p + (sign + u)); t != "" && Unsigned(t) == u && (t[0] == '-' <==> sign == "-")
  {
    hide TrimLeft;
    var t := sign + u;
    assert t[0] == if sign == "" then u[0] else sign[0];
    TrimLeftBlanks(p, t);
    NoBlankFirst(t);
    if sign == "" {
      assert t == u;
    } else {
      assert t[1..] == u;
    }
  }

  /** Such a text is read as the number with its sign if that fits into 32 bits, and not at all otherwise. */
  lemma StoiReads(p: string, sign: string, z: string, n: nat, rest: string)
    requires Parts(p, sign, z, rest)
    ensures var v: int := if sign == "-" then -(n as int) else n;
      Stoi(Numeral(p, sign, z, n, rest)) == if -0x8000_0000 <= v < 0x8000_0000 then Some(v) else None
  {
    hide Digits, ValueOf, LeadingDigits, TrimLeft, Unsigned;
    var d := z + Digits(n);
    var u := d + rest;
    ZerosAside(z, Digits(n));
    DigitsValue(n);
    DigitsEnd(d, rest);
    assert u[0] == d[0];
    SignedText(p, sign, u);
    assert u[..|d|] == d;
  }

  /** A text is read as v exactly when it is such a text for v. */
  lemma StoiExact(s: string, v: int32)
    ensures Stoi(s) == Some(v) <==>
      exists p, sign, z, rest :: ReadAs(s, v, p, sign, z, rest)
  {
    hide Stoi, Parts, Numeral;
    if Stoi(s) == Some(v) {
      var p, sign, z, rest := StoiParts(s, v);
    }
    if p, sign, z, rest :| ReadAs(s, v, p, sign, z, rest) {
      StoiReads(p, sign, z, if v < 0 then -(v as int) else v, rest);
    }
  }

  lemma {:induction false} LeadingEnd(s: string)
    ensures NoDigit(s[LeadingDigits(s)..])
    decreases |s|
  {
    if s != "" && IsDigit(s[0]) {
      LeadingEnd(s[1..]);
      assert s[LeadingDigits(s)..] == s[1..][LeadingDigits(s[1..])..];
    }
  }

  /** What the reading looks at: blanks, a sign, digits d and the rest. */
  lemma StoiPieces(s: string, v: int32) returns (p: string, sign: string, d: string, rest: string)
    requires Stoi(s) == Some(v)
    ensures s == p + (sign + (d + rest)) && Blanks(p) && IsSign(sign) && NoDigit(rest)
    ensures d != "" && AreDigits(d) && v as int == if sign == "-" then 0 - ValueOf(d) else ValueOf(d)
  {
    hide ValueOf, LeadingDigits, TrimLeft, Blanks, NoDigit, IsDigit, Unsigned, IsSign;
    p := TrimLeftParts(s);
    var u := Unsigned(TrimLeft(s));
    sign := SignTaken(TrimLeft(s));
    d, rest := DigitsTaken(u);
  }

  lemma SignTaken(t: string) returns (sign: string)
    ensures t == sign + Unsigned(t) && IsSign(sign) && (t != "" ==> (t[0] == '-' <==> sign == "-"))
    ensures t == "" ==> Unsigned(t) == ""
  {
    sign := if t != "" && (t[0] == '-' || t[0] == '+') then t[..1] else "";
  }

  lemma DigitsTaken(u: string) returns (d: string, rest: string)
    ensures u == d + rest && AreDigits(d) && NoDigit(rest) && |d| == LeadingDigits(u) && d == u[..|d|]
  {
    hide LeadingDigits;
    var k := LeadingDigits(u);
    d, rest := u[..k], u[k..];
    LeadingEnd(u);
  }

  lemma StoiParts(s: string, v: int32) returns (p: string, sign: string, z: string, rest: string)
    requires Stoi(s) == Some(v)
    ensures ReadAs(s, v, p, sign, z, rest)
  {
    hide Digits, ValueOf, Stoi;
    var d;
    p, sign, d, rest := StoiPieces(s, v);
    z := DigitsOf(d);
  }

  /** Numbers are written in decimals. */
  lemma Sample()
    ensures Itoa(-907) == "-907"
  {
    assert Digits(9) == "9";
    assert Digits(90) == Digits(9) + "0";
    assert Digits(907) == Digits(90) + "7";
  }
}
