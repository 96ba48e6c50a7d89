/** The text of key-value messages: splitting, trimming, comparing and reading numbers back. */
module KVText {
  import opened Options
  import opened Characters

  datatype Pair = Pair(key: string, value: string)

  type int32 = x: int | -0x8000_0000 <= x < 0x8000_0000

  // ---- characters

  predicate IsSpace(c: char)
  {
    c == ' ' || '\t' <= c <= '\r'
  }

  /** Position of the first c, or the length. */
  function IndexOf(s: string, c: char): (r: nat)
    ensures r <= |s| && (r < |s| ==> s[r] == c)
    ensures forall i :: 0 <= i < r ==> s[i] != c
  {
    if s == "" || s[0] == c then 0 else 1 + IndexOf(s[1..], c)
  }

  lemma {:induction false} IndexIs(a: string, c: char, b: string)
    requires c !in a && (b != "" ==> b[0] == c)
    ensures IndexOf(a + b, c) == |a|
    decreases |a|
  {
    if a != "" {
      assert a[0] in a && (a + b)[1..] == a[1..] + b;
      IndexIs(a[1..], c, b);
    } else {
      assert a + b == b;
    }
  }

  function DropAll(s: string, c: char): (r: string)
    ensures |r| <= |s| && (r != "" ==> r[0] != c)
    ensures s != "" && s[0] == c ==> |r| < |s|
  {
    if s != "" && s[0] == c then DropAll(s[1..], c) else s
  }

  // ---- splitting and trimming

  /** Pieces between the separators; a run of separators counts as one. */
  function Split(s: string, c: char): (r: seq<string>)
    ensures r != []
    decreases |s|
  {
    var i := IndexOf(s, c);
    if i == |s| then [s] else [s[..i]] + Split(DropAll(s[i..], c), c)
  }

  lemma SplitWhole(s: string, c: char)
    requires c !in s
    ensures Split(s, c) == [s]
  {
    IndexIs(s, c, "");
    assert s + "" == s;
  }

  lemma SplitPiece(a: string, c: char, b: string)
    requires c !in a && (b != "" ==> b[0] != c)
    ensures Split(a + [c] + b, c) == [a] + Split(b, c)
  {
    var s := a + ([c] + b);
    assert s == a + [c] + b;
    IndexIs(a, c, [c] + b);
    assert s[..|a|] == a && s[|a|..] == [c] + b;
    assert ([c] + b)[1..] == b;
    assert DropAll([c] + b, c) == DropAll(b, c) == b;
  }

  function TrimLeft(s: string): string
  {
    if s != "" && IsSpace(s[0]) then TrimLeft(s[1..]) else s
  }

  function TrimRight(s: string): string
  {
    if s != "" && IsSpace(s[|s| - 1]) then TrimRight(s[..|s| - 1]) else s
  }

  function Trim(s: string): string
  {
    TrimLeft(TrimRight(s))
  }

  predicate Trimmed(s: string)
  {
    s != "" ==> !IsSpace(s[0]) && !IsSpace(s[|s| - 1])
  }

  /** What can stand for a key or a value: some text without separators, and without blanks at its ends. */
  predicate Plain(s: string)
  {
    s != "" && Trimmed(s) && ',' !in s && '=' !in s && '\0' !in s
  }

  predicate PlainPair(p: Pair)
  {
    Plain(p.key) && Plain(p.value)
  }

  // ---- pairs

  function JoinKv(p: Pair): string
  {
    p.key + "=" + p.value + ","
  }

  function JoinAll(kvs: seq<Pair>): string
  {
    if kvs == [] then "" else JoinKv(kvs[0]) + JoinAll(kvs[1..])
  }

  /** Key and value of one piece, unless there is not exactly one separator run, or either is empty. */
  function ReadPair(piece: string): Option<Pair>
  {
    var tokens := Split(piece, '=');
    if |tokens| != 2 then None
    else
      var key, value := Trim(tokens[0]), Trim(tokens[1]);
      if key == "" || value == "" then None else Some(Pair(key, value))
  }

  function ReadPairs(pieces: seq<string>): seq<Pair>
  {
    if pieces == [] then []
    else
      var n := |pieces| - 1;
      match ReadPair(pieces[n])
      case None => ReadPairs(pieces[..n])
      case Some(p) => ReadPairs(pieces[..n]) + [p]
  }

  function Piece(p: Pair): string
  {
    p.key + "=" + p.value
  }

  lemma NotAPair(s: string)
    requires '=' !in s
    ensures ReadPair(s) == None
  {
    SplitWhole(s, '=');
  }

  lemma ReadPiece(p: Pair)
    requires PlainPair(p)
    ensures ReadPair(Piece(p)) == Some(p)
  {
    assert Piece(p) == p.key + ['='] + p.value;
    assert p.value[0] in p.value;
    SplitPiece(p.key, '=', p.value);
    SplitWhole(p.value, '=');
  }

  /** Pieces that each read as a pair are read in order. */
  lemma {:induction false} ReadEach(kvs: seq<Pair>, pieces: seq<string>)
    requires |pieces| == |kvs| && forall i :: 0 <= i < |kvs| ==> ReadPair(pieces[i]) == Some(kvs[i])
    ensures ReadPairs(pieces) == kvs
    decreases |kvs|
  {
    hide ReadPair;
    if kvs != [] {
      var n := |kvs| - 1;
      ReadEach(kvs[..n], pieces[..n]);
    }
  }

  lemma JoinAllHead(kvs: seq<Pair>, tail: string)
    requires forall i :: 0 <= i < |kvs| ==> PlainPair(kvs[i])
    requires tail != "" ==> !IsSpace(tail[0]) || tail[0] == '\n'
    requires ',' !in tail
    ensures var t := JoinAll(kvs) + tail; t != "" ==> t[0] != ',' && t[0] != ' '
  {
    if kvs != [] {
      assert JoinAll(kvs)[0] == kvs[0].key[0];
      assert kvs[0].key[0] in kvs[0].key;
    } else if tail != "" {
      assert tail[0] in tail;
      assert JoinAll(kvs) + tail == tail;
    }
  }

  lemma Regrouped(p: Pair, b: string, tail: string)
    ensures JoinKv(p) + b + tail == Piece(p) + [','] + (b + tail)
  {
  }

  function Pieces(kvs: seq<Pair>): (r: seq<string>)
    ensures |r| == |kvs| && forall i :: 0 <= i < |kvs| ==> r[i] == Piece(kvs[i])
  {
    if kvs == [] then [] else [Piece(kvs[0])] + Pieces(kvs[1..])
  }

  lemma {:induction false} SplitJoined(kvs: seq<Pair>, tail: string)
    requires forall i :: 0 <= i < |kvs| ==> PlainPair(kvs[i])
    requires tail == "" || tail == "\n"
    ensures Split(JoinAll(kvs) + tail, ',') == Pieces(kvs) + [tail]
    decreases |kvs|
  {
    hide PlainPair, Piece, JoinKv, Split;
    if kvs == [] {
      SplitWhole(tail, ',');
      assert JoinAll(kvs) + tail == tail;
    } else {
      SplitJoined(kvs[1..], tail);
      NoComma(kvs[0]);
      JoinAllHead(kvs[1..], tail);
      SplitPiece(Piece(kvs[0]), ',', JoinAll(kvs[1..]) + tail);
      Regrouped(kvs[0], JoinAll(kvs[1..]), tail);
    }
  }

  lemma NoComma(p: Pair)
    requires PlainPair(p)
    ensures ',' !in Piece(p)
  {
  }

  /** Printed pairs are read back as they were, with or without a newline at the end. */
  lemma PairsReadBack(kvs: seq<Pair>, tail: string)
    requires forall i :: 0 <= i < |kvs| ==> PlainPair(kvs[i])
    requires tail == "" || tail == "\n"
    ensures ReadPairs(Split(JoinAll(kvs) + tail, ',')) == kvs
  {
    hide PlainPair, Piece, Split, ReadPair, JoinAll;
    SplitJoined(kvs, tail);
    forall i | 0 <= i < |kvs|
      ensures ReadPair(Pieces(kvs)[i]) == Some(kvs[i])
    {
      ReadPiece(kvs[i]);
    }
    ReadEach(kvs, Pieces(kvs));
    NotAPair(tail);
    assert (Pieces(kvs) + [tail])[..|kvs|] == Pieces(kvs);
  }

  lemma {:induction false} NoNul(kvs: seq<Pair>)
    requires forall i :: 0 <= i < |kvs| ==> PlainPair(kvs[i])
    ensures '\0' !in JoinAll(kvs)
    decreases |kvs|
  {
    if kvs != [] {
      NoNul(kvs[1..]);
    }
  }

  // ---- numbers

  function Digits(n: nat): (r: string)
    ensures r != "" && forall i :: 0 <= i < |r| ==> IsDigit(r[i])
  {
    if n < 10 then [Digit(n)] else Digits(n / 10) + [Digit(n % 10)]
  }

  function Itoa(n: int): string
  {
    if n < 0 then "-" + Digits(-n) else Digits(n)
  }

  function LeadingDigits(s: string): (r: nat)
    ensures r <= |s| && forall i :: 0 <= i < r ==> IsDigit(s[i])
  {
    if s != "" && IsDigit(s[0]) then 1 + LeadingDigits(s[1..]) else 0
  }

  function ValueOf(s: string): nat
    requires forall i :: 0 <= i < |s| ==> IsDigit(s[i])
  {
    if s == "" then 0
    else
      assert IsDigit(s[|s| - 1]);
      ValueOf(s[..|s| - 1]) * 10 + DigitValue(s[|s| - 1])
  }

  /** Without a sign in front. */
  function Unsigned(t: string): string
  {
    if t != "" && (t[0] == '-' || t[0] == '+') then t[1..] else t
  }

  /** The number at the start of the text, or nothing when there is none or it does not fit. */
  function Stoi(s: string): Option<int32>
  {
    var t := TrimLeft(s);
    var u := Unsigned(t);
    var k := LeadingDigits(u);
    if k == 0 then None
    else
      var n: int := ValueOf(u[..k]);
      var v := if t[0] == '-' then -n else n;
      if -0x8000_0000 <= v < 0x8000_0000 then Some(v) else None
  }

  lemma {:induction false} AllDigits(s: string)
    requires forall i :: 0 <= i < |s| ==> IsDigit(s[i])
    ensures LeadingDigits(s) == |s|
    decreases |s|
  {
    if s != "" {
      AllDigits(s[1..]);
    }
  }

  lemma {:induction false} DigitsValue(n: nat)
    ensures ValueOf(Digits(n)) == n
  {
    if n < 10 {
      assert Digits(n)[..0] == "";
    } else {
      DigitsValue(n / 10);
      assert Digits(n)[..|Digits(n)| - 1] == Digits(n / 10);
    }
  }

  lemma StoiItoa(n: int32)
    ensures Stoi(Itoa(n)) == Some(n)
  {
    hide Digits, ValueOf, LeadingDigits;
    var m: int := if n < 0 then -(n as int) else n;
    var d := Digits(m);
    AllDigits(d);
    DigitsValue(m);
    assert IsDigit(d[0]);
    assert d[..|d|] == d;
    if n < 0 {
      assert Itoa(n)[1..] == d;
    }
  }

  lemma ItoaPlain(n: int)
    ensures Plain(Itoa(n))
  {
    hide Digits;
    var d := Digits(if n < 0 then -n else n);
    assert IsDigit(d[0]) && IsDigit(d[|d| - 1]);
    forall i | 0 <= i < |Itoa(n)|
      ensures IsDigit(Itoa(n)[i]) || Itoa(n)[i] == '-'
    {
      if n < 0 && i > 0 {
        assert Itoa(n)[i] == d[i - 1];
      }
    }
  }
}
