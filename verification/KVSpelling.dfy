/** Loosely written lines: blanks, repeated separators and the case of keywords make no difference. */
module KVSpelling {
  import opened Options
  import opened Characters
  import opened KVText
  import opened KVMessages

  // ---- comparing whatever the case

  /** The same character, or the same letter in the other case. */
  predicate SameLetter(c: char, d: char)
  {
    || c == d
    || ('A' <= c <= 'Z' && d as int == c as int - 'A' as int + 'a' as int)
    || ('A' <= d <= 'Z' && c as int == d as int - 'A' as int + 'a' as int)
  }

  lemma IEqualsExact(a: string, b: string)
    ensures IEquals(a, b) <==> |a| == |b| && forall i :: 0 <= i < |a| ==> SameLetter(a[i], b[i])
  {
    hide Lower;
    if IEquals(a, b) {
      forall i | 0 <= i < |a|
        ensures SameLetter(a[i], b[i])
      {
        assert LowerChar(a[i]) == Lower(a)[i] == Lower(b)[i] == LowerChar(b[i]);
      }
    } else if |a| == |b| {
      var i :| 0 <= i < |a| && Lower(a)[i] != Lower(b)[i];
      assert !SameLetter(a[i], b[i]);
    }
  }

  /** Plain text stays plain in another case. */
  lemma PlainCase(a: string, b: string)
    requires IEquals(a, b) && Plain(b)
    ensures Plain(a)
  {
    hide IEquals;
    IEqualsExact(a, b);
    forall i | 0 <= i < |a|
      ensures a[i] != ',' && a[i] != '=' && a[i] != '\0'
    {
      assert b[i] in b;
    }
  }

  // ---- trimming

  predicate Blanks(s: string)
  {
    forall i :: 0 <= i < |s| ==> IsSpace(s[i])
  }

  lemma {:induction false} TrimRightBlanks(a: string, q: string)
    requires Blanks(q)
    ensures TrimRight(a + q) == TrimRight(a)
    decreases |q|
  {
    if q == "" {
      assert a + q == a;
    } else {
      var front := q[..|q| - 1];
      assert (a + q)[..|a + q| - 1] == a + front;
      TrimRightBlanks(a, front);
    }
  }

  lemma {:induction false} TrimLeftBlanks(p: string, a: string)
    requires Blanks(p)
    ensures TrimLeft(p + a) == TrimLeft(a)
    decreases |p|
  {
    if p == "" {
      assert p + a == a;
    } else {
      assert (p + a)[1..] == p[1..] + a;
      TrimLeftBlanks(p[1..], a);
    }
  }

  lemma TrimBlanks(p: string, s: string, q: string)
    requires Blanks(p) && Blanks(q) && Trimmed(s)
    ensures Trim(p + s + q) == s
  {
    TrimRightBlanks(p + s, q);
    if s == "" {
      assert p + s == "" + p;
      TrimRightBlanks("", p);
    } else {
      assert (p + s)[|p + s| - 1] == s[|s| - 1];
      TrimLeftBlanks(p, s);
    }
  }

  lemma {:induction false} TrimRightParts(s: string) returns (q: string)
    ensures s == TrimRight(s) + q && Blanks(q)
    ensures TrimRight(s) != "" ==> !IsSpace(TrimRight(s)[|TrimRight(s)| - 1])
    decreases |s|
  {
    q := "";
    if s != "" && IsSpace(s[|s| - 1]) {
      var rest := TrimRightParts(s[..|s| - 1]);
      q := rest + [s[|s| - 1]];
    }
  }

  lemma {:induction false} TrimLeftParts(s: string) returns (p: string)
    ensures s == p + TrimLeft(s) && Blanks(p) && (TrimLeft(s) != "" ==> !IsSpace(TrimLeft(s)[0]))
    decreases |s|
  {
    p := "";
    if s != "" && IsSpace(s[0]) {
      var rest := TrimLeftParts(s[1..]);
      p := [s[0]] + rest;
    }
  }

  lemma TrimParts(s: string) returns (p: string, q: string)
    ensures s == p + Trim(s) + q && Blanks(p) && Blanks(q) && Trimmed(Trim(s))
  {
    hide TrimLeft, TrimRight;
    q := TrimRightParts(s);
    var u := TrimRight(s);
    p := TrimLeftParts(u);
    assert s == p + Trim(s) + q;
    if Trim(s) != "" {
      assert Trim(s)[|Trim(s)| - 1] == u[|u| - 1];
    }
  }

  // ---- runs of separators

  predicate RunOf(c: char, s: string)
  {
    forall i :: 0 <= i < |s| ==> s[i] == c
  }

  lemma {:induction false} DropRun(run: string, c: char, b: string)
    requires RunOf(c, run)
    ensures DropAll(run + b, c) == DropAll(b, c)
    decreases |run|
  {
    if run == "" {
      assert run + b == b;
    } else {
      assert (run + b)[1..] == run[1..] + b;
      DropRun(run[1..], c, b);
    }
  }

  lemma {:induction false} DropParts(s: string, c: char) returns (run: string)
    ensures s == run + DropAll(s, c) && RunOf(c, run)
    decreases |s|
  {
    run := "";
    if s != "" && s[0] == c {
      var rest := DropParts(s[1..], c);
      run := [c] + rest;
    }
  }

  lemma SplitRun(a: string, c: char, run: string, b: string)
    requires c !in a && run != "" && RunOf(c, run) && (b != "" ==> b[0] != c)
    ensures Split(a + run + b, c) == [a] + Split(b, c)
  {
    var s := a + (run + b);
    assert s == a + run + b;
    IndexIs(a, c, run + b);
    assert s[..|a|] == a && s[|a|..] == run + b;
    DropRun(run, c, b);
  }

  lemma TwoTokens(s: string, c: char) returns (a: string, run: string, b: string)
    requires |Split(s, c)| == 2
    ensures s == a + run + b && Split(s, c) == [a, b]
    ensures c !in a && c !in b && run != "" && RunOf(c, run)
  {
    hide DropAll, IndexOf;
    var i := IndexOf(s, c);
    a := s[..i];
    b := DropAll(s[i..], c);
    run := DropParts(s[i..], c);
    assert s == a + s[i..];
  }

  // ---- one pair

  /** What stands around a key and its value: blanks p, q, r and t, the equals signs e and the commas c. */
  datatype Spacing = Spacing(p: string, q: string, e: string, r: string, t: string, c: string)

  predicate Proper(w: Spacing)
  {
    && Blanks(w.p) && Blanks(w.q) && Blanks(w.r) && Blanks(w.t)
    && w.e != "" && RunOf('=', w.e) && w.c != "" && RunOf(',', w.c)
  }

  function Spelled(p: Pair, w: Spacing): string
  {
    (w.p + p.key + w.q) + w.e + (w.r + p.value + w.t)
  }

  predicate Token(s: string)
  {
    s != "" && Trimmed(s) && '=' !in s
  }

  lemma NotBlank(s: string, c: char)
    requires Blanks(s) && !IsSpace(c)
    ensures c !in s
  {
  }

  lemma ReadSpelled(p: Pair, w: Spacing)
    requires Token(p.key) && Token(p.value) && Proper(w)
    ensures ReadPair(Spelled(p, w)) == Some(p)
  {
    hide Split, Trim;
    var a, b := w.p + p.key + w.q, w.r + p.value + w.t;
    NotBlank(w.p, '=');
    NotBlank(w.q, '=');
    NotBlank(w.r, '=');
    NotBlank(w.t, '=');
    assert b[0] in b;
    SplitRun(a, '=', w.e, b);
    SplitWhole(b, '=');
    TrimBlanks(w.p, p.key, w.q);
    TrimBlanks(w.r, p.value, w.t);
  }

  /** A piece reads as a pair exactly when it is that pair with blanks around key and value and any number of
      equals signs in a row between them. */
  lemma PairExact(piece: string, p: Pair)
    ensures ReadPair(piece) == Some(p) <==>
      Token(p.key) && Token(p.value) && exists w :: Proper(w) && piece == Spelled(p, w)
  {
    hide Split, Trim, Proper, Spelled;
    if ReadPair(piece) == Some(p) {
      var a, run, b := TwoTokens(piece, '=');
      var l, q := TrimParts(a);
      var r, t := TrimParts(b);
      var w := Spacing(l, q, run, r, t, ",");
      SpelledParts(p, w, piece);
    }
    if Token(p.key) && Token(p.value) && exists w :: Proper(w) && piece == Spelled(p, w) {
      var w :| Proper(w) && piece == Spelled(p, w);
      ReadSpelled(p, w);
    }
  }

  lemma SpelledParts(p: Pair, w: Spacing, piece: string)
    requires Blanks(w.p) && Blanks(w.q) && Blanks(w.r) && Blanks(w.t) && w.e != "" && RunOf('=', w.e) && w.c == ","
    requires piece == (w.p + p.key + w.q) + w.e + (w.r + p.value + w.t)
    ensures Proper(w) && piece == Spelled(p, w)
  {
  }

  // ---- all pairs of a line

  function Loose(kvs: seq<Pair>, ws: seq<Spacing>): string
    requires |ws| == |kvs|
  {
    if kvs == [] then "" else Spelled(kvs[0], ws[0]) + ws[0].c + Loose(kvs[1..], ws[1..])
  }

  function SpelledAll(kvs: seq<Pair>, ws: seq<Spacing>): (r: seq<string>)
    requires |ws| == |kvs|
    ensures |r| == |kvs| && forall i :: 0 <= i < |kvs| ==> r[i] == Spelled(kvs[i], ws[i])
  {
    if kvs == [] then [] else [Spelled(kvs[0], ws[0])] + SpelledAll(kvs[1..], ws[1..])
  }

  ghost predicate Written(kvs: seq<Pair>, ws: seq<Spacing>)
  {
    |ws| == |kvs| && forall i :: 0 <= i < |kvs| ==> PlainPair(kvs[i]) && Proper(ws[i])
  }

  lemma SpelledChars(p: Pair, w: Spacing)
    requires PlainPair(p) && Proper(w)
    ensures ',' !in Spelled(p, w) && '\0' !in Spelled(p, w) && '\0' !in w.c && Spelled(p, w) != ""
  {
    NotBlank(w.p, ',');
    NotBlank(w.q, ',');
    NotBlank(w.r, ',');
    NotBlank(w.t, ',');
  }

  lemma LooseHead(kvs: seq<Pair>, ws: seq<Spacing>, tail: string)
    requires Written(kvs, ws) && Blanks(tail)
    ensures var s := Loose(kvs, ws) + tail; s != "" ==> s[0] != ','
  {
    hide Spelled, PlainPair, Proper;
    if kvs != [] {
      SpelledChars(kvs[0], ws[0]);
      assert (Loose(kvs, ws) + tail)[0] == Spelled(kvs[0], ws[0])[0];
    }
  }

  lemma {:induction false} SplitLoose(kvs: seq<Pair>, ws: seq<Spacing>, tail: string)
    requires Written(kvs, ws) && Blanks(tail)
    ensures Split(Loose(kvs, ws) + tail, ',') == SpelledAll(kvs, ws) + [tail]
    ensures '\0' !in Loose(kvs, ws) + tail
    decreases |kvs|
  {
    hide PlainPair, Spelled, Split;
    if kvs == [] {
      NotBlank(tail, ',');
      SplitWhole(tail, ',');
      assert Loose(kvs, ws) + tail == tail;
    } else {
      var rest := Loose(kvs[1..], ws[1..]) + tail;
      SplitLoose(kvs[1..], ws[1..], tail);
      LooseHead(kvs[1..], ws[1..], tail);
      SpelledChars(kvs[0], ws[0]);
      SplitRun(Spelled(kvs[0], ws[0]), ',', ws[0].c, rest);
      assert Loose(kvs, ws) + tail == Spelled(kvs[0], ws[0]) + ws[0].c + rest;
    }
  }

  /** The pairs are read as they are, however they are spaced out. */
  lemma LooseRead(kvs: seq<Pair>, ws: seq<Spacing>, tail: string)
    requires Written(kvs, ws) && Blanks(tail)
    ensures PairsOf(Loose(kvs, ws) + tail) == kvs
  {
    hide Split, ReadPair, Spelled, Proper, Loose;
    if Loose(kvs, ws) + tail == "" {
      NothingLoose(kvs, ws);
    } else {
      SplitLoose(kvs, ws, tail);
      var pieces := SpelledAll(kvs, ws);
      forall i | 0 <= i < |kvs|
        ensures ReadPair(pieces[i]) == Some(kvs[i])
      {
        ReadSpelled(kvs[i], ws[i]);
      }
      ReadEach(kvs, pieces);
      NotBlank(tail, '=');
      NotAPair(tail);
      assert (pieces + [tail])[..|kvs|] == pieces;
    }
  }

  lemma NothingLoose(kvs: seq<Pair>, ws: seq<Spacing>)
    requires Written(kvs, ws) && Loose(kvs, ws) == ""
    ensures kvs == []
  {
    hide Spelled, PlainPair, Proper;
    if kvs != [] {
      SpelledChars(kvs[0], ws[0]);
    }
  }

  // ---- blanks that the line loses before its pairs are split

  lemma {:induction false} DropFront(p: string, s: string)
    requires s != "" && s[0] != ' '
    ensures DropAll(p + s, ' ') == DropAll(p, ' ') + s
    decreases |p|
  {
    if p == "" {
      assert p + s == s;
    } else if p[0] == ' ' {
      assert (p + s)[1..] == p[1..] + s;
      DropFront(p[1..], s);
    }
  }

  lemma {:induction false} DropBlanks(s: string)
    requires Blanks(s)
    ensures Blanks(DropAll(s, ' '))
    decreases |s|
  {
    if s != "" && s[0] == ' ' {
      DropBlanks(s[1..]);
    }
  }

  /** A spelled pair behind its first blanks. */
  function Inner(p: Pair, w: Spacing): string
  {
    p.key + (w.q + w.e + (w.r + p.value + w.t))
  }

  lemma SpelledFront(p: Pair, w: Spacing, more: string)
    requires PlainPair(p)
    ensures Spelled(p, w) + more == w.p + (Inner(p, w) + more) && Inner(p, w) != "" && Inner(p, w)[0] != ' '
  {
    var u := w.r + p.value + w.t;
    assert (w.p + p.key + w.q) + w.e + u == w.p + (p.key + (w.q + w.e + u));
    assert Inner(p, w)[0] == p.key[0];
  }

  lemma LooseFront(p: Pair, w: Spacing, kvs: seq<Pair>, ws: seq<Spacing>, tail: string)
    requires PlainPair(p) && |kvs| == |ws|
    ensures var v := w.(p := DropAll(w.p, ' '));
      DropAll(Loose([p] + kvs, [w] + ws) + tail, ' ') == Loose([p] + kvs, [v] + ws) + tail
  {
    hide Spelled, Inner, DropAll, PlainPair;
    var v := w.(p := DropAll(w.p, ' '));
    var more := w.c + Loose(kvs, ws) + tail;
    SpelledFront(p, w, more);
    SpelledFront(p, v, more);
    FirstLoose(p, w, kvs, ws, tail);
    FirstLoose(p, v, kvs, ws, tail);
    SameInner(p, w, v);
    DropFront(w.p, Inner(p, w) + more);
  }

  lemma SameInner(p: Pair, w: Spacing, v: Spacing)
    requires v == w.(p := v.p)
    ensures Inner(p, v) == Inner(p, w)
  {
  }

  lemma FirstLoose(p: Pair, w: Spacing, kvs: seq<Pair>, ws: seq<Spacing>, tail: string)
    requires |kvs| == |ws|
    ensures Loose([p] + kvs, [w] + ws) + tail == Spelled(p, w) + (w.c + Loose(kvs, ws) + tail)
  {
    hide Spelled;
    assert ([p] + kvs)[1..] == kvs && ([w] + ws)[1..] == ws;
  }

  /** Leading blanks belong to the first pair, or to the tail. */
  lemma LooseDropped(kvs: seq<Pair>, ws: seq<Spacing>, tail: string)
    requires Written(kvs, ws) && Blanks(tail)
    ensures PairsOf(DropAll(Loose(kvs, ws) + tail, ' ')) == kvs
  {
    hide PairsOf, DropAll, PlainPair;
    if kvs == [] {
      DropBlanks(tail);
      LooseRead([], [], DropAll(tail, ' '));
      assert Loose(kvs, ws) + tail == tail && Loose([], []) + DropAll(tail, ' ') == DropAll(tail, ' ');
    } else {
      var p, w := kvs[0], ws[0];
      var v := w.(p := DropAll(w.p, ' '));
      DropBlanks(w.p);
      LooseFront(p, w, kvs[1..], ws[1..], tail);
      assert [p] + kvs[1..] == kvs && [w] + ws[1..] == ws && [v] + ws[1..] == ws[0 := v];
      LooseRead(kvs, ws[0 := v], tail);
    }
  }

  // ---- keywords in any case

  /** The same pairs, the case of the keys aside. */
  ghost predicate SameKeys(a: seq<Pair>, b: seq<Pair>)
  {
    |a| == |b| && forall i :: 0 <= i < |a| ==> IEquals(a[i].key, b[i].key) && a[i].value == b[i].value
  }

  lemma KindCase(a: string, b: string)
    requires IEquals(a, b)
    ensures KindOf(a) == KindOf(b)
  {
    hide IEquals, LowerChar;
    SameCompare(a, b);
    FirstCase(a, b);
  }

  lemma SameCompare(a: string, b: string)
    requires IEquals(a, b)
    ensures forall k: string :: IEquals(a, k) == IEquals(b, k)
  {
    hide Lower;
  }

  lemma FirstCase(a: string, b: string)
    requires IEquals(a, b)
    ensures (a == "" <==> b == "") && (a != "" ==> LowerChar(a[0]) == LowerChar(b[0]))
  {
    hide Lower;
    assert a != "" ==> Lower(a)[0] == Lower(b)[0];
  }

  lemma AssignCase(m: Body, p: Pair, q: Pair)
    requires IEquals(p.key, q.key) && p.value == q.value
    ensures Assign(m, p) == Assign(m, q)
  {
    hide Lower, Stoi;
  }

  lemma UnreadableCase(kind: Kind, p: Pair, q: Pair, given: Given)
    requires IEquals(p.key, q.key) && p.value == q.value
    ensures Unreadable(kind, p, given) == Unreadable(kind, q, given)
  {
    hide Lower, Stoi;
  }

  lemma BaseCase(b: Base, p: Pair, q: Pair)
    requires IEquals(p.key, q.key) && p.value == q.value
    ensures SetBase(b, p) == SetBase(b, q) && IsBaseKey(p.key) == IsBaseKey(q.key)
  {
    hide Lower;
  }

  lemma {:induction false} ApartCase(a: seq<Pair>, b: seq<Pair>)
    requires SameKeys(a, b)
    ensures BasisOf(a) == BasisOf(b) && SameKeys(OwnOf(a), OwnOf(b))
    decreases |a|
  {
    hide IEquals, SetBase, IsBaseKey;
    if a != [] {
      var n := |a| - 1;
      ApartCase(a[..n], b[..n]);
      BaseCase(BasisOf(a[..n]), a[n], b[n]);
    }
  }

  lemma {:induction false} AssignedCase(m: Body, a: seq<Pair>, b: seq<Pair>)
    requires SameKeys(a, b)
    ensures Assigned(m, a) == Assigned(m, b)
    decreases |a|
  {
    hide IEquals, Assign;
    if a != [] {
      var n := |a| - 1;
      AssignedCase(m, a[..n], b[..n]);
      if Assigned(m, a[..n]).Some? {
        AssignCase(Assigned(m, a[..n]).value, a[n], b[n]);
      }
    }
  }

  lemma {:induction false} AllReadCase(kind: Kind, a: seq<Pair>, b: seq<Pair>, given: Given)
    requires SameKeys(a, b)
    ensures AllRead(kind, a, given) == AllRead(kind, b, given)
    decreases |a|
  {
    hide IEquals, Unreadable;
    if a != [] {
      var n := |a| - 1;
      AllReadCase(kind, a[..n], b[..n], given);
      UnreadableCase(kind, a[n], b[n], given);
    }
  }

  lemma FilledCase(v: string, w: string, a: seq<Pair>, b: seq<Pair>, given: Given)
    requires IEquals(v, w) && SameKeys(a, b)
    ensures Filled(v, a, given) == Filled(w, b, given)
  {
    hide IEquals, SameKeys, KindOf, OwnOf, BasisOf, Assigned, AllRead, Blank;
    KindCase(v, w);
    ApartCase(a, b);
    var kind := KindOf(v);
    AllReadCase(kind, OwnOf(a), OwnOf(b), given);
    if HasBody(kind) {
      AssignedCase(Blank(kind, given.unset), OwnOf(a), OwnOf(b));
    }
  }

  // ---- which words are known

  /** The types of message the resolver knows. */
  const WORDS: seq<string> := [
    "abort", "append_gwac", "append_plan", "camera", "camset", "check_plan", "derot", "dome", "expose", "filter",
    "focus", "focus_sync", "fwhm", "guide", "home", "mcover", "mount", "obss", "park", "plan", "remove_plan", "slew",
    "sync", "take_image", "track", "trackvel"]

  /** A type is known exactly when it is one of these words, whatever the case of its letters. */
  lemma KnownWords(word: string)
    ensures KindOf(word) != NoKind <==> exists i :: 0 <= i < |WORDS| && IEquals(word, WORDS[i])
  {
    hide IEquals, KindOf;
    if i :| 0 <= i < |WORDS| && IEquals(word, WORDS[i]) {
      KindCase(word, WORDS[i]);
      WordKnown(i);
    }
    if KindOf(word) != NoKind {
      var i := WordListed(word);
    }
  }

  lemma WordListed(word: string) returns (i: int)
    requires KindOf(word) != NoKind
    ensures 0 <= i < |WORDS| && IEquals(word, WORDS[i])
  {
    hide IEquals, LowerChar;
    i := if IEquals(word, "abort") then 0 else if IEquals(word, "append_gwac") then 1 else
         if IEquals(word, "append_plan") then 2 else if IEquals(word, "camera") then 3 else
         if IEquals(word, "camset") then 4 else if IEquals(word, "check_plan") then 5 else
         if IEquals(word, "derot") then 6 else if IEquals(word, "dome") then 7 else
         if IEquals(word, "expose") then 8 else if IEquals(word, "filter") then 9 else
         if IEquals(word, "focus") then 10 else if IEquals(word, "focus_sync") then 11 else
         if IEquals(word, "fwhm") then 12 else if IEquals(word, "guide") then 13 else
         if IEquals(word, "home") then 14 else if IEquals(word, "mcover") then 15 else
         if IEquals(word, "mount") then 16 else if IEquals(word, "obss") then 17 else
         if IEquals(word, "park") then 18 else if IEquals(word, "plan") then 19 else
         if IEquals(word, "remove_plan") then 20 else if IEquals(word, "slew") then 21 else
         if IEquals(word, "sync") then 22 else if IEquals(word, "take_image") then 23 else
         if IEquals(word, "track") then 24 else 25;
  }

  lemma WordKnown(i: int)
    requires 0 <= i < |WORDS|
    ensures KindOf(WORDS[i]) != NoKind
  {
    hide IEquals;
    Same(WORDS[i]);
  }

  // ---- the whole line

  lemma LineParts(lead: string, word: string, gap: string, rest: string, given: Given)
    requires RunOf(' ', lead) && RunOf(' ', gap) && word != "" && ' ' !in word && (gap == "" ==> rest == "")
    requires '\0' !in word && '\0' !in rest
    ensures Resolve(lead + word + gap + rest, given) == Filled(word, PairsOf(DropAll(rest, ' ')), given)
  {
    hide Filled, PairsOf, IndexOf, DropAll, RunOf, Started;
    var s := lead + word + gap + rest;
    StartedIs(lead, word, gap, rest);
    WordEnd(word, gap, rest);
    DropRun(gap, ' ', rest);
    assert WordOf(s) == word;
    assert PairsIn(s) == PairsOf(DropAll(rest, ' '));
  }

  lemma StartedIs(lead: string, word: string, gap: string, rest: string)
    requires RunOf(' ', lead) && RunOf(' ', gap) && word != "" && ' ' !in word
    requires '\0' !in word && '\0' !in rest
    ensures Started(lead + word + gap + rest) == word + (gap + rest)
  {
    hide IndexOf, DropAll, RunOf;
    var t := word + (gap + rest);
    assert lead + word + gap + rest == lead + t;
    NoNulIn(lead, word, gap, rest);
    DropRun(lead, ' ', t);
    assert t[0] in word;
    NothingDropped(t);
  }

  lemma WordEnd(word: string, gap: string, rest: string)
    requires RunOf(' ', gap) && word != "" && ' ' !in word && (gap == "" ==> rest == "")
    ensures var t := word + (gap + rest);
      IndexOf(t, ' ') == |word| && t[..|word|] == word && t[|word|..] == gap + rest
  {
    hide IndexOf, RunOf;
    GapHead(gap, rest);
    IndexIs(word, ' ', gap + rest);
  }

  lemma NoNulIn(lead: string, word: string, gap: string, rest: string)
    requires RunOf(' ', lead) && RunOf(' ', gap) && '\0' !in word && '\0' !in rest
    ensures var s := lead + word + gap + rest; IndexOf(s, '\0') == |s| && s[..|s|] == s
  {
    hide IndexOf;
    var s := lead + word + gap + rest;
    assert '\0' !in lead && '\0' !in gap;
    IndexIs(s, '\0', "");
    assert s + "" == s;
  }

  lemma GapHead(gap: string, rest: string)
    requires RunOf(' ', gap) && (gap == "" ==> rest == "")
    ensures gap + rest != "" ==> (gap + rest)[0] == ' '
  {
  }

  lemma NothingDropped(s: string)
    requires s != "" && s[0] != ' '
    ensures DropAll(s, ' ') == s
  {
  }

  /** A line is rejected exactly when it does not begin with a known word, whatever follows it. */
  lemma RejectedExact(lead: string, word: string, gap: string, rest: string, given: Given)
    requires RunOf(' ', lead) && RunOf(' ', gap) && word != "" && ' ' !in word && (gap == "" ==> rest == "")
    requires '\0' !in word && '\0' !in rest
    ensures Resolve(lead + word + gap + rest, given) == Rejected <==>
      !exists i :: 0 <= i < |WORDS| && IEquals(word, WORDS[i])
  {
    hide IEquals, KindOf, Resolve, PairsOf, DropAll, RunOf, Assigned, AllRead, OwnOf, BasisOf, Blank;
    LineParts(lead, word, gap, rest, given);
    KnownWords(word);
  }

  /** The word of a message in any case is a word still. */
  lemma WordCase(word: string, m: Body)
    requires IEquals(word, Word(m))
    ensures word != "" && ' ' !in word && '\0' !in word
  {
    hide IEquals, Word;
    WordWhole(m);
    IEqualsExact(word, Word(m));
    forall i | 0 <= i < |word|
      ensures word[i] != ' ' && word[i] != '\0'
    {
      assert Word(m)[i] in Word(m);
    }
  }

  lemma KeysPlain(m: Message, kvs: seq<Pair>)
    requires Clean(m) && SameKeys(kvs, Pairs(m))
    ensures forall i :: 0 <= i < |kvs| ==> PlainPair(kvs[i])
  {
    hide Clean, Pairs, Plain, IEquals;
    forall i | 0 <= i < |kvs|
      ensures PlainPair(kvs[i])
    {
      AllPlain(m, i);
      PlainCase(kvs[i].key, Pairs(m)[i].key);
    }
  }

  /** A printed message is resolved to itself with its word and its keys in any case, with blanks before and behind
      the word, every key, every value and at the end of the line, and with any number of equals signs and commas in
      a row. */
  lemma LooseReadBack(m: Message, lead: string, word: string, gap: string, kvs: seq<Pair>, ws: seq<Spacing>,
                      tail: string, given: Given)
    requires Clean(m) && IEquals(word, Word(m.body)) && SameKeys(kvs, Pairs(m))
    requires RunOf(' ', lead) && RunOf(' ', gap) && gap != "" && Blanks(tail)
    requires |ws| == |kvs| && forall i :: 0 <= i < |ws| ==> Proper(ws[i])
    ensures Resolve(lead + word + gap + (Loose(kvs, ws) + tail), given)
      == Known(Message(m.base, Printed(m.body)))
  {
    hide Clean, IEquals, SameKeys, Pairs, PlainPair, Proper, Loose, Word, Resolve, Filled, PairsOf, DropAll, Printed;
    WordCase(word, m.body);
    KeysPlain(m, kvs);
    SplitLoose(kvs, ws, tail);
    LineParts(lead, word, gap, Loose(kvs, ws) + tail, given);
    LooseDropped(kvs, ws, tail);
    FilledCase(word, Word(m.body), kvs, Pairs(m), given);
    FilledBack(m, given);
  }

  /** A word alone gives the message as it is constructed. */
  lemma BareWord(m: Body, lead: string, word: string, gap: string, given: Given)
    requires IEquals(word, Word(m)) && RunOf(' ', lead) && RunOf(' ', gap)
    ensures var n := given.unset;
      Resolve(lead + word + gap, given) == Known(Message(Base("", "", "", ""),
        if m.Plan? then Plan("", "", "", n)
        else if m.CheckPlan? then CheckPlan("")
        else if m.RemovePlan? then RemovePlan("")
        else if m.Obss? then Obss(n, n, n)
        else if m.Guide? then Guide(0, 0, 0, 0)
        else if m.Expose? then Expose(n, 0, 1)
        else Focus(0, 0, 0, 999999, 999999)))
  {
    hide IEquals, KindOf, Word, Resolve;
    WordCase(word, m);
    LineParts(lead, word, gap, "", given);
    assert lead + word + gap + "" == lead + word + gap;
    WordReadBack(m);
    KindCase(word, Word(m));
    NoBasis();
    assert Assigned(Blank(KindOfBody(m), given.unset), []) == Some(Blank(KindOfBody(m), given.unset));
  }
}
