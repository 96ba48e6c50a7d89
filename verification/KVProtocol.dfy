/** The resolver as the loops that walk over the text, its pieces and its pairs. */
module KVProtocol {
  import opened Options
  import opened Characters
  import opened KVText
  import opened KVMessages

  /** Sorts the pairs of the text into those of the common header and the others, in order. */
  method ResolvePairs(text: string) returns (kvs: seq<Pair>, basis: Base)
    ensures kvs == OwnOf(ReadPairs(Split(text, ','))) && basis == BasisOf(ReadPairs(Split(text, ',')))
  {
    hide Split, ReadPair, IEquals, BasisOf, OwnOf;
    NoBasis();
    kvs, basis := [], NO_BASE;
    var tokens := Split(text, ',');
    var i := 0;
    while i < |tokens|
      invariant 0 <= i <= |tokens|
      invariant kvs == OwnOf(ReadPairs(tokens[..i])) && basis == BasisOf(ReadPairs(tokens[..i]))
    {
      assert tokens[..i + 1][..i] == tokens[..i];
      ghost var before := ReadPairs(tokens[..i]);
      match ReadPair(tokens[i]) {
        case None =>
        case Some(p) =>
          OnePair(before, p);
          if IEquals(p.key, "utc") {
            basis := basis.(utc := p.value);
          } else if IEquals(p.key, "gid") {
            basis := basis.(gid := p.value);
          } else if IEquals(p.key, "uid") {
            basis := basis.(uid := p.value);
          } else if IEquals(p.key, "cid") {
            basis := basis.(cid := p.value);
          } else {
            kvs := kvs + [p];
          }
      }
      i := i + 1;
    }
    assert tokens[..i] == tokens;
  }

  /** The loop in which each kind of message takes its fields from the pairs. */
  method ResolveFields(blank: Body, kvs: seq<Pair>) returns (m: Option<Body>)
    ensures m == Assigned(blank, kvs)
  {
    hide Assign;
    var body := blank;
    var i := 0;
    while i < |kvs|
      invariant 0 <= i <= |kvs| && Assigned(blank, kvs[..i]) == Some(body)
    {
      assert kvs[..i + 1][..i] == kvs[..i];
      match Assign(body, kvs[i]) {
        case None =>
          VoidStays(blank, kvs, i + 1);
          return None;
        case Some(next) => body := next;
      }
      i := i + 1;
    }
    assert kvs[..i] == kvs;
    m := Some(body);
  }

  /** The loop of a kind without a Body: it stops at the first number that cannot be read. */
  method ResolveNumbers(kind: Kind, kvs: seq<Pair>, given: Given) returns (ok: bool)
    ensures ok == AllRead(kind, kvs, given)
    ensures ok <==> !AnyUnreadable(kind, kvs, given)
  {
    hide Unreadable;
    ReadFails(kind, kvs, given);
    for i := 0 to |kvs|
      invariant AllRead(kind, kvs[..i], given)
    {
      assert kvs[..i + 1][..i] == kvs[..i];
      if Unreadable(kind, kvs[i], given) {
        return false;
      }
    }
    assert kvs[..|kvs|] == kvs;
    ok := true;
  }

  lemma {:induction false} VoidStays(blank: Body, kvs: seq<Pair>, i: nat)
    requires i <= |kvs| && Assigned(blank, kvs[..i]) == None
    ensures Assigned(blank, kvs) == None
    decreases |kvs|
  {
    if i < |kvs| {
      assert kvs[..|kvs| - 1][..i] == kvs[..i];
      VoidStays(blank, kvs[..|kvs| - 1], i);
    } else {
      assert kvs[..i] == kvs;
    }
  }

  method SkipBlanks(text: string, from: nat) returns (at: nat)
    requires from <= |text|
    ensures from <= at <= |text| && text[at..] == DropAll(text[from..], ' ')
  {
    at := from;
    while at < |text| && text[at] == ' '
      invariant from <= at <= |text| && DropAll(text[at..], ' ') == DropAll(text[from..], ' ')
    {
      assert text[at..][1..] == text[at + 1..];
      at := at + 1;
    }
  }

  method ReadWord(text: string, from: nat) returns (word: string, at: nat)
    requires from <= |text|
    ensures from <= at <= |text|
    ensures var s := text[from..]; var end := IndexOf(s, ' '); word == s[..end] && text[at..] == s[end..]
  {
    word, at := "", from;
    while at < |text| && text[at] != ' '
      invariant from <= at <= |text| && word == text[from..at] && ' ' !in word
    {
      word := word + [text[at]];
      at := at + 1;
    }
    WordEnds(text, from, at);
  }

  /** Walks over leading blanks, the word and the blanks behind it, in the text up to its first NUL. */
  method ResolveLine(rcvd: string, given: Given) returns (r: Resolved)
    ensures r == Resolve(rcvd, given)
  {
    hide KindOf, Assigned, AllRead, ReadPairs, Split, OwnOf, BasisOf, Blank, DropAll, IndexOf;
    var text := rcvd[..IndexOf(rcvd, '\0')];
    var at := SkipBlanks(text, 0);
    assert text[0..] == text;
    var word, end := ReadWord(text, at);
    at := SkipBlanks(text, end);
    var kvs, basis := [], NO_BASE;
    NoBasis();
    if at < |text| {
      kvs, basis := ResolvePairs(text[at..]);
    }
    var kind := KindOf(word);
    if kind == NoKind {
      return Rejected;
    }
    if !HasBody(kind) {
      var ok := ResolveNumbers(kind, kvs, given);
      return if ok then Elsewhere else NullAccess;
    }
    var m := ResolveFields(Blank(kind, given.unset), kvs);
    r := if m.None? then NullAccess else Known(Message(basis, m.value));
  }

  lemma WordEnds(text: string, start: nat, end: nat)
    requires start <= end <= |text| && ' ' !in text[start..end] && (end < |text| ==> text[end] == ' ')
    ensures var s := text[start..]; IndexOf(s, ' ') == end - start && s[..end - start] == text[start..end]
    ensures text[start..][end - start..] == text[end..]
  {
    IndexIs(text[start..end], ' ', text[end..]);
    assert text[start..end] + text[end..] == text[start..];
  }
}
