/** Messages sent over a byte stream: what the receiver resolves is what was printed. */
module KVStream {
  import opened KVText
  import opened KVMessages
  import B = ByteStream

  /** The connection stays open as long as lines can be resolved. */
  function Accepts(given: Given): seq<string> -> bool
  {
    lines => lines != [] && (var r := Resolve(lines[|lines| - 1], given); r.Known? || r.Elsewhere?)
  }

  function Lines(ms: seq<Message>): (r: seq<string>)
    ensures |r| == |ms| && forall i :: 0 <= i < |ms| ==> r[i] == Line(ms[i])
  {
    seq(|ms|, i requires 0 <= i < |ms| => Line(ms[i]))
  }

  function Sent(ms: seq<Message>): string
  {
    if ms == [] then "" else Sent(ms[..|ms| - 1]) + ToString(ms[|ms| - 1])
  }

  /** The message can be sent: clean fields without newlines, and no longer than a packet. */
  ghost predicate Sendable(m: Message)
  {
    Clean(m) && B.NoNewline(Line(m)) && |ToString(m)| <= B.TCP_PACK_SIZE
  }

  lemma {:induction false} SentIsJoined(ms: seq<Message>)
    ensures Sent(ms) == B.Joined(Lines(ms))
    decreases |ms|
  {
    hide Line;
    if ms != [] {
      var n := |ms| - 1;
      SentIsJoined(ms[..n]);
      assert Lines(ms)[..n] == Lines(ms[..n]);
      assert Sent(ms[..n]) + ToString(ms[n]) == Sent(ms[..n]) + Line(ms[n]) + "\n";
    }
  }

  lemma LineGood(m: Message, earlier: seq<string>, given: Given)
    requires Sendable(m)
    ensures B.Good(Accepts(given), earlier, Line(m))
    ensures Resolve(Line(m), given) == Known(Message(m.base, Printed(m.body)))
  {
    hide Resolve, Line, Clean;
    LineReadBack(m, "", given);
    assert Line(m) + "" == Line(m);
  }

  /** However the printed messages are cut into packets, after the callback the receiver has been handed one line
      for each message, and every line resolves to the message it was printed from. */
  lemma MessagesArrive(ms: seq<Message>, es: seq<B.Event>, given: Given)
    requires forall i :: 0 <= i < |ms| ==> Sendable(ms[i])
    requires B.Lossless(Accepts(given), es) && B.Run(Accepts(given), es).received == Sent(ms)
    ensures var c := B.Run(Accepts(given), es + [B.Callback]).conn;
      && c.open && c.buffer == "" && |c.lines| == |ms|
      && forall i :: 0 <= i < |ms| ==> Resolve(c.lines[i], given) == Known(Message(ms[i].base, Printed(ms[i].body)))
  {
    hide Resolve, Line, Clean, Sendable, B.Run, B.Lossless, B.Good;
    var accepts := Accepts(given);
    SentIsJoined(ms);
    forall i | 0 <= i < |ms|
      ensures B.Good(accepts, [] + Lines(ms)[..i], Lines(ms)[i]) && B.NoNewline(Lines(ms)[i])
      ensures Resolve(Lines(ms)[i], given) == Known(Message(ms[i].base, Printed(ms[i].body)))
    {
      LineGood(ms[i], [] + Lines(ms)[..i], given);
      OneLine(ms[i]);
    }
    assert B.Joined(Lines(ms)) + "" == B.Joined(Lines(ms));
    assert B.Splits(Lines(ms), "", Sent(ms));
    B.RunSplits(accepts, es, Lines(ms), "");
  }

  lemma OneLine(m: Message)
    requires Sendable(m)
    ensures B.NoNewline(Line(m))
  {
  }
}
