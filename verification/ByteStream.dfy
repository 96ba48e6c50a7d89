/** Lines cut out of a byte stream that arrives in packets, and a write queue with one write under way at a time. */
module ByteStream {
  import opened Options

  const TCP_PACK_SIZE: int := 1500
  /** Capacity of either ring buffer. */
  const CAPACITY: int := 50 * TCP_PACK_SIZE

  // ---- lines

  /** Position of the first newline, or the length. */
  function Newline(s: string): (r: nat)
    ensures r <= |s| && (r < |s| ==> s[r] == '\n')
    ensures forall i :: 0 <= i < r ==> s[i] != '\n'
  {
    if s == [] || s[0] == '\n' then 0 else 1 + Newline(s[1..])
  }

  lemma {:induction false} NewlineUnique(s: string, r: nat)
    requires r <= |s| && (r < |s| ==> s[r] == '\n') && forall i :: 0 <= i < r ==> s[i] != '\n'
    ensures Newline(s) == r
  {
    if r > 0 {
      assert s[0] != '\n';
      NewlineUnique(s[1..], r - 1);
    }
  }

  function Joined(lines: seq<string>): string
  {
    if lines == [] then "" else Joined(lines[..|lines| - 1]) + lines[|lines| - 1] + "\n"
  }

  lemma JoinedAppended(lines: seq<string>, line: string)
    ensures Joined(lines + [line]) == Joined(lines) + line + "\n"
  {
    assert (lines + [line])[..|lines|] == lines;
  }

  lemma {:induction false} JoinedSplit(lines: seq<string>)
    requires lines != []
    ensures Joined(lines) == lines[0] + "\n" + Joined(lines[1..])
    decreases |lines|
  {
    var n := |lines| - 1;
    if n > 0 {
      JoinedSplit(lines[..n]);
      assert lines[..n][1..] == lines[1..][..n - 1];
    } else {
      assert lines[..0] == [] && lines[1..] == [];
    }
  }

  ghost predicate NoNewline(s: string)
  {
    forall i :: 0 <= i < |s| ==> s[i] != '\n'
  }

  /** The stream, taken apart at its newlines: complete lines and what follows the last of them. */
  ghost predicate Splits(lines: seq<string>, rest: string, stream: string)
  {
    && (forall k :: 0 <= k < |lines| ==> NoNewline(lines[k]))
    && NoNewline(rest)
    && Joined(lines) + rest == stream
  }

  lemma FirstNewline(line: string, tail: string, stream: string)
    requires NoNewline(line) && stream == line + "\n" + tail
    ensures Newline(stream) == |line| < |stream| && stream[..|line|] == line && stream[|line| + 1..] == tail
  {
    hide Newline;
    assert stream[|line|] == '\n';
    forall i | 0 <= i < |line|
      ensures stream[i] != '\n'
    {
      assert stream[i] == line[i];
    }
    NewlineUnique(stream, |line|);
  }

  lemma Regrouped(a: string, b: string, c: string)
    ensures a + "\n" + b + c == a + "\n" + (b + c)
  {
  }

  lemma SplitsFirst(lines: seq<string>, rest: string, stream: string)
    requires Splits(lines, rest, stream)
    ensures lines == [] ==> Newline(stream) == |stream|
    ensures lines != [] ==> Newline(stream) == |lines[0]| < |stream| && stream[..|lines[0]|] == lines[0]
                            && Splits(lines[1..], rest, stream[|lines[0]| + 1..])
  {
    if lines == [] {
      NewlineUnique(stream, |stream|);
    } else {
      hide Joined, Newline, NoNewline;
      JoinedSplit(lines);
      Regrouped(lines[0], Joined(lines[1..]), rest);
      FirstNewline(lines[0], Joined(lines[1..]) + rest, stream);
    }
  }

  /** Every stream can be taken apart in this way. */
  lemma {:induction false} SplitExists(stream: string)
    ensures exists lines, rest :: Splits(lines, rest, stream)
    decreases |stream|
  {
    var pos := Newline(stream);
    if pos == |stream| {
      assert Splits([], stream, stream);
    } else {
      SplitExists(stream[pos + 1..]);
      var lines, rest :| Splits(lines, rest, stream[pos + 1..]);
      var all := [stream[..pos]] + lines;
      JoinedSplit(all);
      assert all[1..] == lines;
      assert stream == stream[..pos] + "\n" + stream[pos + 1..];
      assert Splits(all, rest, stream);
    }
  }

  // ---- receiving

  /** The receiving end of a connection: its ring buffer, whether it is open, and the lines handed on. */
  datatype Conn = Conn(buffer: string, open: bool, lines: seq<string>)

  /** One call of the receive callback. accepts says whether the connection stays open once the last of the lines has
      been resolved and handled, which may depend on all the lines before it; a line that does not fit in a packet
      closes the connection unread. */
  function Handle(accepts: seq<string> -> bool, c: Conn): Conn
    decreases |c.buffer|
  {
    var pos := Newline(c.buffer);
    if !c.open || pos == |c.buffer| then c
    else if pos + 1 > TCP_PACK_SIZE then c.(open := false)
    else
      var line := c.buffer[..pos];
      Handle(accepts, Conn(c.buffer[pos + 1..], accepts(c.lines + [line]), c.lines + [line]))
  }

  function Fed(c: Conn, more: string): Conn
  {
    c.(buffer := c.buffer + more)
  }

  /** Handling what is there first and the rest later comes to the same as handling all of it at once. */
  lemma {:induction false} HandleMore(accepts: seq<string> -> bool, c: Conn, more: string)
    ensures Handle(accepts, Fed(Handle(accepts, c), more)) == Handle(accepts, Fed(c, more))
    decreases |c.buffer|
  {
    hide Newline;
    var pos := Newline(c.buffer);
    if c.open && pos < |c.buffer| {
      MoreBehind(c.buffer, more);
      if pos + 1 <= TCP_PACK_SIZE {
        var line := c.buffer[..pos];
        HandleMore(accepts, Conn(c.buffer[pos + 1..], accepts(c.lines + [line]), c.lines + [line]), more);
      }
    }
  }

  lemma MoreBehind(s: string, more: string)
    requires Newline(s) < |s|
    ensures var pos := Newline(s);
      Newline(s + more) == pos && (s + more)[..pos] == s[..pos] && (s + more)[pos + 1..] == s[pos + 1..] + more
  {
    hide Newline;
    NewlineUnique(s + more, Newline(s));
  }

  lemma LineTaken(before: string, s: string, pos: nat)
    requires pos < |s| && s[pos] == '\n'
    ensures before + s == before + s[..pos] + "\n" + s[pos + 1..]
  {
    assert s == s[..pos] + "\n" + s[pos + 1..];
  }

  lemma {:induction false} HandleConserves(accepts: seq<string> -> bool, c: Conn)
    ensures var h := Handle(accepts, c); Joined(h.lines) + h.buffer == Joined(c.lines) + c.buffer
    ensures var h := Handle(accepts, c); h.open ==> c.open && NoNewline(h.buffer)
    ensures |Handle(accepts, c).buffer| <= |c.buffer|
    decreases |c.buffer|
  {
    hide Joined, Newline;
    var pos := Newline(c.buffer);
    if c.open && pos < |c.buffer| && pos + 1 <= TCP_PACK_SIZE {
      var line := c.buffer[..pos];
      var d := Conn(c.buffer[pos + 1..], accepts(c.lines + [line]), c.lines + [line]);
      HandleConserves(accepts, d);
      JoinedAppended(c.lines, line);
      LineTaken(Joined(c.lines), c.buffer, pos);
    }
  }

  /** The line fits, and the connection stays open after it. */
  predicate Good(accepts: seq<string> -> bool, earlier: seq<string>, line: string)
  {
    |line| + 1 <= TCP_PACK_SIZE && accepts(earlier + [line])
  }

  ghost predicate AllGood(accepts: seq<string> -> bool, earlier: seq<string>, lines: seq<string>)
  {
    forall k :: 0 <= k < |lines| ==> Good(accepts, earlier + lines[..k], lines[k])
  }

  lemma FirstGood(accepts: seq<string> -> bool, earlier: seq<string>, lines: seq<string>)
    requires lines != []
    ensures AllGood(accepts, earlier, lines) <==>
      Good(accepts, earlier, lines[0]) && AllGood(accepts, earlier + [lines[0]], lines[1..])
  {
    hide Good;
    assert earlier + lines[..0] == earlier;
    forall k | 0 <= k < |lines| - 1
      ensures earlier + lines[..k + 1] == earlier + [lines[0]] + lines[1..][..k] && lines[k + 1] == lines[1..][k]
    {
    }
    if Good(accepts, earlier, lines[0]) && AllGood(accepts, earlier + [lines[0]], lines[1..]) {
      forall k | 0 < k < |lines|
        ensures Good(accepts, earlier + lines[..k], lines[k])
      {
        var i := k - 1;
        assert Good(accepts, earlier + [lines[0]] + lines[1..][..i], lines[1..][i]);
        assert earlier + lines[..i + 1] == earlier + [lines[0]] + lines[1..][..i];
      }
    }
  }

  /** What the callback does with the first line. */
  lemma HandleFirst(accepts: seq<string> -> bool, c: Conn, line: string)
    requires c.open && Newline(c.buffer) == |line| < |c.buffer| && c.buffer[..|line|] == line
    ensures Handle(accepts, c) ==
      if |line| + 1 > TCP_PACK_SIZE then c.(open := false)
      else Handle(accepts, Conn(c.buffer[|line| + 1..], accepts(c.lines + [line]), c.lines + [line]))
  {
    hide Newline;
  }

  lemma HandleNothing(accepts: seq<string> -> bool, c: Conn)
    requires !c.open || Newline(c.buffer) == |c.buffer|
    ensures Handle(accepts, c) == c
  {
    hide Newline;
  }

  /** The connection stays open exactly when every complete line is good, and then the lines handed on are those
      of the stream and the buffer is what follows them. */
  lemma {:induction false} HandleSplits(accepts: seq<string> -> bool, c: Conn, lines: seq<string>, rest: string)
    requires c.open && Splits(lines, rest, c.buffer)
    ensures Handle(accepts, c).open <==> AllGood(accepts, c.lines, lines)
    ensures AllGood(accepts, c.lines, lines) ==> Handle(accepts, c) == Conn(rest, true, c.lines + lines)
    decreases |lines|
  {
    hide Splits, Handle, Newline;
    SplitsFirst(lines, rest, c.buffer);
    if lines == [] {
      RestOnly(rest, c.buffer);
      HandleNothing(accepts, c);
      assert c.lines + lines == c.lines;
    } else {
      hide AllGood;
      var line := lines[0];
      var d := Conn(c.buffer[|line| + 1..], accepts(c.lines + [line]), c.lines + [line]);
      FirstGood(accepts, c.lines, lines);
      HandleFirst(accepts, c, line);
      if Good(accepts, c.lines, line) {
        HandleSplits(accepts, d, lines[1..], rest);
        assert d.lines + lines[1..] == c.lines + lines;
      } else if |line| + 1 <= TCP_PACK_SIZE {
        HandleNothing(accepts, d);
      }
    }
  }

  lemma RestOnly(rest: string, stream: string)
    requires Splits([], rest, stream)
    ensures rest == stream
  {
  }

  /** A ring buffer that is full overwrites its oldest bytes. */
  function Pushed(buffer: string, more: string): string
  {
    var all := buffer + more;
    if |all| <= CAPACITY then all else all[|all| - CAPACITY..]
  }

  datatype Event = Packet(bytes: string) | Callback

  datatype Receiver = Receiver(conn: Conn, received: string)

  function Next(accepts: seq<string> -> bool, r: Receiver, e: Event): Receiver
  {
    match e
    case Packet(bytes) => Receiver(r.conn.(buffer := Pushed(r.conn.buffer, bytes)), r.received + bytes)
    case Callback => r.(conn := Handle(accepts, r.conn))
  }

  const OPENED: Receiver := Receiver(Conn("", true, []), "")

  /** Packets arrive and callbacks run in any order. */
  function Run(accepts: seq<string> -> bool, es: seq<Event>): Receiver
  {
    if es == [] then OPENED else Next(accepts, Run(accepts, es[..|es| - 1]), es[|es| - 1])
  }

  predicate Fits(r: Receiver, e: Event)
  {
    e.Packet? ==> |r.conn.buffer| + |e.bytes| <= CAPACITY
  }

  /** No packet overflows the ring buffer. */
  ghost predicate Lossless(accepts: seq<string> -> bool, es: seq<Event>)
  {
    es == [] || (Lossless(accepts, es[..|es| - 1]) && Fits(Run(accepts, es[..|es| - 1]), es[|es| - 1]))
  }

  /** Lines handed on and buffer together are the stream received exactly when no packet overflowed the buffer. */
  lemma {:induction false} RunConserves(accepts: seq<string> -> bool, es: seq<Event>)
    ensures var r := Run(accepts, es);
      && (Joined(r.conn.lines) + r.conn.buffer == r.received <==> Lossless(accepts, es))
      && |Joined(r.conn.lines)| + |r.conn.buffer| <= |r.received|
      && (|Joined(r.conn.lines)| + |r.conn.buffer| == |r.received| ==> Lossless(accepts, es))
    decreases |es|
  {
    hide Handle, Joined;
    if es == [] {
      JoinedNone();
    } else {
      var before, e := es[..|es| - 1], es[|es| - 1];
      RunConserves(accepts, before);
      var r := Run(accepts, before);
      HandleConserves(accepts, r.conn);
      HandleLengths(accepts, r.conn);
    }
  }

  lemma JoinedNone()
    ensures Joined([]) == ""
  {
  }

  lemma HandleLengths(accepts: seq<string> -> bool, c: Conn)
    ensures var h := Handle(accepts, c); |Joined(h.lines)| + |h.buffer| == |Joined(c.lines)| + |c.buffer|
  {
    hide Handle, Joined;
    HandleConserves(accepts, c);
    var h := Handle(accepts, c);
    assert |Joined(h.lines) + h.buffer| == |Joined(c.lines) + c.buffer|;
  }

  lemma {:induction false} RunIsWhole(accepts: seq<string> -> bool, es: seq<Event>)
    requires Lossless(accepts, es)
    ensures Handle(accepts, Run(accepts, es).conn) == Handle(accepts, Conn(Run(accepts, es).received, true, []))
    decreases |es|
  {
    hide Handle;
    if es != [] {
      var before, e := es[..|es| - 1], es[|es| - 1];
      var r := Run(accepts, before);
      RunIsWhole(accepts, before);
      match e
      case Packet(bytes) =>
        HandleMore(accepts, r.conn, bytes);
        HandleMore(accepts, Conn(r.received, true, []), bytes);
      case Callback =>
        HandleMore(accepts, r.conn, "");
        assert Fed(Handle(accepts, r.conn), "") == Handle(accepts, r.conn) && Fed(r.conn, "") == r.conn;
    }
  }

  /** What a full ring buffer holds are the newest bytes: the oldest are lost, and no more of them than needed. */
  lemma PushedKeeps(buffer: string, more: string) returns (lost: string)
    ensures lost + Pushed(buffer, more) == buffer + more
    ensures lost == "" <==> |buffer| + |more| <= 75000
    ensures lost != "" ==> |Pushed(buffer, more)| == 75000
  {
    var all := buffer + more;
    lost := if |all| <= CAPACITY then "" else all[..|all| - CAPACITY];
  }

  /** In every run, with or without overflow, the buffer is the end of what was received. */
  lemma {:induction false} RunSuffix(accepts: seq<string> -> bool, es: seq<Event>) returns (gone: string)
    ensures var r := Run(accepts, es); gone + r.conn.buffer == r.received && |r.conn.buffer| <= 75000
    decreases |es|
  {
    hide Handle, Pushed;
    gone := "";
    if es != [] {
      var before := es[..|es| - 1];
      var r := Run(accepts, before);
      var head := RunSuffix(accepts, before);
      match es[|es| - 1]
      case Packet(bytes) =>
        var lost := PushedKeeps(r.conn.buffer, bytes);
        gone := head + lost;
        assert head + (lost + Pushed(r.conn.buffer, bytes)) == head + r.conn.buffer + bytes;
        assert gone + Pushed(r.conn.buffer, bytes) == head + (lost + Pushed(r.conn.buffer, bytes));
      case Callback =>
        var taken := HandleTakes(accepts, r.conn);
        gone := head + taken;
        assert gone + Handle(accepts, r.conn).buffer == head + (taken + Handle(accepts, r.conn).buffer);
    }
  }

  lemma {:induction false} HandleTakes(accepts: seq<string> -> bool, c: Conn) returns (taken: string)
    ensures taken + Handle(accepts, c).buffer == c.buffer
    decreases |c.buffer|
  {
    hide Newline;
    taken := "";
    var pos := Newline(c.buffer);
    if c.open && pos < |c.buffer| && pos + 1 <= TCP_PACK_SIZE {
      var line := c.buffer[..pos];
      var rest := HandleTakes(accepts, Conn(c.buffer[pos + 1..], accepts(c.lines + [line]), c.lines + [line]));
      taken := c.buffer[..pos + 1] + rest;
      assert c.buffer == c.buffer[..pos + 1] + c.buffer[pos + 1..];
    }
  }

  /** However the bytes were cut into packets and however the callbacks fell between them: once the callback has
      run, two connections that received the same bytes have handed on the same lines. */
  lemma PacketsDoNotMatter(accepts: seq<string> -> bool, es: seq<Event>, fs: seq<Event>)
    requires Lossless(accepts, es) && Lossless(accepts, fs)
    requires Run(accepts, es).received == Run(accepts, fs).received
    ensures Run(accepts, es + [Callback]) == Run(accepts, fs + [Callback])
  {
    hide Handle;
    RunIsWhole(accepts, es);
    RunIsWhole(accepts, fs);
    assert (es + [Callback])[..|es|] == es && (fs + [Callback])[..|fs|] == fs;
  }

  /** After a callback: the connection is open exactly when all complete lines received are good, and then these
      lines are what was handed on, and the buffer holds no newline. */
  lemma RunSplits(accepts: seq<string> -> bool, es: seq<Event>, lines: seq<string>, rest: string)
    requires Lossless(accepts, es) && Splits(lines, rest, Run(accepts, es).received)
    ensures var c := Run(accepts, es + [Callback]).conn;
      && (c.open <==> AllGood(accepts, [], lines))
      && (c.open ==> c == Conn(rest, true, lines))
  {
    hide Handle, Splits;
    RunIsWhole(accepts, es);
    HandleSplits(accepts, Conn(Run(accepts, es).received, true, []), lines, rest);
    assert (es + [Callback])[..|es|] == es;
    assert [] + lines == lines;
  }

  /** For every run without overflow: the stream has a last newline, and after a callback the connection is open
      exactly when all the lines up to there are good; then they were handed on and the rest is in the buffer. */
  lemma RunLines(accepts: seq<string> -> bool, es: seq<Event>)
    requires Lossless(accepts, es)
    ensures var c := Run(accepts, es + [Callback]).conn;
      exists lines, rest :: Splits(lines, rest, Run(accepts, es).received)
        && (c.open <==> AllGood(accepts, [], lines)) && (c.open ==> c == Conn(rest, true, lines))
  {
    hide Run, Splits, AllGood;
    SplitExists(Run(accepts, es).received);
    var lines, rest :| Splits(lines, rest, Run(accepts, es).received);
    RunSplits(accepts, es, lines, rest);
  }

  // ---- the loop that does not ask whether the connection is still open

  /** One round of the observation system's receive loop while there is a newline. */
  function Round(buffer: string): string
  {
    var pos := Newline(buffer);
    if pos == |buffer| || pos + 1 > TCP_PACK_SIZE then buffer else buffer[pos + 1..]
  }

  function Rounds(buffer: string, n: nat): string
  {
    if n == 0 then buffer else Rounds(Round(buffer), n - 1)
  }

  /** The loop comes to an end exactly when no complete line is too long for a packet. */
  lemma RoundsEnd(buffer: string, lines: seq<string>, rest: string)
    requires Splits(lines, rest, buffer)
    ensures (exists n: nat :: Newline(Rounds(buffer, n)) == |Rounds(buffer, n)|)
            <==> forall k :: 0 <= k < |lines| ==> |lines[k]| + 1 <= TCP_PACK_SIZE
  {
    if forall k :: 0 <= k < |lines| ==> |lines[k]| + 1 <= TCP_PACK_SIZE {
      RoundsReach(buffer, lines, rest);
    } else {
      var k :| 0 <= k < |lines| && |lines[k]| + 1 > TCP_PACK_SIZE;
      forall n: nat
        ensures Newline(Rounds(buffer, n)) < |Rounds(buffer, n)|
      {
        RoundsStick(buffer, lines, rest, k, n);
      }
    }
  }

  lemma {:induction false} RoundsReach(buffer: string, lines: seq<string>, rest: string)
    requires Splits(lines, rest, buffer) && forall k :: 0 <= k < |lines| ==> |lines[k]| + 1 <= TCP_PACK_SIZE
    ensures Rounds(buffer, |lines|) == rest && Newline(rest) == |rest|
    decreases |lines|
  {
    SplitsFirst(lines, rest, buffer);
    if lines == [] {
      assert rest == buffer;
    } else {
      RoundsReach(Round(buffer), lines[1..], rest);
    }
  }

  lemma {:induction false} RoundsStick(buffer: string, lines: seq<string>, rest: string, k: int, n: nat)
    requires Splits(lines, rest, buffer) && 0 <= k < |lines| && |lines[k]| + 1 > TCP_PACK_SIZE
    ensures Newline(Rounds(buffer, n)) < |Rounds(buffer, n)|
    decreases n
  {
    hide Splits;
    SplitsFirst(lines, rest, buffer);
    if n > 0 {
      if |lines[0]| + 1 > TCP_PACK_SIZE {
        RoundsStick(buffer, lines, rest, k, n - 1);
      } else {
        RoundsStick(Round(buffer), lines[1..], rest, k - 1, n - 1);
      }
    }
  }

  /** A line of 1500 characters, which fills a packet without its newline, keeps that loop going forever. */
  lemma LongLineSticks(n: nat)
    ensures var buffer := seq(1500, _ => 'a') + "\n"; Newline(Rounds(buffer, n)) < |Rounds(buffer, n)|
  {
    var line := seq(1500, _ => 'a');
    assert Joined([line]) + "" == line + "\n" by {
      assert [line][..0] == [];
      assert "" + line == line;
    }
    RoundsStick(line + "\n", [line], "", 0, n);
  }

  // ---- writing

  /** The sending end: its buffer, the bytes of the write under way, whether a write has failed,
      and the bytes accepted and sent so far. */
  datatype Sender = Sender(buffer: string, writing: Option<string>, failed: bool, accepted: string, sent: string)

  datatype WriteEvent = Write(data: string) | Written(n: int) | WriteFailed

  function StartWrite(s: Sender): Sender
  {
    if s.buffer == "" then s else s.(writing := Some(s.buffer))
  }

  /** As much of the data as fits. */
  function Taken(s: Sender, data: string): string
    requires |s.buffer| <= CAPACITY
  {
    if |data| <= CAPACITY - |s.buffer| then data else data[..CAPACITY - |s.buffer|]
  }

  /** The longest part of the data that fits. */
  lemma TakenFits(s: Sender, data: string) returns (refused: string)
    requires |s.buffer| <= CAPACITY
    ensures Taken(s, data) + refused == data && |s.buffer + Taken(s, data)| <= 75000
    ensures refused != "" ==> |s.buffer + Taken(s, data)| == 75000
  {
    refused := data[|Taken(s, data)|..];
  }

  predicate WriteEnabled(s: Sender, e: WriteEvent)
  {
    match e
    case Write(_) => true
    case Written(n) => s.writing.Some? && 0 < n <= |s.writing.value|
    case WriteFailed => s.writing.Some?
  }

  function NextWrite(s: Sender, e: WriteEvent): Sender
    requires |s.buffer| <= CAPACITY && WriteEnabled(s, e)
    requires s.writing.Some? ==> |s.writing.value| <= |s.buffer|
  {
    match e
    case Write(data) =>
      var t := s.(buffer := s.buffer + Taken(s, data), accepted := s.accepted + Taken(s, data));
      if data != "" && s.buffer == "" then StartWrite(t) else t
    case Written(n) =>
      StartWrite(s.(buffer := s.buffer[n..], writing := None, sent := s.sent + s.writing.value[..n]))
    case WriteFailed => s.(writing := None, failed := true)
  }

  /** Nothing is lost or reordered, and there is one write under way exactly while there is something to send
      and no write has failed. */
  ghost predicate Orderly(s: Sender)
  {
    && |s.buffer| <= CAPACITY
    && s.sent + s.buffer == s.accepted
    && (s.writing.Some? ==> s.writing.value <= s.buffer && s.writing.value != "")
    && (s.writing.Some? <==> s.buffer != "" && !s.failed)
    && (s.failed ==> s.buffer != "")
  }

  lemma WriteKeeps(s: Sender, e: WriteEvent)
    requires Orderly(s) && WriteEnabled(s, e)
    ensures Orderly(NextWrite(s, e))
  {
    match e
    case Write(data) =>
      assert s.sent + (s.buffer + Taken(s, data)) == s.accepted + Taken(s, data);
    case Written(n) =>
      assert s.buffer == s.buffer[..n] + s.buffer[n..];
      assert s.writing.value[..n] == s.buffer[..n];
    case WriteFailed =>
  }

  /** States of the sending end over a run from the freshly opened connection. */
  ghost predicate WriteRun(ss: seq<Sender>, es: seq<WriteEvent>)
  {
    && |ss| == |es| + 1
    && ss[0] == Sender("", None, false, "", "")
    && forall i :: 0 <= i < |es| ==> Follows(ss[i], es[i], ss[i + 1])
  }

  ghost predicate Follows(s: Sender, e: WriteEvent, t: Sender)
  {
    && |s.buffer| <= CAPACITY && WriteEnabled(s, e) && (s.writing.Some? ==> |s.writing.value| <= |s.buffer|)
    && t == NextWrite(s, e)
  }

  lemma {:induction false} RunOrderly(ss: seq<Sender>, es: seq<WriteEvent>, i: nat)
    requires WriteRun(ss, es) && i < |ss|
    ensures Orderly(ss[i])
    decreases i
  {
    hide NextWrite, Orderly;
    if i == 0 {
      StartOrderly();
    } else {
      RunOrderly(ss, es, i - 1);
      assert Follows(ss[i - 1], es[i - 1], ss[i]);
      WriteKeeps(ss[i - 1], es[i - 1]);
    }
  }

  lemma StartOrderly()
    ensures Orderly(Sender("", None, false, "", ""))
  {
  }

  /** After a failed write nothing is sent any more, whatever is written later. */
  lemma {:induction false} FailedStays(ss: seq<Sender>, es: seq<WriteEvent>, i: nat, j: nat)
    requires WriteRun(ss, es) && i <= j < |ss| && ss[i].failed
    ensures ss[j].failed && ss[j].sent == ss[i].sent
    decreases j
  {
    if i < j {
      FailedStays(ss, es, i, j - 1);
      RunOrderly(ss, es, j - 1);
      assert Follows(ss[j - 1], es[j - 1], ss[j]);
    }
  }

  // ---- the client object

  ghost predicate MatchesAt(s: string, flag: string, pos: int)
  {
    0 <= pos <= |s| - |flag| && s[pos..pos + |flag|] == flag
  }

  class TcpClient {
    var crcbufRead: string
    var crcbufWrite: string
    var writing: Option<string>
    var failed: bool
    var open: bool
    var received: string
    var accepted: string
    var sent: string

    constructor ()
      ensures Incoming([]) == OPENED && Outgoing() == Sender("", None, false, "", "") && Valid()
    {
      crcbufRead, crcbufWrite, writing, failed, open := "", "", None, false, true;
      received, accepted, sent := "", "", "";
    }

    ghost function Incoming(lines: seq<string>): Receiver
      reads this
    {
      Receiver(Conn(crcbufRead, open, lines), received)
    }

    ghost function Outgoing(): Sender
      reads this
    {
      Sender(crcbufWrite, writing, failed, accepted, sent)
    }

    ghost predicate Valid()
      reads this
    {
      |crcbufRead| <= CAPACITY && Orderly(Outgoing())
    }

    /** Copies up to n bytes from position from on, and drops them with everything before them. */
    method Read(data: array<char>, n: int, from: int) returns (count: int)
      requires n <= data.Length
      modifies this`crcbufRead, data
      ensures count == if n <= 0 || from < 0 then 0
                       else if |old(crcbufRead)| > from + n then n else |old(crcbufRead)| - from
      ensures count <= 0 ==> crcbufRead == old(crcbufRead) && data[..] == old(data[..])
      ensures count > 0 ==> count <= n && data[..count] == old(crcbufRead)[from..from + count]
      ensures count > 0 ==> crcbufRead == old(crcbufRead)[from + count..] && data[count..] == old(data[count..])
    {
      if n <= 0 || from < 0 {
        return 0;
      }
      count := if |crcbufRead| > from + n then n else |crcbufRead| - from;
      if count > 0 {
        var i, j := 0, from;
        while i < count
          invariant 0 <= i <= count && j == from + i
          invariant crcbufRead == old(crcbufRead)
          invariant data[..i] == crcbufRead[from..j] && data[count..] == old(data[count..])
        {
          data[i] := crcbufRead[j];
          i, j := i + 1, j + 1;
        }
        crcbufRead := crcbufRead[j..];
      }
    }

    /** First place from position from on where the flag stands, or -1. */
    method Lookup(flag: string, from: int) returns (pos: int)
      ensures pos != -1 ==> flag != "" && 0 <= from <= pos && MatchesAt(crcbufRead, flag, pos)
      ensures forall p :: 0 <= from <= p && flag != "" && (pos == -1 || p < pos) ==> !MatchesAt(crcbufRead, flag, p)
    {
      var n := |flag|;
      if n <= 0 || from < 0 {
        return -1;
      }
      var end := |crcbufRead| - n;
      pos := from;
      while pos <= end
        invariant from <= pos
        invariant forall p :: from <= p < pos ==> !MatchesAt(crcbufRead, flag, p)
      {
        var i, j := 0, pos;
        while i < n && flag[i] == crcbufRead[j]
          invariant 0 <= i <= n && j == pos + i && crcbufRead[pos..j] == flag[..i]
          decreases n - i
        {
          i, j := i + 1, j + 1;
        }
        if i == n {
          return;
        }
        assert crcbufRead[pos..pos + n][i] != flag[i];
        pos := pos + 1;
      }
      return -1;
    }

    /** A packet has been read from the socket. */
    method HandleRead(packet: string, ghost lines: seq<string>, ghost accepts: seq<string> -> bool)
      requires Valid()
      modifies this`crcbufRead, this`received
      ensures Valid()
      ensures Incoming(lines) == Next(accepts, old(Incoming(lines)), Packet(packet))
    {
      var i := 0;
      while i < |packet|
        invariant received == old(received)
        invariant 0 <= i <= |packet| && crcbufRead == Pushed(old(crcbufRead), packet[..i]) && |crcbufRead| <= CAPACITY
      {
        PushedOne(old(crcbufRead), packet[..i], packet[i]);
        assert packet[..i + 1] == packet[..i] + [packet[i]];
        if |crcbufRead| == CAPACITY {
          crcbufRead := crcbufRead[1..];
        }
        crcbufRead := crcbufRead + [packet[i]];
        i := i + 1;
      }
      assert packet[..i] == packet;
      received := received + packet;
    }

    method Write(data: string) returns (count: int)
      requires Valid()
      modifies this`crcbufWrite, this`writing, this`accepted
      ensures Valid() && Outgoing() == NextWrite(old(Outgoing()), WriteEvent.Write(data))
      ensures count == if |data| <= CAPACITY - |old(crcbufWrite)| then |data| else CAPACITY - |old(crcbufWrite)|
    {
      WriteKeeps(Outgoing(), WriteEvent.Write(data));
      if |data| <= 0 {
        return 0;
      }
      count := |data|;
      var wait := |crcbufWrite|;
      var capacity := CAPACITY - wait;
      if count > capacity {
        count := capacity;
      }
      var i := 0;
      while i < count
        invariant writing == old(writing) && accepted == old(accepted)
        invariant 0 <= i <= count && crcbufWrite == old(crcbufWrite) + data[..i]
      {
        crcbufWrite := crcbufWrite + [data[i]];
        i := i + 1;
      }
      assert data[..count] == Taken(old(Outgoing()), data);
      accepted := accepted + data[..count];
      if wait == 0 {
        BeginWrite();
      }
    }

    method BeginWrite()
      modifies this`writing
      ensures Outgoing() == StartWrite(old(Outgoing()))
    {
      var towrite := |crcbufWrite|;
      if towrite != 0 {
        writing := Some(crcbufWrite);
      }
    }

    /** The write under way has ended after n bytes, or has failed. */
    method HandleWrite(ok: bool, n: int)
      requires Valid() && WriteEnabled(Outgoing(), if ok then Written(n) else WriteFailed)
      modifies this`crcbufWrite, this`writing, this`failed, this`sent
      ensures Valid() && Outgoing() == NextWrite(old(Outgoing()), if ok then Written(n) else WriteFailed)
    {
      WriteKeeps(Outgoing(), if ok then Written(n) else WriteFailed);
      if ok {
        sent := sent + writing.value[..n];
        writing := None;
        crcbufWrite := crcbufWrite[n..];
        BeginWrite();
      } else {
        writing := None;
        failed := true;
      }
    }

    method Close()
      modifies this`open
      ensures !open
    {
      open := false;
    }
  }

  lemma PushedOne(buffer: string, more: string, c: char)
    requires |buffer| <= CAPACITY
    ensures var p := Pushed(buffer, more);
      Pushed(buffer, more + [c]) == (if |p| == CAPACITY then p[1..] else p) + [c]
  {
    var all := buffer + more;
    assert buffer + (more + [c]) == all + [c];
    if |all| > CAPACITY {
      assert (all + [c])[|all| + 1 - CAPACITY..] == all[|all| - CAPACITY..][1..] + [c];
    }
  }

  /** The general control's receive callback: resolves and hands on every complete line. */
  method OnTcpReceive(client: TcpClient, handedOn: seq<string>, accepts: seq<string> -> bool)
    returns (lines: seq<string>)
    modifies client
    ensures client.Incoming(lines) == Next(accepts, old(client.Incoming(handedOn)), Callback)
    ensures client.Outgoing() == old(client.Outgoing())
  {
    hide MatchesAt, Newline, Orderly, Handle;
    var buff := new char[TCP_PACK_SIZE];
    lines := handedOn;
    while client.open
      invariant Handle(accepts, Conn(client.crcbufRead, client.open, lines))
                == Handle(accepts, old(client.Incoming(handedOn)).conn)
      invariant client.received == old(client.received) && client.Outgoing() == old(client.Outgoing())
      decreases client.open, |client.crcbufRead|
    {
      var pos := client.Lookup("\n", 0);
      FoundNewline(client.crcbufRead, pos);
      if pos < 0 {
        break;
      }
      ghost var before := client.crcbufRead;
      if pos + 1 > TCP_PACK_SIZE {
        HandleFirst(accepts, Conn(before, true, lines), before[..pos]);
        client.Close();
        HandleNothing(accepts, Conn(before, false, lines));
      } else {
        var count := client.Read(buff, pos + 1, 0);
        assert buff[..pos] == buff[..count][..pos] == before[..pos];
        var line := buff[..pos];
        HandleFirst(accepts, Conn(before, true, lines), line);
        lines := lines + [line];
        if !accepts(lines) {
          client.Close();
        }
      }
    }
    HandleNothing(accepts, Conn(client.crcbufRead, client.open, lines));
  }

  lemma FoundNewline(s: string, pos: int)
    requires pos != -1 ==> 0 <= pos && MatchesAt(s, "\n", pos)
    requires forall p :: 0 <= p && (pos == -1 || p < pos) ==> !MatchesAt(s, "\n", p)
    ensures Newline(s) == if pos == -1 then |s| else pos
  {
    hide Newline, MatchesAt;
    var end := if pos == -1 then |s| else pos;
    forall i | 0 <= i < end && i < |s|
      ensures s[i] != '\n'
    {
      NewlineAt(s, i);
    }
    NewlineAt(s, end);
    NewlineUnique(s, end);
  }

  lemma NewlineAt(s: string, i: int)
    ensures MatchesAt(s, "\n", i) <==> 0 <= i < |s| && s[i] == '\n'
  {
    if 0 <= i < |s| {
      assert s[i..i + 1] == [s[i]];
      assert "\n"[0] == '\n';
    }
  }
}
