/** The queue of commands that wait for an answer: cyclic serials, acknowledgement and resending on a timer. */
module ResendQueue {

  const MAX_RETRY: int := 3
  /** Serials run from 1 to 99999 and start over. */
  const SERIALS: int := 99999

  const MOUNT: int := 0
  const FOCUS: int := 1

  /** A queued command. id is the number of the command counted from the first one ever issued;
      no operation looks at it, it only says which command an entry is. */
  datatype Item = Item(serno: int, devtype: int, retry: int, cmd: string, id: nat)

  /** The queue, the next serial, every command issued so far, and the resent ones in order. */
  datatype State = State(items: seq<Item>, serno: int, issued: seq<Item>, resent: seq<Item>)

  datatype Event =
    | Issue(devtype: int, cmd: string)
    | Answer(serno: int)
    | Offline(devtype: int)
    | Timeout(mount: bool, focus: bool)

  function NextSerno(serno: int): int
  {
    if serno + 1 == SERIALS + 1 then 1 else serno + 1
  }

  /** Without the first entry of that serial. */
  function WithoutSerno(items: seq<Item>, serno: int): (r: seq<Item>)
  {
    if items == [] then []
    else if items[0].serno == serno then items[1..]
    else [items[0]] + WithoutSerno(items[1..], serno)
  }

  function WithoutDevice(items: seq<Item>, devtype: int): (r: seq<Item>)
  {
    if items == [] then []
    else
      var n := |items| - 1;
      WithoutDevice(items[..n], devtype) + if items[n].devtype == devtype then [] else [items[n]]
  }

  predicate Reachable(devtype: int, mount: bool, focus: bool)
  {
    (devtype == MOUNT && mount) || (devtype == FOCUS && focus)
  }

  /** The queue after one expired wait: the head is tried once more, and dropped with its last try. */
  function Retried(items: seq<Item>): seq<Item>
  {
    if items == [] then []
    else if items[0].retry + 1 > MAX_RETRY then items[1..]
    else items[0 := items[0].(retry := items[0].retry + 1)]
  }

  function Next(s: State, e: Event): State
  {
    match e
    case Issue(devtype, cmd) =>
      var item := Item(s.serno, devtype, 0, cmd, |s.issued|);
      State(s.items + [item], NextSerno(s.serno), s.issued + [item], s.resent)
    case Answer(serno) => s.(items := WithoutSerno(s.items, serno))
    case Offline(devtype) => s.(items := WithoutDevice(s.items, devtype))
    case Timeout(mount, focus) =>
      s.(items := Retried(s.items),
         resent := if s.items != [] && Reachable(s.items[0].devtype, mount, focus)
                   then s.resent + [s.items[0].(retry := 0)] else s.resent)
  }

  const START: State := State([], 1, [], [])

  function Run(es: seq<Event>): State
  {
    if es == [] then START else Next(Run(es[..|es| - 1]), es[|es| - 1])
  }

  // ---- what every step keeps

  /** Only the head has been tried, at most three times so far. */
  ghost predicate HeadOnly(items: seq<Item>)
  {
    && (items != [] ==> 0 <= items[0].retry <= MAX_RETRY)
    && forall i :: 0 < i < |items| ==> items[i].retry == 0
  }

  ghost predicate Increasing(items: seq<Item>)
  {
    forall i, j :: 0 <= i < j < |items| ==> items[i].id < items[j].id
  }

  /** Every entry is a command that was issued under its number, apart from its count of tries. */
  ghost predicate From(items: seq<Item>, issued: seq<Item>)
  {
    forall i :: 0 <= i < |items| ==> items[i].id < |issued| && items[i].(retry := 0) == issued[items[i].id]
  }

  function SernoOf(id: nat): int
  {
    1 + id % SERIALS
  }

  ghost predicate Numbered(issued: seq<Item>, serno: int)
  {
    && serno == SernoOf(|issued|)
    && forall k :: 0 <= k < |issued| ==> issued[k].serno == SernoOf(k)
  }

  function Times(id: int, log: seq<Item>): nat
  {
    if log == [] then 0 else Times(id, log[..|log| - 1]) + if log[|log| - 1].id == id then 1 else 0
  }

  /** The tries an entry has left behind; a command that is not queued has none left. */
  ghost predicate Sparing(items: seq<Item>, resent: seq<Item>)
  {
    && (forall id: nat {:trigger Times(id, resent)} :: Times(id, resent) <= MAX_RETRY + 1)
    && forall i :: 0 <= i < |items| ==> Times(items[i].id, resent) <= items[i].retry
  }

  ghost predicate Untried(from: nat, resent: seq<Item>)
  {
    forall id: int {:trigger Times(id, resent)} :: id >= from ==> Times(id, resent) == 0
  }

  ghost predicate Valid(s: State)
  {
    && HeadOnly(s.items) && Increasing(s.items)
    && From(s.items, s.issued) && From(s.resent, s.issued)
    && Numbered(s.issued, s.serno) && Sparing(s.items, s.resent) && Untried(|s.issued|, s.resent)
  }

  // ---- removing entries

  /** b is a with entries left out. */
  ghost predicate Subsequence(b: seq<Item>, a: seq<Item>, at: seq<int>)
  {
    && |at| == |b|
    && (forall i :: 0 <= i < |at| ==> 0 <= at[i] < |a| && b[i] == a[at[i]])
    && forall i, j :: 0 <= i < j < |at| ==> at[i] < at[j]
  }

  /** Leaving entries out keeps whatever holds of a queue: only the first can have been tried. */
  lemma SubsequenceKeeps(b: seq<Item>, a: seq<Item>, at: seq<int>, issued: seq<Item>, resent: seq<Item>)
    requires Subsequence(b, a, at)
    ensures HeadOnly(a) ==> HeadOnly(b)
    ensures Increasing(a) ==> Increasing(b)
    ensures From(a, issued) ==> From(b, issued)
    ensures Sparing(a, resent) ==> Sparing(b, resent)
  {
    if HeadOnly(a) {
      forall i | 0 < i < |b|
        ensures b[i].retry == 0
      {
        assert at[0] < at[i];
      }
    }
  }

  lemma ShiftedAt(b: seq<Item>, a: seq<Item>, rest: seq<int>) returns (at: seq<int>)
    requires a != [] && Subsequence(b, a[1..], rest)
    ensures Subsequence([a[0]] + b, a, at)
  {
    at := [0] + seq(|rest|, i requires 0 <= i < |rest| => rest[i] + 1);
    forall i | 0 <= i < |at|
      ensures 0 <= at[i] < |a| && ([a[0]] + b)[i] == a[at[i]]
    {
      if i > 0 {
        assert b[i - 1] == a[1..][rest[i - 1]];
      }
    }
  }

  lemma {:induction false} SernoLeftOut(items: seq<Item>, serno: int) returns (at: seq<int>)
    ensures Subsequence(WithoutSerno(items, serno), items, at)
    decreases |items|
  {
    if items == [] {
      at := [];
    } else if items[0].serno == serno {
      at := seq(|items| - 1, i => i + 1);
    } else {
      var rest := SernoLeftOut(items[1..], serno);
      at := ShiftedAt(WithoutSerno(items[1..], serno), items, rest);
    }
  }

  lemma {:induction false} DeviceLeftOut(items: seq<Item>, devtype: int) returns (at: seq<int>)
    ensures Subsequence(WithoutDevice(items, devtype), items, at)
    decreases |items|
  {
    hide Subsequence;
    if items == [] {
      at := [];
      NothingLeft();
    } else {
      var n := |items| - 1;
      var front := DeviceLeftOut(items[..n], devtype);
      at := if items[n].devtype == devtype then front else front + [n];
      LastLeft(WithoutDevice(items[..n], devtype), items, front, items[n].devtype != devtype);
      assert WithoutDevice(items[..n], devtype) + [] == WithoutDevice(items[..n], devtype);
    }
  }

  lemma NothingLeft()
    ensures Subsequence([], [], [])
  {
  }

  lemma LastLeft(b: seq<Item>, a: seq<Item>, front: seq<int>, kept: bool)
    requires a != [] && Subsequence(b, a[..|a| - 1], front)
    ensures kept ==> Subsequence(b + [a[|a| - 1]], a, front + [|a| - 1])
    ensures !kept ==> Subsequence(b, a, front)
  {
    forall i | 0 <= i < |front|
      ensures 0 <= front[i] < |a| - 1 && b[i] == a[front[i]]
    {
      assert a[..|a| - 1][front[i]] == a[front[i]];
    }
  }

  /** After a device went off line exactly the entries of the other devices are left. */
  lemma {:induction false} OfflineKeeps(items: seq<Item>, devtype: int, x: Item)
    ensures x in WithoutDevice(items, devtype) <==> x in items && x.devtype != devtype
    decreases |items|
  {
    if items != [] {
      OfflineKeeps(items[..|items| - 1], devtype, x);
      assert items == items[..|items| - 1] + [items[|items| - 1]];
    }
  }

  // ---- the steps

  lemma TimesAppended(id: int, log: seq<Item>, x: Item)
    ensures Times(id, log + [x]) == Times(id, log) + if x.id == id then 1 else 0
  {
    assert (log + [x])[..|log|] == log;
  }

  lemma StartValid()
    ensures Valid(START)
  {
  }

  lemma IssueKeeps(s: State, devtype: int, cmd: string)
    requires Valid(s)
    ensures Valid(Next(s, Issue(devtype, cmd)))
  {
    hide Times;
    var t := Next(s, Issue(devtype, cmd));
    assert Times(|s.issued|, s.resent) == 0;
    assert SernoOf(|s.issued| + 1) == NextSerno(SernoOf(|s.issued|));
    assert From(t.items, t.issued) && From(t.resent, t.issued);
  }

  lemma TimeoutKeeps(s: State, mount: bool, focus: bool)
    requires Valid(s)
    ensures Valid(Next(s, Timeout(mount, focus)))
  {
    hide Times, Numbered, Sparing, Untried, From, HeadOnly, Increasing;
    var t := Next(s, Timeout(mount, focus));
    if s.items != [] {
      TimeoutLowers(s.items);
      RetriedFrom(s.items, s.issued);
      RetriedSparing(s.items, s.resent, |s.issued|, s.issued);
      if t.resent != s.resent {
        ResentFrom(s.items, s.resent, s.issued);
      }
    }
  }

  lemma DroppedFrom(items: seq<Item>, issued: seq<Item>)
    requires From(items, issued) && Increasing(items) && items != []
    ensures From(items[1..], issued) && Increasing(items[1..])
  {
  }

  lemma TriedFrom(items: seq<Item>, issued: seq<Item>, retry: int)
    requires From(items, issued) && Increasing(items) && items != []
    ensures From(items[0 := items[0].(retry := retry)], issued)
    ensures Increasing(items[0 := items[0].(retry := retry)])
  {
  }

  lemma RetriedFrom(items: seq<Item>, issued: seq<Item>)
    requires From(items, issued) && Increasing(items) && items != []
    ensures From(Retried(items), issued) && Increasing(Retried(items))
  {
    hide From, Increasing;
    DroppedFrom(items, issued);
    TriedFrom(items, issued, items[0].retry + 1);
  }

  lemma ResentFrom(items: seq<Item>, resent: seq<Item>, issued: seq<Item>)
    requires From(items, issued) && From(resent, issued) && items != []
    ensures From(resent + [items[0].(retry := 0)], issued)
  {
  }

  /** Where an entry of the retried queue comes from: the head with one more try, or an entry behind it. */
  lemma RetriedEntry(items: seq<Item>, i: int) returns (j: int)
    requires Increasing(items) && 0 <= i < |Retried(items)|
    ensures 0 <= j < |items| && Retried(items)[i].id == items[j].id
    ensures j == 0 ==> Retried(items)[i].retry == items[0].retry + 1
    ensures j > 0 ==> Retried(items)[i].retry == items[j].retry && items[j].id != items[0].id
  {
    j := if items[0].retry + 1 > MAX_RETRY then i + 1 else i;
  }

  /** One more try leaves every count within its bound, whether or not the head was sent again. */
  lemma RetriedSparing(items: seq<Item>, resent: seq<Item>, n: nat, issued: seq<Item>)
    requires Sparing(items, resent) && Untried(n, resent) && HeadOnly(items) && Increasing(items) && items != []
    requires From(items, issued) && n == |issued|
    ensures var more := resent + [items[0].(retry := 0)];
      && Sparing(Retried(items), resent) && Sparing(Retried(items), more) && Untried(n, more)
  {
    hide Times, Retried, Increasing;
    var x := items[0].(retry := 0);
    var more := resent + [x];
    forall id: int
      ensures Times(id, more) == Times(id, resent) + if x.id == id then 1 else 0
    {
      TimesAppended(id, resent, x);
    }
    assert Times(items[0].id, resent) <= items[0].retry;
    forall i | 0 <= i < |Retried(items)|
      ensures Times(Retried(items)[i].id, resent) <= Retried(items)[i].retry
      ensures Times(Retried(items)[i].id, more) <= Retried(items)[i].retry
    {
      var j := RetriedEntry(items, i);
      assert Times(items[j].id, resent) <= items[j].retry;
    }
  }

  lemma StepKeeps(s: State, e: Event)
    requires Valid(s)
    ensures Valid(Next(s, e))
  {
    hide Times, HeadOnly, Increasing, From, Sparing;
    match e
    case Issue(devtype, cmd) => IssueKeeps(s, devtype, cmd);
    case Answer(serno) =>
      var at := SernoLeftOut(s.items, serno);
      SubsequenceKeeps(WithoutSerno(s.items, serno), s.items, at, s.issued, s.resent);
    case Offline(devtype) =>
      var at := DeviceLeftOut(s.items, devtype);
      SubsequenceKeeps(WithoutDevice(s.items, devtype), s.items, at, s.issued, s.resent);
    case Timeout(mount, focus) => TimeoutKeeps(s, mount, focus);
  }

  lemma {:induction false} RunValid(es: seq<Event>)
    ensures Valid(Run(es))
    decreases |es|
  {
    hide Valid, Next;
    if es == [] {
      StartValid();
    } else {
      RunValid(es[..|es| - 1]);
      StepKeeps(Run(es[..|es| - 1]), es[|es| - 1]);
    }
  }

  // ---- tries

  /** In every run only the head of the queue has been tried, no command is resent more than four times,
      and what is resent is what was issued. */
  lemma RunSpares(es: seq<Event>, id: nat)
    ensures var s := Run(es);
      && Times(id, s.resent) <= 4
      && (forall i :: 0 < i < |s.items| ==> s.items[i].retry == 0)
      && (forall x :: x in s.resent ==> x in s.issued)
  {
    RunValid(es);
    var s := Run(es);
    forall x | x in s.resent
      ensures x in s.issued
    {
      var i :| 0 <= i < |s.resent| && s.resent[i] == x;
      assert x.(retry := 0) == s.issued[x.id];
      IssuedUntried(es, x.id);
    }
  }

  lemma {:induction false} IssuedUntried(es: seq<Event>, k: nat)
    ensures k < |Run(es).issued| ==> Run(es).issued[k].retry == 0 && Run(es).issued[k].id == k
    ensures forall i :: 0 <= i < |Run(es).resent| ==> Run(es).resent[i].retry == 0
    decreases |es|
  {
    if es != [] {
      IssuedUntried(es[..|es| - 1], k);
    }
  }

  // ---- which commands are sent again

  /** An expired wait sends the head of the queue again exactly when its own device is connected. */
  lemma TimeoutResends(s: State, mount: bool, focus: bool)
    requires s.items != []
    ensures var x, t := s.items[0].(retry := 0), Next(s, Timeout(mount, focus));
      && (((x.devtype == 0 && mount) || (x.devtype == 1 && focus)) <==> t.resent == s.resent + [x])
      && (((x.devtype != 0 || !mount) && (x.devtype != 1 || !focus)) <==> t.resent == s.resent)
  {
    assert s.resent + [s.items[0].(retry := 0)] != s.resent by {
      assert |s.resent + [s.items[0].(retry := 0)]| == |s.resent| + 1;
    }
  }

  /** A command is queued last, untried, for its own device and under the serial of its number. */
  lemma IssueQueued(s: State, devtype: int, cmd: string)
    requires Valid(s)
    ensures var t, id := Next(s, Issue(devtype, cmd)), |s.issued|;
      && t.items == s.items + [Item(1 + id % 99999, devtype, 0, cmd, id)] && t.resent == s.resent
      && t.issued == s.issued + [Item(1 + id % 99999, devtype, 0, cmd, id)] && t.serno == 1 + (id + 1) % 99999
  {
    hide Times, HeadOnly, Increasing, From, Sparing, Untried;
    IssueKeeps(s, devtype, cmd);
  }

  /** The event is no answer to the command x, does not clear its device and finds it connected. */
  predicate Harmless(e: Event, x: Item)
  {
    match e
    case Issue(_, _) => true
    case Answer(serno) => serno != x.serno
    case Offline(devtype) => devtype != x.devtype
    case Timeout(mount, focus) => if x.devtype == 0 then mount else x.devtype == 1 && focus
  }

  /** Since the command of that number was issued there were only such events. */
  ghost predicate Undisturbed(es: seq<Event>, id: nat)
  {
    es == [] ||
      var n := |es| - 1;
      Undisturbed(es[..n], id) && (id < |Run(es[..n]).issued| ==> Harmless(es[n], Run(es[..n]).issued[id]))
  }

  ghost predicate Queued(items: seq<Item>, id: nat)
  {
    exists i :: 0 <= i < |items| && items[i].id == id
  }

  /** While it is queued the command has been sent again as often as it was tried, and four times when it is gone. */
  ghost predicate AllTries(items: seq<Item>, resent: seq<Item>, id: nat)
  {
    && (forall i :: 0 <= i < |items| && items[i].id == id ==> Times(id, resent) == items[i].retry)
    && (!Queued(items, id) ==> Times(id, resent) == MAX_RETRY + 1)
  }

  lemma IssueTries(s: State, devtype: int, cmd: string, id: nat)
    requires Valid(s) && (id < |s.issued| ==> AllTries(s.items, s.resent, id)) && id <= |s.issued|
    ensures AllTries(Next(s, Issue(devtype, cmd)).items, s.resent, id)
  {
    hide Times, HeadOnly, Increasing, Numbered, Sparing;
    var t := Next(s, Issue(devtype, cmd));
    assert t.items[|s.items|].id == |s.issued|;
    assert forall i :: 0 <= i < |s.items| ==> t.items[i] == s.items[i];
  }

  /** Leaving out entries of other commands leaves the tries of this one as they are. */
  lemma LeftOutTries(b: seq<Item>, a: seq<Item>, at: seq<int>, resent: seq<Item>, id: nat)
    requires Subsequence(b, a, at) && AllTries(a, resent, id)
    requires forall x :: x in a && x.id == id ==> x in b
    ensures AllTries(b, resent, id)
  {
    hide Times;
    if Queued(a, id) {
      var i :| 0 <= i < |a| && a[i].id == id;
      assert a[i] in b;
    }
  }

  lemma {:induction false} OtherSernosStay(items: seq<Item>, serno: int, x: Item)
    requires x in items && x.serno != serno
    ensures x in WithoutSerno(items, serno)
    decreases |items|
  {
    if items[0].serno == serno || items[0] == x {
      assert items == [items[0]] + items[1..];
    } else {
      assert items == [items[0]] + items[1..];
      OtherSernosStay(items[1..], serno, x);
    }
  }

  /** An expired wait for the head itself, or for a command in front of this one. */
  lemma TimeoutTries(s: State, mount: bool, focus: bool, id: nat)
    requires HeadOnly(s.items) && Increasing(s.items) && AllTries(s.items, s.resent, id)
    requires s.items != [] && s.items[0].id == id ==> Harmless(Timeout(mount, focus), s.items[0])
    ensures var t := Next(s, Timeout(mount, focus)); AllTries(t.items, t.resent, id)
  {
    hide Times;
    if s.items != [] {
      hide Retried;
      var t := Next(s, Timeout(mount, focus));
      var head := s.items[0];
      TimesAppended(id, s.resent, head.(retry := 0));
      forall i | 0 <= i < |t.items| && t.items[i].id == id
        ensures Times(id, t.resent) == t.items[i].retry
      {
        var j := RetriedEntry(s.items, i);
      }
      RetriedQueued(s.items, id);
    }
  }

  lemma RetriedQueued(items: seq<Item>, id: nat)
    requires HeadOnly(items) && Increasing(items) && items != []
    ensures Queued(Retried(items), id) <==> Queued(items, id) && !(items[0].id == id && items[0].retry == MAX_RETRY)
  {
    var r := Retried(items);
    if items[0].retry == MAX_RETRY {
      forall i | 0 < i < |items|
        ensures r[i - 1] == items[i]
      {
      }
      forall i | 0 <= i < |r|
        ensures r[i] == items[i + 1]
      {
      }
    } else {
      forall i | 0 <= i < |items|
        ensures r[i].id == items[i].id
      {
      }
    }
  }

  lemma StepTries(s: State, e: Event, id: nat)
    requires Valid(s) && id < |Next(s, e).issued|
    requires id < |s.issued| ==> AllTries(s.items, s.resent, id) && Harmless(e, s.issued[id])
    ensures AllTries(Next(s, e).items, Next(s, e).resent, id)
  {
    hide Times, HeadOnly, Increasing, Sparing, Untried, AllTries, Subsequence;
    match e
    case Issue(devtype, cmd) => IssueTries(s, devtype, cmd, id);
    case Answer(serno) =>
      var at := SernoLeftOut(s.items, serno);
      forall x | x in s.items && x.id == id
        ensures x in WithoutSerno(s.items, serno)
      {
        OtherSernosStay(s.items, serno, x);
      }
      LeftOutTries(WithoutSerno(s.items, serno), s.items, at, s.resent, id);
    case Offline(devtype) =>
      var at := DeviceLeftOut(s.items, devtype);
      forall x | x in s.items && x.id == id
        ensures x in WithoutDevice(s.items, devtype)
      {
        OfflineKeeps(s.items, devtype, x);
      }
      LeftOutTries(WithoutDevice(s.items, devtype), s.items, at, s.resent, id);
    case Timeout(mount, focus) => TimeoutTries(s, mount, focus, id);
  }

  lemma {:induction false} RunTries(es: seq<Event>, id: nat)
    requires Undisturbed(es, id) && id < |Run(es).issued|
    ensures AllTries(Run(es).items, Run(es).resent, id)
    decreases |es|
  {
    hide Valid, Next, AllTries, Harmless;
    var front := es[..|es| - 1];
    RunValid(front);
    if id < |Run(front).issued| {
      RunTries(front, id);
    }
    StepTries(Run(front), es[|es| - 1], id);
  }

  /** In every run: a command whose device stays connected, and that is neither answered nor cleared, has been sent
      again exactly four times when it has left the queue, and as often as it was tried while it is in it. */
  lemma RunResends(es: seq<Event>, id: nat)
    requires Undisturbed(es, id) && id < |Run(es).issued|
    ensures var s := Run(es);
      && ((forall i :: 0 <= i < |s.items| ==> s.items[i].id != id) ==> Times(id, s.resent) == 4)
      && (forall i :: 0 <= i < |s.items| && s.items[i].id == id ==>
            s.items[i].(retry := 0) == s.issued[id] && Times(id, s.resent) == s.items[i].retry)
  {
    hide Run, Undisturbed, Times;
    RunValid(es);
    RunTries(es, id);
  }

  // ---- the order of resending

  /** Commands are sent again in the order of their issue, and none behind one that is still queued. */
  ghost predicate InOrder(items: seq<Item>, resent: seq<Item>)
  {
    && (forall i, j :: 0 <= i < j < |resent| ==> resent[i].id <= resent[j].id)
    && forall i, j :: 0 <= i < |resent| && 0 <= j < |items| ==> resent[i].id <= items[j].id
  }

  lemma StepInOrder(s: State, e: Event)
    requires Valid(s) && InOrder(s.items, s.resent)
    ensures InOrder(Next(s, e).items, Next(s, e).resent)
  {
    hide Times, HeadOnly, Sparing, Untried, Numbered, Subsequence;
    match e
    case Issue(_, _) =>
    case Answer(serno) =>
      hide From, Increasing, InOrder;
      var at := SernoLeftOut(s.items, serno);
      LeftOutInOrder(WithoutSerno(s.items, serno), s.items, at, s.resent);
    case Offline(devtype) =>
      hide From, Increasing, InOrder;
      var at := DeviceLeftOut(s.items, devtype);
      LeftOutInOrder(WithoutDevice(s.items, devtype), s.items, at, s.resent);
    case Timeout(_, _) =>
  }

  lemma LeftOutInOrder(b: seq<Item>, a: seq<Item>, at: seq<int>, resent: seq<Item>)
    requires Subsequence(b, a, at) && InOrder(a, resent)
    ensures InOrder(b, resent)
  {
  }

  lemma {:induction false} RunInOrder(es: seq<Event>)
    ensures InOrder(Run(es).items, Run(es).resent)
    decreases |es|
  {
    hide Valid, Next;
    if es != [] {
      RunInOrder(es[..|es| - 1]);
      RunValid(es[..|es| - 1]);
      hide InOrder;
      StepInOrder(Run(es[..|es| - 1]), es[|es| - 1]);
    }
  }

  // ---- how the queue drains

  /** The expired waits that the queue needs until it is empty. */
  function Left(items: seq<Item>): int
  {
    4 * |items| - if items == [] then 0 else items[0].retry
  }

  lemma TimeoutLowers(items: seq<Item>)
    requires HeadOnly(items) && items != []
    ensures HeadOnly(Retried(items)) && Left(Retried(items)) == Left(items) - 1
  {
  }

  function Quiet(items: seq<Item>, waits: nat): seq<Item>
  {
    if waits == 0 then items else Retried(Quiet(items, waits - 1))
  }

  /** With neither new commands nor answers, the queue is empty after exactly that many expired waits. */
  lemma {:induction false} Drains(items: seq<Item>, waits: nat)
    requires HeadOnly(items)
    ensures HeadOnly(Quiet(items, waits))
    ensures Left(Quiet(items, waits)) == if waits <= Left(items) then Left(items) - waits else 0
    ensures Quiet(items, waits) == [] <==> waits >= Left(items)
  {
    hide HeadOnly;
    if waits > 0 {
      Drains(items, waits - 1);
      var q := Quiet(items, waits - 1);
      if q != [] {
        TimeoutLowers(q);
      }
      LeftPositive(Retried(q));
    } else {
      LeftPositive(items);
    }
  }

  lemma LeftPositive(items: seq<Item>)
    requires HeadOnly(items)
    ensures Left(items) >= 0 && (Left(items) == 0 <==> items == [])
  {
  }

  // ---- serials and answers

  lemma {:induction false} FirstLeftOut(items: seq<Item>, serno: int, k: int)
    requires 0 <= k < |items| && items[k].serno == serno
    requires forall i :: 0 <= i < k ==> items[i].serno != serno
    ensures WithoutSerno(items, serno) == items[..k] + items[k + 1..]
    decreases |items|
  {
    if k > 0 {
      FirstLeftOut(items[1..], serno, k - 1);
    }
  }

  lemma {:induction false} NoneLeftOut(items: seq<Item>, serno: int)
    requires forall i :: 0 <= i < |items| ==> items[i].serno != serno
    ensures WithoutSerno(items, serno) == items
    decreases |items|
  {
    if items != [] {
      NoneLeftOut(items[1..], serno);
    }
  }

  /** The queue without the command of that number. */
  function WithoutId(items: seq<Item>, id: nat): (r: seq<Item>)
  {
    if items == [] then []
    else if items[0].id == id then items[1..]
    else [items[0]] + WithoutId(items[1..], id)
  }

  lemma {:induction false} WithoutIdKeeps(items: seq<Item>, id: nat, x: Item)
    requires Increasing(items)
    ensures x in WithoutId(items, id) <==> x in items && x.id != id
    decreases |items|
  {
    if items != [] {
      WithoutIdKeeps(items[1..], id, x);
    }
  }

  /** The first queued command whose number differs from id by a multiple of 99999 is id itself,
      or there is no such command. */
  ghost predicate Unmistaken(items: seq<Item>, id: nat)
  {
    forall i :: 0 <= i < |items| && items[i].id != id && (items[i].id - id) % SERIALS == 0 ==>
      items[i].id > id && exists j :: 0 <= j < i && items[j].id == id
  }

  ghost predicate Serials(items: seq<Item>)
  {
    forall i :: 0 <= i < |items| ==> items[i].serno == SernoOf(items[i].id)
  }

  lemma SameHead(x: Item, a: seq<Item>, b: seq<Item>)
    ensures [x] + a == [x] + b <==> a == b
  {
    assert ([x] + a)[1..] == a && ([x] + b)[1..] == b;
  }

  lemma OwnFirst(items: seq<Item>, id: nat)
    requires Increasing(items) && items != [] && items[0].id == id
    ensures Unmistaken(items, id)
  {
  }

  lemma MistakenFirst(items: seq<Item>, id: nat)
    requires Increasing(items) && items != [] && items[0].id != id && (items[0].id - id) % SERIALS == 0
    ensures items[1..] != [items[0]] + WithoutId(items[1..], id) && !Unmistaken(items, id)
  {
    hide WithoutId;
    assert |items| > 1 ==> items[1..][0] != items[0];
  }

  lemma {:induction false} AnswerExact(items: seq<Item>, id: nat)
    requires Increasing(items) && Serials(items)
    ensures WithoutSerno(items, SernoOf(id)) == WithoutId(items, id) <==> Unmistaken(items, id)
    decreases |items|
  {
    hide SernoOf;
    if items != [] {
      var x, rest := items[0], items[1..];
      AnswerExact(rest, id);
      CongruentSerno(x.id, id);
      if x.id == id {
        OwnFirst(items, id);
      } else if x.serno == SernoOf(id) {
        MistakenFirst(items, id);
      } else {
        hide Unmistaken;
        SameHead(x, WithoutSerno(rest, SernoOf(id)), WithoutId(rest, id));
        UnmistakenRest(items, id);
      }
    }
  }

  lemma CongruentSerno(a: nat, b: nat)
    ensures SernoOf(a) == SernoOf(b) <==> (a - b) % SERIALS == 0
  {
  }

  lemma UnmistakenRest(items: seq<Item>, id: nat)
    requires items != [] && items[0].id != id && (items[0].id - id) % SERIALS != 0
    ensures Unmistaken(items, id) <==> Unmistaken(items[1..], id)
  {
    var rest := items[1..];
    if Unmistaken(items, id) {
      forall i | 0 <= i < |rest| && rest[i].id != id && (rest[i].id - id) % SERIALS == 0
        ensures rest[i].id > id && exists j :: 0 <= j < i && rest[j].id == id
      {
        assert items[i + 1] == rest[i];
        var j :| 0 <= j < i + 1 && items[j].id == id;
        assert rest[j - 1].id == id;
      }
    }
    if Unmistaken(rest, id) {
      forall i | 0 <= i < |items| && items[i].id != id && (items[i].id - id) % SERIALS == 0
        ensures items[i].id > id && exists j :: 0 <= j < i && items[j].id == id
      {
        assert rest[i - 1] == items[i];
        var j :| 0 <= j < i - 1 && rest[j].id == id;
        assert items[j + 1].id == id;
      }
    }
  }

  /** All numbers within 99999 consecutive ones. */
  ghost predicate Within(items: seq<Item>, low: int)
  {
    forall i :: 0 <= i < |items| ==> low <= items[i].id < low + 99999
  }

  lemma RunSerials(es: seq<Event>)
    ensures Serials(Run(es).items) && Increasing(Run(es).items)
  {
    RunValid(es);
    var s := Run(es);
    forall i | 0 <= i < |s.items|
      ensures s.items[i].serno == SernoOf(s.items[i].id)
    {
      assert s.items[i].(retry := 0).serno == s.issued[s.items[i].id].serno;
    }
  }

  /** What is left is what was there, without the command of that number. */
  ghost predicate TakesOnly(before: seq<Item>, after: seq<Item>, id: nat)
  {
    forall x :: x in after <==> x in before && x.id != id
  }

  lemma {:induction false} FirstAt(items: seq<Item>, serno: int, i: nat) returns (k: nat)
    requires i < |items| && items[i].serno == serno
    ensures k <= i && items[k].serno == serno && forall j :: 0 <= j < k ==> items[j].serno != serno
    decreases i
  {
    k := i;
    if exists j :: 0 <= j < i && items[j].serno == serno {
      var j :| 0 <= j < i && items[j].serno == serno;
      k := FirstAt(items, serno, j);
    }
  }

  /** The first entry of a serial is gone after its answer. */
  lemma FirstGone(items: seq<Item>, serno: int, k: nat)
    requires Increasing(items) && k < |items| && items[k].serno == serno
    requires forall j :: 0 <= j < k ==> items[j].serno != serno
    ensures items[k] !in WithoutSerno(items, serno)
  {
    FirstLeftOut(items, serno, k);
  }

  lemma AnswerTakes(items: seq<Item>, id: nat)
    requires Increasing(items) && Serials(items)
    ensures TakesOnly(items, WithoutSerno(items, SernoOf(id)), id) <==> Unmistaken(items, id)
  {
    hide SernoOf, WithoutSerno, WithoutId;
    var after := WithoutSerno(items, SernoOf(id));
    if Unmistaken(items, id) {
      AnswerExact(items, id);
      forall x
        ensures x in after <==> x in items && x.id != id
      {
        WithoutIdKeeps(items, id, x);
      }
    } else {
      var i :| 0 <= i < |items| && items[i].id != id && (items[i].id - id) % SERIALS == 0
               && !(items[i].id > id && exists j :: 0 <= j < i && items[j].id == id);
      CongruentSerno(items[i].id, id);
      var k := FirstAt(items, SernoOf(id), i);
      FirstGone(items, SernoOf(id), k);
      assert items[k] in items && items[k].id != id;
    }
  }

  /** In every run: the answer to a command takes that command out and no other, exactly when no queued command
      is mistaken for it. */
  lemma RunAnswer(es: seq<Event>, id: nat)
    ensures TakesOnly(Run(es).items, Next(Run(es), Answer(SernoOf(id))).items, id) <==> Unmistaken(Run(es).items, id)
  {
    hide Run, TakesOnly, Unmistaken, SernoOf;
    RunSerials(es);
    AnswerTakes(Run(es).items, id);
  }

  lemma {:induction false} RunIssues(n: nat)
    ensures var s := Run(seq(n, _ => Issue(MOUNT, "")));
      |s.items| == |s.issued| == n && forall i :: 0 <= i < n ==> s.items[i].id == i
  {
    if n > 0 {
      RunIssues(n - 1);
      assert seq(n, _ => Issue(MOUNT, ""))[..n - 1] == seq(n - 1, _ => Issue(MOUNT, ""));
    }
  }

  /** After 100000 commands without an answer, the answer to the last one does not take that one out alone:
      the first has the same serial. */
  lemma SerialsRunOut()
    ensures var s := Run(seq(100000, _ => Issue(MOUNT, "")));
      !TakesOnly(s.items, Next(s, Answer(SernoOf(99999))).items, 99999)
  {
    hide Run, TakesOnly, Next;
    RunIssues(100000);
    var es := seq(100000, _ => Issue(MOUNT, ""));
    assert Run(es).items[0].id == 0 && (0 - 99999) % 99999 == 0;
    RunAnswer(es, 99999);
  }

  /** While the queue and the answered command lie within 99999 consecutive issues, serials are distinct and
      the answer takes out its own command only. */
  lemma RunWindow(es: seq<Event>, id: nat, low: int)
    requires Within(Run(es).items, low) && low <= id < low + 99999
    ensures var items := Run(es).items;
      && (forall i, j :: 0 <= i < j < |items| ==> items[i].serno != items[j].serno)
      && TakesOnly(items, Next(Run(es), Answer(SernoOf(id))).items, id)
  {
    hide Run, Next, WithoutSerno, WithoutId, SernoOf, TakesOnly;
    RunSerials(es);
    var items := Run(es).items;
    forall i, j | 0 <= i < j < |items|
      ensures items[i].serno != items[j].serno
    {
      CongruentSerno(items[i].id, items[j].id);
    }
    assert Unmistaken(items, id);
    RunAnswer(es, id);
  }

  // ---- the objects

  class NonKVProtocol {
    var nextSerno: int

    constructor ()
      ensures nextSerno == 1
    {
      nextSerno := 1;
    }

    method IncreaseSerno() returns (serno: int)
      modifies this
      ensures serno == old(nextSerno) && nextSerno == NextSerno(serno)
    {
      serno := nextSerno;
      nextSerno := nextSerno + 1;
      if nextSerno == 100000 {
        nextSerno := 1;
      }
    }
  }

  class NonKVProtoBuff {
    var cmds: seq<Item>

    constructor ()
      ensures cmds == []
    {
      cmds := [];
    }

    method Push(serno: int, devtype: int, cmd: string, id: nat)
      modifies this
      ensures cmds == old(cmds) + [Item(serno, devtype, 0, cmd, id)]
    {
      cmds := cmds + [Item(serno, devtype, 0, cmd, id)];
    }

    method PopSerno(serno: int)
      modifies this
      ensures cmds == WithoutSerno(old(cmds), serno)
    {
      var i := 0;
      while i < |cmds|
        invariant 0 <= i <= |cmds| && cmds == old(cmds)
        invariant forall j :: 0 <= j < i ==> cmds[j].serno != serno
      {
        if cmds[i].serno == serno {
          FirstLeftOut(cmds, serno, i);
          cmds := cmds[..i] + cmds[i + 1..];
          return;
        }
        i := i + 1;
      }
      NoneLeftOut(cmds, serno);
    }

    method PopFront()
      requires cmds != []
      modifies this
      ensures cmds == old(cmds)[1..]
    {
      cmds := cmds[1..];
    }

    method Clear(devtype: int)
      modifies this
      ensures cmds == WithoutDevice(old(cmds), devtype)
    {
      var i := 0;
      ghost var seen := 0;
      ghost var all := cmds;
      while i < |cmds|
        invariant 0 <= i <= |cmds| && 0 <= seen <= |all|
        invariant cmds[..i] == WithoutDevice(all[..seen], devtype) && cmds[i..] == all[seen..]
        decreases |cmds| - i
      {
        assert all[..seen + 1][..seen] == all[..seen] && cmds[i] == all[seen];
        assert cmds[i..][1..] == cmds[i + 1..] && all[seen..][1..] == all[seen + 1..];
        if cmds[i].devtype == devtype {
          ghost var before := cmds;
          cmds := cmds[..i] + cmds[i + 1..];
          assert cmds[..i] == before[..i] && cmds[i..] == before[i + 1..];
        } else {
          assert cmds[..i + 1] == cmds[..i] + [cmds[i]];
          i := i + 1;
        }
        seen := seen + 1;
      }
      assert all[..seen] == all && cmds[..i] == cmds;
    }
  }

  /** The part of the observation system that issues commands and resends them. */
  class CommandLink {
    const protocol: NonKVProtocol
    const buffer: NonKVProtoBuff
    var issued: seq<Item>
    var resent: seq<Item>

    constructor ()
      ensures Snapshot() == START && fresh(protocol) && fresh(buffer)
    {
      protocol := new NonKVProtocol();
      buffer := new NonKVProtoBuff();
      issued, resent := [], [];
    }

    ghost function Snapshot(): State
      reads this, protocol, buffer
    {
      State(buffer.cmds, protocol.nextSerno, issued, resent)
    }

    method Send(devtype: int, cmd: string) returns (serno: int)
      modifies this, protocol, buffer
      ensures Snapshot() == Next(old(Snapshot()), Issue(devtype, cmd))
      ensures serno == old(protocol.nextSerno)
    {
      serno := protocol.IncreaseSerno();
      buffer.Push(serno, devtype, cmd, |issued|);
      issued := issued + [Item(serno, devtype, 0, cmd, |issued|)];
    }

    method NotifyResponse(serno: int)
      modifies buffer
      ensures Snapshot() == Next(old(Snapshot()), Answer(serno))
    {
      buffer.PopSerno(serno);
    }

    method Decouple(devtype: int)
      modifies buffer
      ensures Snapshot() == Next(old(Snapshot()), Offline(devtype))
    {
      buffer.Clear(devtype);
    }

    /** One expired wait of the resending thread. */
    method Rewrite(mount: bool, focus: bool)
      modifies this, buffer
      ensures Snapshot() == Next(old(Snapshot()), Timeout(mount, focus))
    {
      if buffer.cmds != [] {
        var item := buffer.cmds[0];
        buffer.cmds := buffer.cmds[0 := item.(retry := item.retry + 1)];
        if item.retry + 1 > MAX_RETRY {
          buffer.PopFront();
        }
        if item.devtype == MOUNT && mount {
          resent := resent + [item.(retry := 0)];
        } else if item.devtype == FOCUS && focus {
          resent := resent + [item.(retry := 0)];
        }
      }
    }
  }
}
