/** The messages as they stand on the wire. */
module KVWire {
  import opened KVText
  import opened KVMessages

  /** A text field with its name in front, left out when it is empty. */
  function Text(name: string, value: string): string
  {
    if value == "" then "" else name + value + ","
  }

  function Header(b: Base): string
  {
    Text("utc=", b.utc) + (Text("gid=", b.gid) + (Text("uid=", b.uid) + Text("cid=", b.cid)))
  }

  function Count(name: string, n: int32): string
  {
    name + Itoa(n) + ","
  }

  /** The text behind the header of each kind. */
  function Fields(m: Body): string
  {
    match m
    case Plan(planSn, tmStart, tmStop, state) =>
      Text("plan_sn=", planSn) + (Text("tm_start=", tmStart) + (Text("tm_stop=", tmStop) + Count("state=", state)))
    case CheckPlan(planSn) => Text("plan_sn=", planSn)
    case RemovePlan(planSn) => Text("plan_sn=", planSn)
    case Obss(state, mount, camera) => Count("state=", state) + (Count("mount=", mount) + Count("camera=", camera))
    case Guide(result, op, ra, dec) =>
      Count("result=", result) + (Count("op=", op) +
      if ra == 0 && dec == 0 then "" else Count("ra=", ra) + Count("dec=", dec))
    case Expose(command, frmno, loopno) =>
      Count("command=", command) + (Count("frmno=", frmno) + Count("loopno=", loopno))
    case Focus(opType, state, relPos, pos, posTar) =>
      Count("optype=", opType) +
      if opType == 0 then Count("state=", state) + (Count("pos=", pos) + Count("posTar=", posTar))
      else if opType == 1 then Count("relpos=", relPos) else ""
  }

  lemma {:induction false} JoinedParts(a: seq<Pair>, b: seq<Pair>)
    ensures JoinAll(a + b) == JoinAll(a) + JoinAll(b)
    decreases |a|
  {
    hide JoinKv;
    if a == [] {
      assert a + b == b;
    } else {
      assert (a + b)[1..] == a[1..] + b;
      JoinedParts(a[1..], b);
      assert JoinKv(a[0]) + (JoinAll(a[1..]) + JoinAll(b)) == JoinKv(a[0]) + JoinAll(a[1..]) + JoinAll(b);
    }
  }

  lemma OneJoined(key: string, value: string)
    ensures JoinAll([Pair(key, value)]) == (key + "=") + value + ","
  {
    assert [Pair(key, value)][1..] == [];
    assert JoinKv(Pair(key, value)) + "" == JoinKv(Pair(key, value));
    assert key + "=" + value + "," == (key + "=") + value + ",";
  }

  lemma TextJoined(key: string, name: string, value: string)
    requires name == key + "="
    ensures JoinAll(Optional(key, value)) == Text(name, value)
  {
    hide JoinAll;
    if value != "" {
      OneJoined(key, value);
    } else {
      NothingJoined();
    }
  }

  lemma NothingJoined()
    ensures JoinAll([]) == ""
  {
  }

  lemma CountJoined(key: string, name: string, n: int32)
    requires name == key + "="
    ensures JoinAll(Number(key, n)) == Count(name, n)
  {
    hide JoinAll, Itoa;
    OneJoined(key, Itoa(n));
  }

  lemma HeaderJoined(b: Base)
    ensures JoinAll(BasePairs(b)) == Header(b)
  {
    hide JoinAll, Optional, Text;
    var u, g, i, c := Optional("utc", b.utc), Optional("gid", b.gid), Optional("uid", b.uid), Optional("cid", b.cid);
    TextJoined("utc", "utc=", b.utc);
    TextJoined("gid", "gid=", b.gid);
    TextJoined("uid", "uid=", b.uid);
    TextJoined("cid", "cid=", b.cid);
    Four(u, g, i, c);
  }

  lemma Two(a: seq<Pair>, b: seq<Pair>)
    ensures JoinAll(a + b) == JoinAll(a) + JoinAll(b)
  {
    JoinedParts(a, b);
  }

  lemma Three(a: seq<Pair>, b: seq<Pair>, c: seq<Pair>)
    ensures JoinAll(a + b + c) == JoinAll(a) + (JoinAll(b) + JoinAll(c))
  {
    hide JoinAll;
    JoinedParts(a + b, c);
    JoinedParts(a, b);
    assert JoinAll(a) + JoinAll(b) + JoinAll(c) == JoinAll(a) + (JoinAll(b) + JoinAll(c));
  }

  lemma Four(a: seq<Pair>, b: seq<Pair>, c: seq<Pair>, d: seq<Pair>)
    ensures JoinAll(a + b + c + d) == JoinAll(a) + (JoinAll(b) + (JoinAll(c) + JoinAll(d)))
  {
    hide JoinAll;
    Three(a, b, c);
    JoinedParts(a + b + c, d);
    var x, y, z, w := JoinAll(a), JoinAll(b), JoinAll(c), JoinAll(d);
    assert x + (y + z) + w == x + (y + (z + w));
  }

  lemma FieldsJoined(m: Body)
    ensures JoinAll(OwnPairs(m)) == Fields(m)
  {
    hide JoinAll, Optional, Number, Text, Count;
    match m
    case Plan(planSn, tmStart, tmStop, state) =>
      TextJoined("plan_sn", "plan_sn=", planSn);
      TextJoined("tm_start", "tm_start=", tmStart);
      TextJoined("tm_stop", "tm_stop=", tmStop);
      CountJoined("state", "state=", state);
      Four(Optional("plan_sn", planSn), Optional("tm_start", tmStart), Optional("tm_stop", tmStop),
           Number("state", state));
    case CheckPlan(planSn) => TextJoined("plan_sn", "plan_sn=", planSn);
    case RemovePlan(planSn) => TextJoined("plan_sn", "plan_sn=", planSn);
    case Obss(state, mount, camera) =>
      CountJoined("state", "state=", state);
      CountJoined("mount", "mount=", mount);
      CountJoined("camera", "camera=", camera);
      Three(Number("state", state), Number("mount", mount), Number("camera", camera));
    case Guide(result, op, ra, dec) => GuideJoined(result, op, ra, dec);
    case Expose(command, frmno, loopno) =>
      CountJoined("command", "command=", command);
      CountJoined("frmno", "frmno=", frmno);
      CountJoined("loopno", "loopno=", loopno);
      Three(Number("command", command), Number("frmno", frmno), Number("loopno", loopno));
    case Focus(opType, state, relPos, pos, posTar) => FocusJoined(opType, state, relPos, pos, posTar);
  }

  lemma GuideJoined(result: int32, op: int32, ra: int32, dec: int32)
    ensures JoinAll(OwnPairs(Guide(result, op, ra, dec))) == Fields(Guide(result, op, ra, dec))
  {
    hide JoinAll, Number, Count;
    CountJoined("result", "result=", result);
    CountJoined("op", "op=", op);
    CountJoined("ra", "ra=", ra);
    CountJoined("dec", "dec=", dec);
    Two(Number("ra", ra), Number("dec", dec));
    NothingJoined();
    Three(Number("result", result), Number("op", op),
          if ra != 0 || dec != 0 then Number("ra", ra) + Number("dec", dec) else []);
  }

  lemma FocusJoined(opType: int32, state: int32, relPos: int32, pos: int32, posTar: int32)
    ensures var m := Focus(opType, state, relPos, pos, posTar); JoinAll(OwnPairs(m)) == Fields(m)
  {
    hide JoinAll, Number, Count;
    CountJoined("optype", "optype=", opType);
    CountJoined("state", "state=", state);
    CountJoined("pos", "pos=", pos);
    CountJoined("posTar", "posTar=", posTar);
    CountJoined("relpos", "relpos=", relPos);
    Three(Number("state", state), Number("pos", pos), Number("posTar", posTar));
    NothingJoined();
    Two(Number("optype", opType),
        if opType == 0 then Number("state", state) + Number("pos", pos) + Number("posTar", posTar)
        else if opType == 1 then Number("relpos", relPos) else []);
  }

  /** The line of every message: its word, the header fields and its own fields that are printed, each closed by a
      comma, and the newline. */
  lemma OnTheWire(m: Message)
    ensures ToString(m) == Word(m.body) + " " + (Header(m.base) + Fields(m.body)) + "\n"
    ensures Word(m.body) ==
      match m.body
      case Plan(_, _, _, _) => "plan"
      case CheckPlan(_) => "check_plan"
      case RemovePlan(_) => "remove_plan"
      case Obss(_, _, _) => "obss"
      case Guide(_, _, _, _) => "guide"
      case Expose(_, _, _) => "expose"
      case Focus(_, _, _, _, _) => "focus"
  {
    hide JoinAll, Header, Fields, BasePairs, OwnPairs;
    HeaderJoined(m.base);
    FieldsJoined(m.body);
    JoinedParts(BasePairs(m.base), OwnPairs(m.body));
  }
}
