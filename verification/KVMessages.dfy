/** The key-value messages: how they are printed, how a line is resolved, and that the one undoes the other. */
module KVMessages {
  import opened Options
  import opened Characters
  import opened KVText

  datatype Base = Base(utc: string, gid: string, uid: string, cid: string)

  datatype Body =
    | Plan(planSn: string, tmStart: string, tmStop: string, state: int32)
    | CheckPlan(planSn: string)
    | RemovePlan(planSn: string)
    | Obss(state: int32, mount: int32, camera: int32)
    | Guide(result: int32, op: int32, ra: int32, dec: int32)
    | Expose(command: int32, frmno: int32, loopno: int32)
    | Focus(opType: int32, state: int32, relPos: int32, pos: int32, posTar: int32)

  datatype Message = Message(base: Base, body: Body)

  /** What a line is resolved to: a message, nothing, or a message of a kind that is not modelled. Where a number
      cannot be read, the resolver gives up the message and then reads its type through the null pointer left. */
  datatype Resolved = Known(message: Message) | Rejected | Elsewhere | NullAccess

  // ---- printing

  function Optional(key: string, value: string): seq<Pair>
  {
    if value == "" then [] else [Pair(key, value)]
  }

  function BasePairs(b: Base): seq<Pair>
  {
    Optional("utc", b.utc) + Optional("gid", b.gid) + Optional("uid", b.uid) + Optional("cid", b.cid)
  }

  function Number(key: string, n: int32): seq<Pair>
  {
    [Pair(key, Itoa(n))]
  }

  function OwnPairs(m: Body): seq<Pair>
  {
    match m
    case Plan(planSn, tmStart, tmStop, state) =>
      Optional("plan_sn", planSn) + Optional("tm_start", tmStart) + Optional("tm_stop", tmStop) + Number("state", state)
    case CheckPlan(planSn) => Optional("plan_sn", planSn)
    case RemovePlan(planSn) => Optional("plan_sn", planSn)
    case Obss(state, mount, camera) => Number("state", state) + Number("mount", mount) + Number("camera", camera)
    case Guide(result, op, ra, dec) =>
      Number("result", result) + Number("op", op)
      + if ra != 0 || dec != 0 then Number("ra", ra) + Number("dec", dec) else []
    case Expose(command, frmno, loopno) =>
      Number("command", command) + Number("frmno", frmno) + Number("loopno", loopno)
    case Focus(opType, state, relPos, pos, posTar) =>
      Number("optype", opType)
      + if opType == 0 then Number("state", state) + Number("pos", pos) + Number("posTar", posTar)
        else if opType == 1 then Number("relpos", relPos) else []
  }

  function Word(m: Body): string
  {
    match m
    case Plan(_, _, _, _) => "plan"
    case CheckPlan(_) => "check_plan"
    case RemovePlan(_) => "remove_plan"
    case Obss(_, _, _) => "obss"
    case Guide(_, _, _, _) => "guide"
    case Expose(_, _, _) => "expose"
    case Focus(_, _, _, _, _) => "focus"
  }

  function Pairs(m: Message): seq<Pair>
  {
    BasePairs(m.base) + OwnPairs(m.body)
  }

  /** The message without the newline that ends it. */
  function Line(m: Message): string
  {
    Word(m.body) + " " + JoinAll(Pairs(m))
  }

  function ToString(m: Message): string
  {
    Line(m) + "\n"
  }

  // ---- resolving

  /** The kinds of messages, those with a Body first; the others differ in the numbers they read. ParkKind stands
      for the five kinds that read no fields of their own. */
  datatype Kind =
    | PlanKind | CheckKind | RemoveKind | ObssKind | GuideKind | ExposeKind | FocusKind
    | AppendKind | CameraKind | CamsetKind | DerotKind | DomeKind | FwhmKind | FilterKind | MountKind | McoverKind
    | SlewKind | SyncKind | TrackvelKind | ParkKind
    | NoKind

  predicate HasBody(kind: Kind)
  {
    kind.PlanKind? || kind.CheckKind? || kind.RemoveKind? || kind.ObssKind? || kind.GuideKind? || kind.ExposeKind?
    || kind.FocusKind?
  }

  /** The kind a message type names; the branch is chosen by its first letter. */
  function KindOf(word: string): Kind
  {
    var ch := if word == "" then '\0' else LowerChar(word[0]);
    if ch == 'a' then
      if IEquals(word, "append_plan") || IEquals(word, "append_gwac") then AppendKind
      else if IEquals(word, "abort") then ParkKind else NoKind
    else if ch == 'c' then
      if IEquals(word, "check_plan") then CheckKind
      else if IEquals(word, "camera") then CameraKind
      else if IEquals(word, "camset") then CamsetKind else NoKind
    else if ch == 'd' then
      if IEquals(word, "derot") then DerotKind else if IEquals(word, "dome") then DomeKind else NoKind
    else if ch == 'f' then
      if IEquals(word, "focus") then FocusKind
      else if IEquals(word, "focus_sync") then ParkKind
      else if IEquals(word, "fwhm") then FwhmKind
      else if IEquals(word, "filter") then FilterKind else NoKind
    else if ch == 'm' then
      if IEquals(word, "mount") then MountKind else if IEquals(word, "mcover") then McoverKind else NoKind
    else if ch == 'p' then
      if IEquals(word, "plan") then PlanKind else if IEquals(word, "park") then ParkKind else NoKind
    else if ch == 's' then
      if IEquals(word, "slew") then SlewKind else if IEquals(word, "sync") then SyncKind else NoKind
    else if ch == 't' then
      if IEquals(word, "take_image") then AppendKind
      else if IEquals(word, "track") then ParkKind
      else if IEquals(word, "trackvel") then TrackvelKind else NoKind
    else if IEquals(word, "expose") then ExposeKind
    else if IEquals(word, "guide") then GuideKind
    else if IEquals(word, "home") then ParkKind
    else if IEquals(word, "obss") then ObssKind
    else if IEquals(word, "remove_plan") then RemoveKind
    else NoKind
  }

  const NO_BASE: Base := Base("", "", "", "")

  /** A new message; unset stands for the fields its constructor leaves alone. */
  function Blank(kind: Kind, unset: int32): Body
    requires HasBody(kind)
  {
    match kind
    case PlanKind => Plan("", "", "", unset)
    case CheckKind => CheckPlan("")
    case RemoveKind => RemovePlan("")
    case ObssKind => Obss(unset, unset, unset)
    case GuideKind => Guide(0, 0, 0, 0)
    case ExposeKind => Expose(unset, 0, 1)
    case FocusKind => Focus(0, 0, 0, 999999, 999999)
  }

  predicate IsBaseKey(key: string)
  {
    IEquals(key, "utc") || IEquals(key, "gid") || IEquals(key, "uid") || IEquals(key, "cid")
  }

  function SetBase(b: Base, p: Pair): Base
  {
    if IEquals(p.key, "utc") then b.(utc := p.value)
    else if IEquals(p.key, "gid") then b.(gid := p.value)
    else if IEquals(p.key, "uid") then b.(uid := p.value)
    else if IEquals(p.key, "cid") then b.(cid := p.value)
    else b
  }

  function BasisOf(kvs: seq<Pair>): Base
  {
    if kvs == [] then NO_BASE else SetBase(BasisOf(kvs[..|kvs| - 1]), kvs[|kvs| - 1])
  }

  function OwnOf(kvs: seq<Pair>): seq<Pair>
  {
    if kvs == [] then []
    else
      var n := |kvs| - 1;
      OwnOf(kvs[..n]) + if IsBaseKey(kvs[n].key) then [] else [kvs[n]]
  }

  function Put(value: Option<int32>, store: int32 -> Body): Option<Body>
  {
    if value.None? then None else Some(store(value.value))
  }

  /** One pair put into its field. None if it is a number that cannot be read; an unknown key changes nothing. */
  function Assign(m: Body, p: Pair): Option<Body>
  {
    var k, v := p.key, p.value;
    match m
    case Plan(_, _, _, _) => AssignPlan(m, k, v)
    case CheckPlan(_) => if IEquals(k, "plan_sn") then Some(CheckPlan(v)) else Some(m)
    case RemovePlan(_) => if IEquals(k, "plan_sn") then Some(RemovePlan(v)) else Some(m)
    case Obss(_, _, _) => AssignObss(m, k, v)
    case Guide(_, _, _, _) => AssignGuide(m, k, v)
    case Expose(_, _, _) => AssignExpose(m, k, v)
    case Focus(_, _, _, _, _) => AssignFocus(m, k, v)
  }

  function AssignPlan(m: Body, k: string, v: string): Option<Body>
    requires m.Plan?
  {
    var Plan(sn, start, stop, state) := m;
    if IEquals(k, "state") then Put(Stoi(v), (x: int32) => Plan(sn, start, stop, x))
    else if IEquals(k, "plan_sn") then Some(Plan(v, start, stop, state))
    else if IEquals(k, "tm_start") then Some(Plan(sn, v, stop, state))
    else if IEquals(k, "tm_stop") then Some(Plan(sn, start, v, state))
    else Some(m)
  }

  function AssignObss(m: Body, k: string, v: string): Option<Body>
    requires m.Obss?
  {
    var Obss(state, mount, camera) := m;
    if IEquals(k, "state") then Put(Stoi(v), (x: int32) => Obss(x, mount, camera))
    else if IEquals(k, "mount") then Put(Stoi(v), (x: int32) => Obss(state, x, camera))
    else if IEquals(k, "camera") then Put(Stoi(v), (x: int32) => Obss(state, mount, x))
    else Some(m)
  }

  function AssignGuide(m: Body, k: string, v: string): Option<Body>
    requires m.Guide?
  {
    var Guide(result, op, ra, dec) := m;
    if IEquals(k, "ra") then Put(Stoi(v), (x: int32) => Guide(result, op, x, dec))
    else if IEquals(k, "dec") then Put(Stoi(v), (x: int32) => Guide(result, op, ra, x))
    else if IEquals(k, "result") then Put(Stoi(v), (x: int32) => Guide(x, op, ra, dec))
    else if IEquals(k, "op") then Put(Stoi(v), (x: int32) => Guide(result, x, ra, dec))
    else Some(m)
  }

  function AssignExpose(m: Body, k: string, v: string): Option<Body>
    requires m.Expose?
  {
    var Expose(command, frmno, loopno) := m;
    if IEquals(k, "command") then Put(Stoi(v), (x: int32) => Expose(x, frmno, loopno))
    else if IEquals(k, "frmno") then Put(Stoi(v), (x: int32) => Expose(command, x, loopno))
    else if IEquals(k, "loopno") then Put(Stoi(v), (x: int32) => Expose(command, frmno, x))
    else Some(m)
  }

  function AssignFocus(m: Body, k: string, v: string): Option<Body>
    requires m.Focus?
  {
    var Focus(opType, state, relPos, pos, posTar) := m;
    if IEquals(k, "optype") then Put(Stoi(v), (x: int32) => Focus(x, state, relPos, pos, posTar))
    else if IEquals(k, "state") then Put(Stoi(v), (x: int32) => Focus(opType, x, relPos, pos, posTar))
    else if IEquals(k, "relpos") then Put(Stoi(v), (x: int32) => Focus(opType, state, x, pos, posTar))
    else if IEquals(k, "pos") then Put(Stoi(v), (x: int32) => Focus(opType, state, relPos, x, posTar))
    else if IEquals(k, "posTar") then Put(Stoi(v), (x: int32) => Focus(opType, state, relPos, pos, x))
    else Some(m)
  }

  function Assigned(m: Body, kvs: seq<Pair>): Option<Body>
  {
    if kvs == [] then Some(m)
    else
      match Assigned(m, kvs[..|kvs| - 1])
      case None => None
      case Some(x) => Assign(x, kvs[|kvs| - 1])
  }

  function PairsOf(text: string): seq<Pair>
  {
    if text == "" then [] else ReadPairs(Split(text, ','))
  }

  // ---- numbers

  /** The keys that a kind of message reads as whole numbers. */
  predicate IntKey(kind: Kind, key: string)
  {
    match kind
    case PlanKind => IEquals(key, "state")
    case ObssKind => IEquals(key, "state") || IEquals(key, "mount") || IEquals(key, "camera")
    case GuideKind => IEquals(key, "ra") || IEquals(key, "dec") || IEquals(key, "result") || IEquals(key, "op")
    case ExposeKind => IEquals(key, "command") || IEquals(key, "frmno") || IEquals(key, "loopno")
    case FocusKind =>
      IEquals(key, "optype") || IEquals(key, "state") || IEquals(key, "relpos") || IEquals(key, "pos")
      || IEquals(key, "posTar")
    case AppendKind =>
      IEquals(key, "coor_sys") || IEquals(key, "frmcnt") || IEquals(key, "loopcnt") || IEquals(key, "priority")
    case CameraKind =>
      IEquals(key, "state") || IEquals(key, "errcode") || IEquals(key, "freedisk") || IEquals(key, "coolget")
      || IEquals(key, "loopno") || IEquals(key, "frmno")
    case CamsetKind =>
      IEquals(key, "optype") || IEquals(key, "bitDepth") || IEquals(key, "iADC") || IEquals(key, "iReadPort")
      || IEquals(key, "iReadRate") || IEquals(key, "iVSRate") || IEquals(key, "iGain") || IEquals(key, "coolSet")
      || IEquals(key, "bitPixel")
    case DerotKind => IEquals(key, "optype") || IEquals(key, "command") || IEquals(key, "state")
    case DomeKind => IEquals(key, "optype") || IEquals(key, "command") || IEquals(key, "state")
    case McoverKind => IEquals(key, "optype") || IEquals(key, "command") || IEquals(key, "state")
    case FilterKind => IEquals(key, "optype")
    case MountKind => IEquals(key, "state") || IEquals(key, "errcode")
    case SlewKind => IEquals(key, "coor_sys")
    case _ => false
  }

  /** The keys that a kind of message reads as floating-point numbers. */
  predicate RealKey(kind: Kind, key: string)
  {
    match kind
    case AppendKind =>
      IEquals(key, "ra") || IEquals(key, "dec") || IEquals(key, "ecoch") || IEquals(key, "azi") || IEquals(key, "ele")
      || IEquals(key, "exptime") || IEquals(key, "delay")
    case CameraKind => IEquals(key, "left") || IEquals(key, "percent")
    case CamsetKind => IEquals(key, "vsRate") || IEquals(key, "gain")
    case DerotKind => IEquals(key, "postar") || IEquals(key, "pos")
    case DomeKind => IEquals(key, "azi") || IEquals(key, "ele") || IEquals(key, "aziobj") || IEquals(key, "eleobj")
    case FwhmKind => IEquals(key, "value")
    case MountKind =>
      IEquals(key, "mjd") || IEquals(key, "lst") || IEquals(key, "ra") || IEquals(key, "dec") || IEquals(key, "ra2k")
      || IEquals(key, "dec2k") || IEquals(key, "azi") || IEquals(key, "ele")
    case SlewKind =>
      IEquals(key, "ra") || IEquals(key, "dec") || IEquals(key, "ecoch") || IEquals(key, "azi") || IEquals(key, "ele")
    case SyncKind => IEquals(key, "ra") || IEquals(key, "dec") || IEquals(key, "ecoch")
    case TrackvelKind => IEquals(key, "ra") || IEquals(key, "dec")
    case _ => false
  }

  /** What the resolver takes from outside: the value of fields that a constructor leaves unset, and which texts can
      be read as floating-point numbers. */
  datatype Given = Given(unset: int32, readable: string -> bool)

  predicate Unreadable(kind: Kind, p: Pair, given: Given)
  {
    (IntKey(kind, p.key) && Stoi(p.value) == None) || (RealKey(kind, p.key) && !given.readable(p.value))
  }

  /** The loop of a kind without a Body: whether it reads all its numbers. */
  predicate AllRead(kind: Kind, kvs: seq<Pair>, given: Given)
  {
    kvs == [] || (AllRead(kind, kvs[..|kvs| - 1], given) && !Unreadable(kind, kvs[|kvs| - 1], given))
  }

  function Filled(word: string, pairs: seq<Pair>, given: Given): Resolved
  {
    var kind := KindOf(word);
    if kind == NoKind then Rejected
    else if !HasBody(kind) then
      if AllRead(kind, OwnOf(pairs), given) then Elsewhere else NullAccess
    else
      match Assigned(Blank(kind, given.unset), OwnOf(pairs))
      case None => NullAccess
      case Some(m) => Known(Message(BasisOf(pairs), m))
  }

  /** The line from its first character other than a blank up to its first NUL. */
  function Started(rcvd: string): string
  {
    DropAll(rcvd[..IndexOf(rcvd, '\0')], ' ')
  }

  function WordOf(rcvd: string): string
  {
    Started(rcvd)[..IndexOf(Started(rcvd), ' ')]
  }

  function PairsIn(rcvd: string): seq<Pair>
  {
    PairsOf(DropAll(Started(rcvd)[IndexOf(Started(rcvd), ' ')..], ' '))
  }

  function Resolve(rcvd: string, given: Given): Resolved
  {
    Filled(WordOf(rcvd), PairsIn(rcvd), given)
  }

  // ---- numbers that cannot be read

  predicate AnyUnreadable(kind: Kind, kvs: seq<Pair>, given: Given)
  {
    exists i :: 0 <= i < |kvs| && Unreadable(kind, kvs[i], given)
  }

  lemma AssignFails(m: Body, p: Pair, given: Given)
    ensures Assign(m, p) == None <==> Unreadable(KindOfBody(m), p, given)
    ensures Assign(m, p).Some? ==> KindOfBody(Assign(m, p).value) == KindOfBody(m)
  {
    hide IEquals, Stoi;
  }

  lemma {:induction false} AssignedFails(m: Body, kvs: seq<Pair>, given: Given)
    ensures Assigned(m, kvs) == None <==> AnyUnreadable(KindOfBody(m), kvs, given)
    ensures Assigned(m, kvs).Some? ==> KindOfBody(Assigned(m, kvs).value) == KindOfBody(m)
    decreases |kvs|
  {
    hide Assign, KindOfBody, Unreadable;
    if kvs != [] {
      var n := |kvs| - 1;
      AssignedFails(m, kvs[..n], given);
      if Assigned(m, kvs[..n]).Some? {
        AssignFails(Assigned(m, kvs[..n]).value, kvs[n], given);
      }
      LastUnreadable(KindOfBody(m), kvs, given);
    }
  }

  lemma {:induction false} ReadFails(kind: Kind, kvs: seq<Pair>, given: Given)
    ensures !AllRead(kind, kvs, given) <==> AnyUnreadable(kind, kvs, given)
    decreases |kvs|
  {
    hide Unreadable;
    if kvs != [] {
      ReadFails(kind, kvs[..|kvs| - 1], given);
      LastUnreadable(kind, kvs, given);
    }
  }

  lemma LastUnreadable(kind: Kind, kvs: seq<Pair>, given: Given)
    requires kvs != []
    ensures AnyUnreadable(kind, kvs, given) <==>
      AnyUnreadable(kind, kvs[..|kvs| - 1], given) || Unreadable(kind, kvs[|kvs| - 1], given)
  {
    hide Unreadable;
    var n := |kvs| - 1;
    if AnyUnreadable(kind, kvs[..n], given) {
      var i :| 0 <= i < n && Unreadable(kind, kvs[..n][i], given);
      assert Unreadable(kind, kvs[i], given);
    }
    if AnyUnreadable(kind, kvs, given) {
      var i :| 0 <= i < |kvs| && Unreadable(kind, kvs[i], given);
      assert i < n ==> kvs[..n][i] == kvs[i];
    }
  }

  lemma SameStart(a: string, b: string)
    requires IEquals(a, b) && b != ""
    ensures |a| == |b| && LowerChar(a[0]) == LowerChar(b[0])
  {
    assert Lower(a)[0] == Lower(b)[0];
  }

  /** Equal length and first letter: what all keys equal to a name share. */
  lemma SameStarts(key: string)
    ensures forall name: string :: IEquals(key, name) && name != "" ==>
      |key| == |name| && LowerChar(key[0]) == LowerChar(name[0])
  {
    hide IEquals;
    forall name: string | IEquals(key, name) && name != ""
      ensures |key| == |name| && LowerChar(key[0]) == LowerChar(name[0])
    {
      SameStart(key, name);
    }
  }

  /** Keys of three letters that a kind reads as a number start otherwise than the header keys. */
  lemma IntKeyOwn(kind: Kind, key: string)
    requires IntKey(kind, key)
    ensures |key| == 3 ==> LowerChar(key[0]) == 'd' || LowerChar(key[0]) == 'p'
  {
    hide IEquals;
    SameStarts(key);
  }

  lemma RealKeyOwn(kind: Kind, key: string)
    requires RealKey(kind, key)
    ensures |key| == 3 ==> LowerChar(key[0]) in ['d', 'a', 'e', 'p', 'm', 'l']
  {
    hide IEquals;
    SameStarts(key);
  }

  lemma BaseKeyStart(key: string)
    requires IsBaseKey(key)
    ensures |key| == 3 && LowerChar(key[0]) in ['u', 'g', 'c']
  {
    hide IEquals;
    SameStarts(key);
  }

  lemma BaseReadable(kind: Kind, p: Pair, given: Given)
    requires IsBaseKey(p.key)
    ensures !Unreadable(kind, p, given)
  {
    hide IntKey, RealKey, IsBaseKey;
    BaseKeyStart(p.key);
    if IntKey(kind, p.key) {
      IntKeyOwn(kind, p.key);
    }
    if RealKey(kind, p.key) {
      RealKeyOwn(kind, p.key);
    }
  }

  lemma {:induction false} OwnUnreadable(kind: Kind, kvs: seq<Pair>, given: Given)
    ensures AnyUnreadable(kind, OwnOf(kvs), given) <==> AnyUnreadable(kind, kvs, given)
    decreases |kvs|
  {
    hide IsBaseKey, AnyUnreadable, Unreadable;
    if kvs != [] {
      var n := |kvs| - 1;
      OwnUnreadable(kind, kvs[..n], given);
      LastUnreadable(kind, kvs, given);
      if IsBaseKey(kvs[n].key) {
        BaseReadable(kind, kvs[n], given);
        assert OwnOf(kvs[..n]) + [] == OwnOf(kvs[..n]);
      } else {
        var own := OwnOf(kvs[..n]) + [kvs[n]];
        LastUnreadable(kind, own, given);
        assert own[..|own| - 1] == OwnOf(kvs[..n]);
      }
    }
  }

  lemma BlankKind(kind: Kind, unset: int32)
    requires HasBody(kind)
    ensures KindOfBody(Blank(kind, unset)) == kind
  {
  }

  /** Exactly the lines in which a number of the message's kind cannot be read lead to the null pointer. */
  lemma NullAccessExact(rcvd: string, given: Given)
    ensures Resolve(rcvd, given) == NullAccess <==> AnyUnreadable(KindOf(WordOf(rcvd)), PairsIn(rcvd), given)
  {
    hide KindOf, WordOf, PairsIn, Assigned, AllRead, OwnOf, Blank, KindOfBody, Unreadable, BasisOf;
    var kind := KindOf(WordOf(rcvd));
    OwnUnreadable(kind, PairsIn(rcvd), given);
    if kind == NoKind {
      NoNumbers(PairsIn(rcvd), given);
    } else if HasBody(kind) {
      BlankKind(kind, given.unset);
      AssignedFails(Blank(kind, given.unset), OwnOf(PairsIn(rcvd)), given);
    } else {
      ReadFails(kind, OwnOf(PairsIn(rcvd)), given);
    }
  }

  lemma NoNumbers(kvs: seq<Pair>, given: Given)
    ensures !AnyUnreadable(NoKind, kvs, given)
  {
  }

  const UNREADABLE: Pair := Pair("state", "x")

  lemma UnreadablePlain()
    ensures PlainPair(UNREADABLE)
  {
    WordPlain("state");
    WordPlain("x");
  }

  lemma UnreadableText()
    ensures JoinAll([UNREADABLE]) == "state=x,"
  {
    assert [UNREADABLE][1..] == [];
    assert JoinKv(UNREADABLE) + "" == "state=x,";
  }

  lemma UnreadablePairs()
    ensures PairsOf("state=x,") == [UNREADABLE]
  {
    hide PlainPair, JoinAll, Split, ReadPairs;
    UnreadablePlain();
    UnreadableText();
    PairsReadBack([UNREADABLE], "");
    assert JoinAll([UNREADABLE]) + "" == "state=x,";
  }

  /** Two such lines, the second of the kind that cameras send. */
  lemma UnreadableLine(given: Given)
    ensures Resolve("plan state=x,", given) == NullAccess && Resolve("camera state=x,", given) == NullAccess
  {
    hide Resolve, KindOf, AnyUnreadable, WordOf, PairsIn, PairsOf, Filled;
    UnreadablePairs();
    StateWords();
    OneUnreadable(given);
    Apart("plan", "state=x,", given);
    assert "plan" + " " + "state=x," == "plan state=x,";
    NullAccessExact("plan state=x,", given);
    Apart("camera", "state=x,", given);
    assert "camera" + " " + "state=x," == "camera state=x,";
    NullAccessExact("camera state=x,", given);
  }

  lemma StateWords()
    ensures KindOf("plan") == PlanKind && KindOf("camera") == CameraKind
  {
    hide IEquals;
    Same("plan");
    Same("camera");
    Differ("camera", "check_plan", 1);
  }

  lemma OneUnreadable(given: Given)
    ensures AnyUnreadable(PlanKind, [UNREADABLE], given) && AnyUnreadable(CameraKind, [UNREADABLE], given)
  {
    hide IEquals;
    assert Stoi("x") == None;
    Same("state");
    assert Unreadable(PlanKind, [UNREADABLE][0], given) && Unreadable(CameraKind, [UNREADABLE][0], given);
  }

  // ---- the round trip

  predicate Field(s: string)
  {
    s == "" || Plain(s)
  }

  /** Every string field is empty, or free of separators and of blanks at its ends. */
  predicate Clean(m: Message)
  {
    && Field(m.base.utc) && Field(m.base.gid) && Field(m.base.uid) && Field(m.base.cid)
    && CleanBody(m.body)
  }

  predicate CleanBody(m: Body)
  {
    && (m.Plan? ==> Field(m.planSn) && Field(m.tmStart) && Field(m.tmStop))
    && (m.CheckPlan? || m.RemovePlan? ==> Field(m.planSn))
  }

  /** The body with the fields that its operation does not print set back to their defaults. */
  function Printed(m: Body): Body
  {
    if !m.Focus? then m
    else if m.opType == 0 then Focus(0, m.state, 0, m.pos, m.posTar)
    else if m.opType == 1 then Focus(1, 0, m.relPos, 999999, 999999)
    else Focus(m.opType, 0, 0, 999999, 999999)
  }

  lemma BasisAppended(kvs: seq<Pair>, key: string, value: string)
    ensures BasisOf(kvs + Optional(key, value)) ==
            if value == "" then BasisOf(kvs) else SetBase(BasisOf(kvs), Pair(key, value))
  {
    assert kvs + [] == kvs;
    assert (kvs + [Pair(key, value)])[..|kvs|] == kvs;
  }

  lemma BaseKeys()
    ensures !IEquals("gid", "utc")
    ensures !IEquals("uid", "utc") && !IEquals("uid", "gid")
    ensures !IEquals("cid", "utc") && !IEquals("cid", "gid") && !IEquals("cid", "uid")
  {
    Differ("gid", "utc", 0);
    Differ("uid", "utc", 1);
    Differ("uid", "gid", 0);
    Differ("cid", "utc", 0);
    Differ("cid", "gid", 0);
    Differ("cid", "uid", 0);
  }

  lemma BaseReadBack(b: Base)
    ensures BasisOf(BasePairs(b)) == b
  {
    hide IEquals, BasisOf, Optional;
    BaseKeys();
    Same("utc");
    Same("gid");
    Same("uid");
    Same("cid");
    BasisAppended([], "utc", b.utc);
    assert [] + Optional("utc", b.utc) == Optional("utc", b.utc);
    NoBasis();
    BasisAppended(Optional("utc", b.utc), "gid", b.gid);
    BasisAppended(Optional("utc", b.utc) + Optional("gid", b.gid), "uid", b.uid);
    BasisAppended(Optional("utc", b.utc) + Optional("gid", b.gid) + Optional("uid", b.uid), "cid", b.cid);
  }

  lemma NoBasis()
    ensures BasisOf([]) == NO_BASE && OwnOf([]) == []
  {
  }

  lemma Same(key: string)
    ensures IEquals(key, key)
  {
  }

  lemma OnePair(kvs: seq<Pair>, p: Pair)
    ensures BasisOf(kvs + [p]) == SetBase(BasisOf(kvs), p)
    ensures OwnOf(kvs + [p]) == OwnOf(kvs) + if IsBaseKey(p.key) then [] else [p]
  {
    hide IsBaseKey, SetBase;
    assert (kvs + [p])[..|kvs|] == kvs;
  }

  lemma {:induction false} OwnApart(base: seq<Pair>, own: seq<Pair>)
    requires forall i :: 0 <= i < |base| ==> IsBaseKey(base[i].key)
    requires forall i :: 0 <= i < |own| ==> !IsBaseKey(own[i].key)
    ensures BasisOf(base + own) == BasisOf(base) && OwnOf(base + own) == own
    decreases |base| + |own|
  {
    hide IsBaseKey, SetBase, BasisOf, OwnOf;
    NoBasis();
    if own != [] {
      var p, rest := own[|own| - 1], own[..|own| - 1];
      NotBase(BasisOf(base), p);
      OwnApart(base, rest);
      OnePair(base + rest, p);
      assert base + rest + [p] == base + own && rest + [p] == own;
    } else if base != [] {
      var p, rest := base[|base| - 1], base[..|base| - 1];
      OwnApart(rest, []);
      OnePair(rest, p);
      assert rest + [] == rest && rest + [p] == base && base + own == base;
    } else {
      assert base + own == [];
    }
  }

  lemma NotBase(b: Base, p: Pair)
    requires !IsBaseKey(p.key)
    ensures SetBase(b, p) == b
  {
  }

  lemma BaseKeyed(b: Base, i: int)
    requires 0 <= i < |BasePairs(b)|
    ensures IsBaseKey(BasePairs(b)[i].key)
    ensures BasePairs(b)[i].value in [b.utc, b.gid, b.uid, b.cid] && BasePairs(b)[i].value != ""
    ensures BasePairs(b)[i].key in ["utc", "gid", "uid", "cid"]
  {
    hide IEquals;
    Same("utc");
    Same("gid");
    Same("uid");
    Same("cid");
  }

  predicate OwnKey(key: string)
  {
    Plain(key) && !IsBaseKey(key)
  }

  predicate IsWord(s: string)
  {
    s == "" || (('a' <= s[0] <= 'z' || s[0] == '_' || s[0] == 'T') && IsWord(s[1..]))
  }

  lemma {:induction false} WordChars(s: string, i: int)
    requires IsWord(s) && 0 <= i < |s|
    ensures 'a' <= s[i] <= 'z' || s[i] == '_' || s[i] == 'T'
    decreases |s|
  {
    if i > 0 {
      WordChars(s[1..], i - 1);
    }
  }

  lemma WordPlain(s: string)
    requires s != "" && IsWord(s)
    ensures Plain(s)
  {
    hide IsWord;
    forall i | 0 <= i < |s|
      ensures 'a' <= s[i] <= 'z' || s[i] == '_' || s[i] == 'T'
    {
      WordChars(s, i);
    }
  }

  lemma IsOwnKey(key: string)
    requires key != "" && IsWord(key) && (|key| != 3 || key[0] == 'd' || key[0] == 'p')
    ensures OwnKey(key)
  {
    WordPlain(key);
    Differ(key, "utc", 0);
    Differ(key, "gid", 0);
    Differ(key, "uid", 0);
    Differ(key, "cid", 0);
  }

  lemma SerialKey()
    ensures OwnKey("plan_sn")
  {
    hide OwnKey;
    IsOwnKey("plan_sn");
  }

  lemma TimeKeys()
    ensures OwnKey("tm_start") && OwnKey("tm_stop")
  {
    hide OwnKey;
    IsOwnKey("tm_start");
    IsOwnKey("tm_stop");
  }

  lemma StateKeys()
    ensures OwnKey("state") && OwnKey("mount") && OwnKey("camera")
  {
    hide OwnKey;
    IsOwnKey("state");
    IsOwnKey("mount");
    IsOwnKey("camera");
  }

  lemma GuideKeys()
    ensures OwnKey("result") && OwnKey("op") && OwnKey("ra") && OwnKey("dec")
  {
    hide OwnKey;
    IsOwnKey("result");
    IsOwnKey("op");
    IsOwnKey("ra");
    IsOwnKey("dec");
  }

  lemma ExposeKeys()
    ensures OwnKey("command") && OwnKey("frmno") && OwnKey("loopno")
  {
    hide OwnKey;
    IsOwnKey("command");
    IsOwnKey("frmno");
    IsOwnKey("loopno");
  }

  lemma FocusKeys()
    ensures OwnKey("optype") && OwnKey("pos") && OwnKey("posTar") && OwnKey("relpos")
  {
    hide OwnKey;
    IsOwnKey("optype");
    IsOwnKey("pos");
    IsOwnKey("posTar");
    IsOwnKey("relpos");
  }

  ghost predicate OwnGood(kvs: seq<Pair>)
  {
    forall i :: 0 <= i < |kvs| ==> OwnKey(kvs[i].key) && Plain(kvs[i].value)
  }

  lemma GoodParts()
    ensures forall a, b {:trigger OwnGood(a + b)} :: OwnGood(a) && OwnGood(b) ==> OwnGood(a + b)
    ensures forall k, v {:trigger Optional(k, v)} :: OwnKey(k) && Field(v) ==> OwnGood(Optional(k, v))
    ensures forall k, n: int32 {:trigger Number(k, n)} :: OwnKey(k) ==> OwnGood(Number(k, n))
    ensures OwnGood([])
  {
    hide Plain, Itoa, OwnKey;
    forall n: int32
      ensures Plain(Itoa(n))
    {
      ItoaPlain(n);
    }
  }

  /** Every kind prints only keys that are not header keys, and values that can be read back. */
  lemma OwnKeyed(m: Body)
    requires CleanBody(m)
    ensures OwnGood(OwnPairs(m))
  {
    hide OwnGood, OwnKey, Field, Optional, Number;
    GoodParts();
    SerialKey();
    TimeKeys();
    StateKeys();
    GuideKeys();
    ExposeKeys();
    FocusKeys();
  }

  // ---- reading the fields of each kind back

  /** What the next pair makes of the message so far. */
  function Then(m: Option<Body>, key: string, value: string): Option<Body>
  {
    if m.None? || value == "" then m else Assign(m.value, Pair(key, value))
  }

  lemma AssignedText(m: Body, kvs: seq<Pair>, key: string, value: string)
    ensures Assigned(m, kvs + Optional(key, value)) == Then(Assigned(m, kvs), key, value)
  {
    assert kvs + [] == kvs;
    assert (kvs + [Pair(key, value)])[..|kvs|] == kvs;
  }

  lemma AssignedNumber(m: Body, kvs: seq<Pair>, key: string, n: int32)
    ensures Assigned(m, kvs + Number(key, n)) == Then(Assigned(m, kvs), key, Itoa(n))
    ensures Stoi(Itoa(n)) == Some(n) && Itoa(n) != ""
  {
    hide Itoa, Stoi, Assign, Plain;
    assert (kvs + Number(key, n))[..|kvs|] == kvs;
    StoiItoa(n);
    ItoaPlain(n);
    PlainNonempty(Itoa(n));
  }

  lemma PlainNonempty(s: string)
    requires Plain(s)
    ensures s != ""
  {
  }

  lemma AssignedNone(m: Body)
    ensures Assigned(m, []) == Some(m)
  {
  }

  lemma PlanReadBack(m: Body, unset: int32)
    requires m.Plan?
    ensures Assigned(Blank(PlanKind, unset), OwnPairs(m)) == Some(m)
  {
    hide IEquals, Assigned, Optional, Number, Stoi, Itoa;
    Same("plan_sn");
    Same("tm_start");
    Same("tm_stop");
    Same("state");
    Differ("plan_sn", "state", 0);
    Differ("tm_start", "state", 0);
    Differ("tm_start", "plan_sn", 0);
    Differ("tm_stop", "state", 0);
    Differ("tm_stop", "plan_sn", 0);
    Differ("tm_stop", "tm_start", 0);
    var blank := Blank(PlanKind, unset);
    var sn, start, stop :=
      Optional("plan_sn", m.planSn), Optional("tm_start", m.tmStart), Optional("tm_stop", m.tmStop);
    AssignedNone(blank);
    AssignedText(blank, [], "plan_sn", m.planSn);
    assert [] + sn == sn;
    AssignedText(blank, sn, "tm_start", m.tmStart);
    AssignedText(blank, sn + start, "tm_stop", m.tmStop);
    AssignedNumber(blank, sn + start + stop, "state", m.state);
  }

  lemma SerialReadBack(m: Body, unset: int32)
    requires m.CheckPlan? || m.RemovePlan?
    ensures Assigned(Blank(if m.CheckPlan? then CheckKind else RemoveKind, unset), OwnPairs(m))
            == Some(m)
  {
    hide IEquals, Assigned, Optional;
    Same("plan_sn");
    var blank := Blank(if m.CheckPlan? then CheckKind else RemoveKind, unset);
    AssignedNone(blank);
    AssignedText(blank, [], "plan_sn", m.planSn);
    assert [] + OwnPairs(m) == OwnPairs(m);
  }

  lemma ObssReadBack(m: Body, unset: int32)
    requires m.Obss?
    ensures Assigned(Blank(ObssKind, unset), OwnPairs(m)) == Some(m)
  {
    hide IEquals, Assigned, Number, Stoi, Itoa;
    Same("state");
    Same("mount");
    Same("camera");
    Differ("mount", "state", 0);
    Differ("camera", "state", 0);
    Differ("camera", "mount", 0);
    var blank := Blank(ObssKind, unset);
    var state := Number("state", m.state);
    AssignedNone(blank);
    AssignedNumber(blank, [], "state", m.state);
    assert [] + state == state;
    AssignedNumber(blank, state, "mount", m.mount);
    AssignedNumber(blank, state + Number("mount", m.mount), "camera", m.camera);
  }

  lemma GuideReadBack(m: Body, unset: int32)
    requires m.Guide?
    ensures Assigned(Blank(GuideKind, unset), OwnPairs(m)) == Some(m)
  {
    hide IEquals, Assigned, Number, Stoi, Itoa;
    Same("result");
    Same("op");
    Same("ra");
    Same("dec");
    Differ("result", "ra", 0);
    Differ("result", "dec", 0);
    Differ("op", "ra", 0);
    Differ("op", "dec", 0);
    Differ("op", "result", 0);
    Differ("dec", "ra", 0);
    var blank := Blank(GuideKind, unset);
    var result, op, ra := Number("result", m.result), Number("op", m.op), Number("ra", m.ra);
    AssignedNone(blank);
    AssignedNumber(blank, [], "result", m.result);
    assert [] + result == result;
    AssignedNumber(blank, result, "op", m.op);
    assert result + op + [] == result + op;
    AssignedNumber(blank, result + op, "ra", m.ra);
    AssignedNumber(blank, result + op + ra, "dec", m.dec);
    assert result + op + ra + Number("dec", m.dec) == result + op + (ra + Number("dec", m.dec));
  }

  lemma ExposeReadBack(m: Body, unset: int32)
    requires m.Expose?
    ensures Assigned(Blank(ExposeKind, unset), OwnPairs(m)) == Some(m)
  {
    hide IEquals, Assigned, Number, Stoi, Itoa;
    Same("command");
    Same("frmno");
    Same("loopno");
    Differ("frmno", "command", 0);
    Differ("loopno", "command", 0);
    Differ("loopno", "frmno", 0);
    var blank := Blank(ExposeKind, unset);
    var command := Number("command", m.command);
    AssignedNone(blank);
    AssignedNumber(blank, [], "command", m.command);
    assert [] + command == command;
    AssignedNumber(blank, command, "frmno", m.frmno);
    AssignedNumber(blank, command + Number("frmno", m.frmno), "loopno", m.loopno);
  }

  lemma FocusReadBack(m: Body, unset: int32)
    requires m.Focus?
    ensures Assigned(Blank(FocusKind, unset), OwnPairs(m)) == Some(Printed(m))
  {
    hide IEquals, Assigned, Number, Stoi, Itoa;
    Same("optype");
    Same("state");
    Same("pos");
    Same("posTar");
    Same("relpos");
    Differ("state", "optype", 0);
    Differ("relpos", "optype", 0);
    Differ("relpos", "state", 0);
    Differ("pos", "optype", 0);
    Differ("pos", "state", 0);
    Differ("pos", "relpos", 0);
    Differ("posTar", "optype", 0);
    Differ("posTar", "state", 0);
    Differ("posTar", "relpos", 0);
    Differ("posTar", "pos", 0);
    var blank := Blank(FocusKind, unset);
    var opType, state, pos := Number("optype", m.opType), Number("state", m.state), Number("pos", m.pos);
    AssignedNone(blank);
    AssignedNumber(blank, [], "optype", m.opType);
    assert [] + opType == opType;
    assert opType + [] == opType;
    AssignedNumber(blank, opType, "relpos", m.relPos);
    AssignedNumber(blank, opType, "state", m.state);
    AssignedNumber(blank, opType + state, "pos", m.pos);
    AssignedNumber(blank, opType + state + pos, "posTar", m.posTar);
    assert opType + state + pos + Number("posTar", m.posTar) == opType + (state + pos + Number("posTar", m.posTar));
  }

  function KindOfBody(m: Body): Kind
  {
    match m
    case Plan(_, _, _, _) => PlanKind
    case CheckPlan(_) => CheckKind
    case RemovePlan(_) => RemoveKind
    case Obss(_, _, _) => ObssKind
    case Guide(_, _, _, _) => GuideKind
    case Expose(_, _, _) => ExposeKind
    case Focus(_, _, _, _, _) => FocusKind
  }

  lemma OwnReadBack(m: Body, unset: int32)
    ensures Assigned(Blank(KindOfBody(m), unset), OwnPairs(m)) == Some(Printed(m))
  {
    hide Assigned, OwnPairs;
    match m
    case Plan(_, _, _, _) => PlanReadBack(m, unset);
    case CheckPlan(_) => SerialReadBack(m, unset);
    case RemovePlan(_) => SerialReadBack(m, unset);
    case Obss(_, _, _) => ObssReadBack(m, unset);
    case Guide(_, _, _, _) => GuideReadBack(m, unset);
    case Expose(_, _, _) => ExposeReadBack(m, unset);
    case Focus(_, _, _, _, _) => FocusReadBack(m, unset);
  }

  lemma WordReadBack(m: Body)
    ensures KindOf(Word(m)) == KindOfBody(m)
  {
    hide IEquals;
    Same(Word(m));
    Differ("guide", "expose", 0);
    Differ("obss", "expose", 0);
    Differ("obss", "guide", 0);
    Differ("obss", "home", 0);
    Differ("remove_plan", "expose", 0);
    Differ("remove_plan", "guide", 0);
    Differ("remove_plan", "home", 0);
    Differ("remove_plan", "obss", 0);
  }

  // ---- the whole line

  lemma AllPlain(m: Message, i: int)
    requires Clean(m) && 0 <= i < |Pairs(m)|
    ensures PlainPair(Pairs(m)[i])
  {
    hide OwnPairs, Plain, BasePairs, IsBaseKey;
    if i < |BasePairs(m.base)| {
      BaseKeyed(m.base, i);
      BaseWords();
      FieldPlain(BasePairs(m.base)[i].value);
    } else {
      OwnKeyed(m.body);
      assert OwnKey(OwnPairs(m.body)[i - |BasePairs(m.base)|].key);
    }
  }

  lemma FieldPlain(s: string)
    requires Field(s) && s != ""
    ensures Plain(s)
  {
  }

  lemma BaseWords()
    ensures Plain("utc") && Plain("gid") && Plain("uid") && Plain("cid")
  {
    hide Plain;
    WordPlain("utc");
    WordPlain("gid");
    WordPlain("uid");
    WordPlain("cid");
  }

  lemma PairsSplit(m: Message)
    requires Clean(m)
    ensures BasisOf(Pairs(m)) == m.base && OwnOf(Pairs(m)) == OwnPairs(m.body)
  {
    hide OwnPairs, BasePairs, CleanBody, BasisOf, OwnOf, IsBaseKey, Plain;
    forall i | 0 <= i < |BasePairs(m.base)|
      ensures IsBaseKey(BasePairs(m.base)[i].key)
    {
      BaseKeyed(m.base, i);
    }
    OwnKeyed(m.body);
    forall i | 0 <= i < |OwnPairs(m.body)|
      ensures !IsBaseKey(OwnPairs(m.body)[i].key)
    {
      assert OwnKey(OwnPairs(m.body)[i].key);
    }
    OwnApart(BasePairs(m.base), OwnPairs(m.body));
    BaseReadBack(m.base);
  }

  lemma FilledBack(m: Message, given: Given)
    requires Clean(m)
    ensures Filled(Word(m.body), Pairs(m), given) == Known(Message(m.base, Printed(m.body)))
  {
    hide OwnPairs, Pairs, Clean, BasisOf, OwnOf, KindOf, Word, Assigned, Blank, AllRead, Printed;
    WordReadBack(m.body);
    PairsSplit(m);
    OwnReadBack(m.body, given.unset);
  }

  lemma WordWhole(m: Body)
    ensures Word(m) != "" && ' ' !in Word(m) && '\0' !in Word(m)
  {
  }

  lemma Apart(word: string, rest: string, given: Given)
    requires word != "" && ' ' !in word && '\0' !in word && '\0' !in rest
    requires rest != "" ==> rest[0] != ' '
    ensures WordOf(word + " " + rest) == word && PairsIn(word + " " + rest) == PairsOf(rest)
    ensures Resolve(word + " " + rest, given) == Filled(word, PairsOf(rest), given)
  {
    hide Filled, PairsOf, IndexOf;
    var s := word + " " + rest;
    IndexIs(s, '\0', "");
    assert s + "" == s && s[..|s|] == s;
    assert s[0] in word;
    IndexIs(word, ' ', " " + rest);
    assert word + (" " + rest) == s;
    assert s[..|word|] == word && s[|word|..] == " " + rest;
    assert (" " + rest)[1..] == rest;
    assert DropAll(" " + rest, ' ') == DropAll(rest, ' ') == rest;
  }

  /** Resolving a printed message gives the message back, with its unprinted fields at their defaults. */
  lemma LineReadBack(m: Message, tail: string, given: Given)
    requires Clean(m) && (tail == "" || tail == "\n")
    ensures Resolve(Line(m) + tail, given) == Known(Message(m.base, Printed(m.body)))
  {
    hide Pairs, Clean, PlainPair, JoinAll, Resolve, Filled, Split, Word, Printed;
    var kvs := Pairs(m);
    forall i | 0 <= i < |kvs|
      ensures PlainPair(kvs[i])
    {
      AllPlain(m, i);
    }
    PairsReadBack(kvs, tail);
    NoNul(kvs);
    JoinAllHead(kvs, tail);
    WordWhole(m.body);
    EmptyText(kvs, tail);
    var rest := JoinAll(kvs) + tail;
    assert Line(m) + tail == Word(m.body) + " " + rest;
    Apart(Word(m.body), rest, given);
    FilledBack(m, given);
  }

  lemma EmptyText(kvs: seq<Pair>, tail: string)
    ensures JoinAll(kvs) + tail == "" ==> kvs == []
  {
  }

  /** The fields that a focus message does not print are at their defaults. */
  predicate Whole(m: Body)
  {
    m.Focus? ==>
      && (m.opType != 0 ==> m.state == 0 && m.pos == m.posTar == 999999)
      && (m.opType != 1 ==> m.relPos == 0)
  }

  /** The round trip for every modelled message; it gives the message itself back exactly when the fields
      that are not printed are at their defaults. */
  lemma RoundTrip(m: Message, given: Given)
    requires Clean(m)
    ensures Resolve(ToString(m), given) == Known(Message(m.base, Printed(m.body)))
    ensures Resolve(ToString(m), given) == Known(m) <==> Whole(m.body)
  {
    hide Resolve, Line, Clean;
    LineReadBack(m, "\n", given);
  }
}
