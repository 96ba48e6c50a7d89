/** What holds in every reachable state of the observation system. */
module ObservationSafety {
  import opened Options
  import opened ObservationState

  // ---- the counters

  ghost predicate Counted(s: Sys)
  {
    && s.exposing == CountExposing(s.cams)
    && s.camonline == CountOnline(s.cams)
    && forall i :: 0 <= i < |s.cams| && Exposing(s.cams[i]) ==> s.cams[i].conn.Some?
  }

  function One(b: bool): int
  {
    if b then 1 else 0
  }

  lemma {:induction false} CountChanged(cams: seq<CameraInfo>, i: int, c: CameraInfo)
    requires 0 <= i < |cams|
    ensures CountExposing(cams[i := c]) == CountExposing(cams) - One(Exposing(cams[i])) + One(Exposing(c))
    ensures CountOnline(cams[i := c]) == CountOnline(cams) - One(cams[i].conn.Some?) + One(c.conn.Some?)
    decreases |cams|
  {
    var n := |cams| - 1;
    if i < n {
      CountChanged(cams[..n], i, c);
      assert cams[i := c][..n] == cams[..n][i := c];
    } else {
      assert cams[i := c][..n] == cams[..n];
    }
  }

  lemma CountAppended(cams: seq<CameraInfo>, c: CameraInfo)
    ensures CountExposing(cams + [c]) == CountExposing(cams) + One(Exposing(c))
    ensures CountOnline(cams + [c]) == CountOnline(cams) + One(c.conn.Some?)
  {
    assert (cams + [c])[..|cams|] == cams;
  }

  lemma {:induction false} ExposingOnline(cams: seq<CameraInfo>)
    requires forall i :: 0 <= i < |cams| && Exposing(cams[i]) ==> cams[i].conn.Some?
    ensures CountExposing(cams) <= CountOnline(cams)
  {
    if cams != [] {
      ExposingOnline(cams[..|cams| - 1]);
    }
  }

  lemma {:induction false} ExposingPositive(cams: seq<CameraInfo>, i: int)
    requires 0 <= i < |cams|
    ensures Exposing(cams[i]) ==> CountExposing(cams) > 0
    ensures cams[i].conn.Some? ==> CountOnline(cams) > 0
    decreases |cams|
  {
    if i < |cams| - 1 {
      ExposingPositive(cams[..|cams| - 1], i);
    }
  }

  lemma CoupleKeepsCounts(s: Sys, conn: int, cid: string, initial: int)
    requires Counted(s)
    ensures initial <= CAMCTL_IDLE ==> Counted(CoupleCamera(s, conn, cid, initial))
  {
    hide CountExposing, CountOnline;
    var i := FindCid(s.cams, cid, 0);
    if i == |s.cams| {
      CountAppended(s.cams, CameraInfo(cid, Some(conn), initial));
    } else if s.cams[i].conn.None? {
      CountChanged(s.cams, i, s.cams[i].(conn := Some(conn)));
    }
  }

  lemma CloseKeepsCounts(s: Sys, conn: int)
    requires Counted(s)
    ensures Counted(CloseCamera(s, conn))
  {
    var i := FindConn(s.cams, conn, 0);
    if i < |s.cams| {
      ExposingPositive(s.cams, i);
      CountChanged(s.cams, i, s.cams[i].(state := CAMCTL_ERROR, conn := None));
    }
  }

  /** A report keeps the counters right exactly when it comes from a coupled camera or says it is not exposing. */
  lemma ReportKeepsCounts(s: Sys, conn: int, cid: string, state: int)
    requires Counted(s)
    ensures Counted(CameraReport(s, conn, cid, state)) <==> Coupled(s.cams, conn) || state <= CAMCTL_IDLE
  {
    hide CountExposing, CountOnline;
    var i := FindConn(s.cams, conn, 0);
    if i < |s.cams| {
      ExposingPositive(s.cams, i);
      CountChanged(s.cams, i, CameraInfo(cid, Some(conn), state));
    }
  }

  /** Such a report, before any camera has coupled, makes the counter say one. */
  lemma StrayReport(initial: int)
    ensures var s := CameraReport(Start(initial), 7, "", 2); s.exposing == 1 && s.cams == [] && !Counted(s)
  {
  }

  lemma StepKeepsCounts(s: Sys, e: Event)
    requires Counted(s) && Enabled(s, e)
    ensures Counted(Next(s, e))
  {
    hide CountExposing, CountOnline, CloseCamera, CameraReport, CoupleCamera;
    match e
    case Couple(conn, cid, initial) => CoupleKeepsCounts(s, conn, cid, initial);
    case Close(conn) => CloseKeepsCounts(s, conn);
    case Status(conn, cid, state) => ReportKeepsCounts(s, conn, cid, state);
    case _ =>
  }

  // ---- the plan callback log

  /** Where the log stands: between plans, or inside the block of a plan that has or has not started. */
  datatype Phase = Between | Cataloged(sn: string) | Running(sn: string) | Broken

  function Advance(p: Phase, r: Report): Phase
  {
    match p
    case Between => if r.state == OBSPLAN_CATALOGED then Cataloged(r.sn) else Broken
    case Cataloged(sn) =>
      if r.sn != sn then Broken
      else if r.state == OBSPLAN_RUNNING && r.exposing == 0 then Running(sn)
      else if r.state == OBSPLAN_OVER || r.state == OBSPLAN_INTERRUPTED then Between
      else Broken
    case Running(sn) =>
      if r.sn == sn && (r.state == OBSPLAN_OVER || r.state == OBSPLAN_INTERRUPTED) then Between else Broken
    case Broken => Broken
  }

  function PhaseOf(log: seq<Report>): Phase
  {
    if log == [] then Between else Advance(PhaseOf(log[..|log| - 1]), log[|log| - 1])
  }

  lemma PhaseAppended(log: seq<Report>, r: Report)
    ensures PhaseOf(log + [r]) == Advance(PhaseOf(log), r)
  {
    assert (log + [r])[..|log|] == log;
  }

  /** The phase the held plan and its state call for. */
  function Expected(s: Sys): Phase
  {
    if s.plan.None? then Between
    else if s.planState == OBSPLAN_CATALOGED then Cataloged(s.planSn)
    else if s.planState == OBSPLAN_RUNNING then Running(s.planSn)
    else Broken
  }

  ghost predicate Logged(s: Sys)
  {
    PhaseOf(s.log) == Expected(s) != Broken && (s.plan.Some? ==> s.planSn == s.plan.value.sn)
  }

  lemma CloseLogged(s: Sys, state: int)
    requires Logged(s) && (state == OBSPLAN_OVER || state == OBSPLAN_INTERRUPTED)
    ensures Logged(ClosePlan(s, state)) && ClosePlan(s, state).plan.None?
  {
    PhaseAppended(s.log, Report(state, s.planSn, s.exposing));
  }

  lemma StepKeepsLog(s: Sys, e: Event)
    requires Logged(s)
    ensures Logged(Next(s, e))
  {
    hide PhaseOf;
    match e
    case NewPlan(p) =>
      CloseLogged(s, OBSPLAN_INTERRUPTED);
      var c := Interrupt(s);
      PhaseAppended(c.log, Report(OBSPLAN_CATALOGED, p.sn, c.exposing));
    case Abort => CloseLogged(s, OBSPLAN_INTERRUPTED);
    case Park => CloseLogged(s, OBSPLAN_INTERRUPTED);
    case Tick(now) =>
      CloseLogged(s, OBSPLAN_INTERRUPTED);
      PhaseAppended(s.log, Report(OBSPLAN_RUNNING, s.planSn, s.exposing));
    case Status(conn, cid, state) => StatusKeepsLog(s, conn, cid, state);
    case _ =>
  }

  lemma StatusKeepsLog(s: Sys, conn: int, cid: string, state: int)
    requires Logged(s)
    ensures Logged(CameraReport(s, conn, cid, state))
  {
    hide PhaseOf, FindConn;
    var l := LeaveExpose(Recorded(s, conn, cid, state));
    CloseLogged(l, OBSPLAN_OVER);
  }

  /** Both invariants together. */
  lemma StepSafe(s: Sys, e: Event)
    ensures Counted(s) && Logged(s) && Enabled(s, e) ==> Counted(Next(s, e)) && Logged(Next(s, e))
  {
    hide Counted, Logged, Next, Enabled;
    if Counted(s) && Logged(s) && Enabled(s, e) {
      StepKeepsCounts(s, e);
      StepKeepsLog(s, e);
    }
  }

  // ---- whole runs

  lemma {:induction false} RunCounted(initial: int, es: seq<Event>)
    requires AllEnabled(Start(initial), es)
    ensures Counted(Run(Start(initial), es))
    decreases |es|
  {
    hide Counted, Next, Enabled;
    if es == [] {
      StartSafe(initial);
    } else {
      RunCounted(initial, es[..|es| - 1]);
      StepKeepsCounts(Run(Start(initial), es[..|es| - 1]), es[|es| - 1]);
    }
  }

  lemma {:induction false} RunLogged(initial: int, es: seq<Event>)
    ensures Logged(Run(Start(initial), es))
    decreases |es|
  {
    hide Logged, Next;
    if es == [] {
      StartSafe(initial);
    } else {
      RunLogged(initial, es[..|es| - 1]);
      StepKeepsLog(Run(Start(initial), es[..|es| - 1]), es[|es| - 1]);
    }
  }

  lemma StartSafe(initial: int)
    ensures Counted(Start(initial)) && Logged(Start(initial))
  {
  }

  /** In every run the counters count what they claim, and no more cameras expose than are on line. */
  lemma RunCounts(initial: int, es: seq<Event>)
    requires AllEnabled(Start(initial), es)
    ensures var s := Run(Start(initial), es);
      && s.exposing == CountExposing(s.cams)
      && s.camonline == CountOnline(s.cams)
      && 0 <= s.exposing <= s.camonline
  {
    RunCounted(initial, es);
    ExposingOnline(Run(Start(initial), es).cams);
  }

  /** When a camera stops exposing, the counter was positive, and it reaches zero exactly when no camera of
      the updated list exposes any more. */
  lemma LastOneLeaves(s: Sys, conn: int, cid: string, state: int)
    requires Counted(s) && Coupled(s.cams, conn) && OldState(s, conn) > CAMCTL_IDLE && state <= CAMCTL_IDLE
    ensures s.exposing > 0
    ensures var r := Recorded(s, conn, cid, state);
      LeaveExpose(r).exposing == 0 <==> forall i :: 0 <= i < |r.cams| ==> !Exposing(r.cams[i])
  {
    hide CountOnline, CountExposing;
    var i := FindConn(s.cams, conn, 0);
    ExposingPositive(s.cams, i);
    CountChanged(s.cams, i, CameraInfo(cid, Some(conn), state));
    NoneExposing(Recorded(s, conn, cid, state).cams);
  }

  lemma {:induction false} NoneExposing(cams: seq<CameraInfo>)
    ensures CountExposing(cams) == 0 <==> forall i :: 0 <= i < |cams| ==> !Exposing(cams[i])
    decreases |cams|
  {
    if cams != [] {
      NoneExposing(cams[..|cams| - 1]);
      forall i | 0 <= i < |cams| - 1
        ensures cams[..|cams| - 1][i] == cams[i]
      {
      }
    }
  }

  /** What the callback tells about one plan: cataloged, perhaps started, perhaps ended. */
  datatype Block = Block(first: Report, run: Option<Report>, end: Option<Report>)

  ghost predicate WellFormed(b: Block)
  {
    && b.first.state == OBSPLAN_CATALOGED
    && (b.run.Some? ==> b.run.value.state == OBSPLAN_RUNNING && b.run.value.exposing == 0
                        && b.run.value.sn == b.first.sn)
    && (b.end.Some? ==> (b.end.value.state == OBSPLAN_OVER || b.end.value.state == OBSPLAN_INTERRUPTED)
                        && b.end.value.sn == b.first.sn)
  }

  function Optional(r: Option<Report>): seq<Report>
  {
    if r.Some? then [r.value] else []
  }

  function Rendered(b: Block): seq<Report>
  {
    [b.first] + Optional(b.run) + Optional(b.end)
  }

  function RenderedAll(bs: seq<Block>): seq<Report>
  {
    if bs == [] then [] else RenderedAll(bs[..|bs| - 1]) + Rendered(bs[|bs| - 1])
  }

  /** Blocks one after the other, all of them ended but possibly the last. */
  ghost predicate Blocks(bs: seq<Block>, open: bool)
  {
    && (forall i :: 0 <= i < |bs| ==> WellFormed(bs[i]))
    && (forall i :: 0 <= i < |bs| - 1 ==> bs[i].end.Some?)
    && (open ==> bs != [])
    && (bs != [] ==> (open <==> bs[|bs| - 1].end.None?))
  }

  lemma NewBlock(cs: seq<Block>, r: Report) returns (bs: seq<Block>)
    requires Blocks(cs, false) && r.state == OBSPLAN_CATALOGED
    ensures RenderedAll(bs) == RenderedAll(cs) + [r] && Blocks(bs, true)
    ensures bs[|bs| - 1].first == r && bs[|bs| - 1].run.None?
  {
    var b := Block(r, None, None);
    bs := cs + [b];
    assert bs[..|bs| - 1] == cs;
    assert Rendered(b) == [r];
  }

  lemma GrownBlock(cs: seq<Block>, r: Report) returns (bs: seq<Block>)
    requires Blocks(cs, true) && r.sn == cs[|cs| - 1].first.sn
    requires r.state == OBSPLAN_RUNNING ==> r.exposing == 0 && cs[|cs| - 1].run.None?
    requires r.state == OBSPLAN_RUNNING || r.state == OBSPLAN_OVER || r.state == OBSPLAN_INTERRUPTED
    ensures RenderedAll(bs) == RenderedAll(cs) + [r] && Blocks(bs, r.state == OBSPLAN_RUNNING)
    ensures bs != [] && bs[|bs| - 1].first.sn == r.sn && (r.state == OBSPLAN_RUNNING ==> bs[|bs| - 1].run.Some?)
  {
    var last := cs[|cs| - 1];
    var b := if r.state == OBSPLAN_RUNNING then last.(run := Some(r)) else last.(end := Some(r));
    bs := cs[..|cs| - 1] + [b];
    assert bs[..|bs| - 1] == cs[..|cs| - 1];
    assert Rendered(b) == Rendered(last) + [r];
  }

  /** A log that never broke is a sequence of blocks; the last is open exactly between its first report and its end. */
  lemma {:induction false} LogIsBlocks(log: seq<Report>) returns (bs: seq<Block>)
    requires PhaseOf(log) != Broken
    ensures RenderedAll(bs) == log && Blocks(bs, PhaseOf(log) != Between)
    ensures PhaseOf(log).Cataloged? || PhaseOf(log).Running? ==>
      bs[|bs| - 1].first.sn == PhaseOf(log).sn && (PhaseOf(log).Running? <==> bs[|bs| - 1].run.Some?)
    decreases |log|
  {
    hide RenderedAll, Blocks;
    if log == [] {
      bs := [];
      NoBlocks();
    } else {
      var r := log[|log| - 1];
      var cs := LogIsBlocks(log[..|log| - 1]);
      assert log == log[..|log| - 1] + [r];
      if PhaseOf(log[..|log| - 1]) == Between {
        bs := NewBlock(cs, r);
      } else {
        OpenNonempty(cs);
        bs := GrownBlock(cs, r);
      }
    }
  }

  lemma NoBlocks()
    ensures RenderedAll([]) == [] && Blocks([], false)
  {
  }

  lemma OpenNonempty(cs: seq<Block>)
    ensures Blocks(cs, true) ==> cs != []
  {
  }

  /** For every run: the log is a sequence of blocks, and its last block is open exactly while a plan is held. */
  lemma RunLogIsBlocks(initial: int, es: seq<Event>)
    ensures var s := Run(Start(initial), es);
      exists bs :: RenderedAll(bs) == s.log && Blocks(bs, s.plan.Some?)
  {
    hide RenderedAll, Blocks, PhaseOf;
    RunLogged(initial, es);
    var bs := LogIsBlocks(Run(Start(initial), es).log);
  }
}
