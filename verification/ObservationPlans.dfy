/** When a plan is taken, started and ended, told by the cameras themselves and not by the counters. */
module ObservationPlans {
  import opened Options
  import opened Characters
  import opened ObservationState
  import opened ObservationSafety

  /** Entry i is the first that holds the connection. */
  ghost predicate Holds(cams: seq<CameraInfo>, conn: int, i: int)
  {
    && 0 <= i < |cams| && cams[i].conn == Some(conn)
    && forall j :: 0 <= j < i ==> cams[j].conn != Some(conn)
  }

  ghost predicate Quiet(cams: seq<CameraInfo>)
  {
    forall i :: 0 <= i < |cams| ==> cams[i].state <= CAMCTL_IDLE
  }

  ghost predicate AnyOnline(cams: seq<CameraInfo>)
  {
    exists i :: 0 <= i < |cams| && cams[i].conn.Some?
  }

  /** The plan is dropped, and the callback is told so once. */
  ghost predicate Ends(s: Sys, t: Sys, state: int)
  {
    && s.plan.Some? && t.plan.None? && t.planState == state
    && t.log == s.log + [Report(state, s.plan.value.sn, t.exposing)]
  }

  ghost predicate SamePlan(s: Sys, t: Sys)
  {
    t.plan == s.plan && t.planState == s.planState && t.planSn == s.planSn && t.log == s.log
  }

  lemma QuietCounts(s: Sys)
    requires Counted(s)
    ensures Quiet(s.cams) <==> s.exposing == 0
    ensures AnyOnline(s.cams) <==> s.camonline != 0
  {
    hide CountExposing, CountOnline;
    NoneExposing(s.cams);
    NoneOnline(s.cams);
  }

  lemma {:induction false} NoneOnline(cams: seq<CameraInfo>)
    ensures CountOnline(cams) == 0 <==> !AnyOnline(cams)
    decreases |cams|
  {
    if cams != [] {
      var front := cams[..|cams| - 1];
      NoneOnline(front);
      assert forall i :: 0 <= i < |front| ==> front[i] == cams[i];
      assert cams[|cams| - 1].conn.Some? ==> AnyOnline(cams);
    }
  }

  lemma HeldFirst(cams: seq<CameraInfo>, conn: int, i: int)
    requires Holds(cams, conn, i)
    ensures FindConn(cams, conn, 0) == i
  {
  }

  // ---- a camera reports

  /** What a report of the camera on that connection does to the plan: it ends exactly when the camera stops
      exposing and no camera of the new list exposes; otherwise plan and log are left alone. */
  ghost predicate EndsWithLast(s: Sys, t: Sys, conn: int, cid: string, state: int)
  {
    forall i :: Holds(s.cams, conn, i) ==>
      && t.cams == s.cams[i := CameraInfo(cid, Some(conn), state)]
      && if s.plan.Some? && s.cams[i].state > CAMCTL_IDLE && state <= CAMCTL_IDLE && Quiet(t.cams)
         then Ends(s, t, OBSPLAN_OVER) && t.exposing == 0
         else SamePlan(s, t)
  }

  lemma ReportEnds(s: Sys, conn: int, cid: string, state: int)
    requires Counted(s) && Logged(s)
    ensures EndsWithLast(s, CameraReport(s, conn, cid, state), conn, cid, state)
  {
    hide Quiet, Counted, PhaseOf;
    var t := CameraReport(s, conn, cid, state);
    forall i | Holds(s.cams, conn, i)
      ensures FindConn(s.cams, conn, 0) == i && Counted(t) && (Quiet(t.cams) <==> t.exposing == 0)
    {
      HeldFirst(s.cams, conn, i);
      ReportKeepsCounts(s, conn, cid, state);
      QuietCounts(t);
    }
  }

  lemma SafeReportEnds(s: Sys, conn: int, cid: string, state: int)
    ensures Counted(s) && Logged(s) ==> EndsWithLast(s, CameraReport(s, conn, cid, state), conn, cid, state)
  {
    hide Counted, Logged, EndsWithLast, CameraReport;
    if Counted(s) && Logged(s) {
      ReportEnds(s, conn, cid, state);
    }
  }

  /** So in every run. */
  lemma RunReportEnds(initial: int, es: seq<Event>, conn: int, cid: string, state: int)
    requires AllEnabled(Start(initial), es)
    ensures var s, t := Run(Start(initial), es), Run(Start(initial), es + [Status(conn, cid, state)]);
      EndsWithLast(s, t, conn, cid, state)
  {
    hide Counted, Logged, CameraReport, EndsWithLast, AllEnabled;
    RunCounted(initial, es);
    RunLogged(initial, es);
    RunNext(initial, es, Status(conn, cid, state));
    ReportEnds(Run(Start(initial), es), conn, cid, state);
  }

  lemma RunNext(initial: int, es: seq<Event>, e: Event)
    ensures Run(Start(initial), es + [e]) == Next(Run(Start(initial), es), e)
  {
    hide Next;
    assert (es + [e])[..|es|] == es;
  }

  /** In every run no plan is reported over while a camera is counted as exposing, and none is reported started. */
  lemma {:induction false} RunOver(initial: int, es: seq<Event>)
    ensures OverQuiet(Run(Start(initial), es).log)
    decreases |es|
  {
    hide OverQuiet, Next;
    if es == [] {
      NoneOver();
    } else {
      RunOver(initial, es[..|es| - 1]);
      StepOver(Run(Start(initial), es[..|es| - 1]), es[|es| - 1]);
    }
  }

  ghost predicate OverQuiet(log: seq<Report>)
  {
    forall i :: 0 <= i < |log| && (log[i].state == OBSPLAN_OVER || log[i].state == OBSPLAN_RUNNING) ==>
      log[i].exposing == 0
  }

  lemma NoneOver()
    ensures OverQuiet([])
  {
  }

  lemma StepOver(s: Sys, e: Event)
    requires OverQuiet(s.log)
    ensures OverQuiet(Next(s, e).log)
  {
    hide FindConn, FindCid, CoupleCamera, CloseCamera, Recorded, OldState;
    match e
    case Close(_) => LinksLeavePlan(s, e);
    case Couple(_, _, _) => LinksLeavePlan(s, e);
    case Status(conn, cid, state) => RecordedPlan(s, conn, cid, state);
    case _ =>
  }

  lemma RecordedPlan(s: Sys, conn: int, cid: string, state: int)
    ensures var r := Recorded(s, conn, cid, state);
      SamePlan(s, r) && r.exposing == s.exposing && r.tmend == s.tmend && r.mount == s.mount
  {
    hide FindConn;
  }

  // ---- the plan thread

  /** While a plan runs, the end time that the thread watches is the end of that plan. */
  ghost predicate Timed(s: Sys)
  {
    s.plan.Some? && s.planState == OBSPLAN_RUNNING ==> s.tmend == s.plan.value.end
  }

  lemma {:induction false} RunTimed(initial: int, es: seq<Event>)
    ensures Timed(Run(Start(initial), es))
    decreases |es|
  {
    hide Next;
    if es != [] {
      RunTimed(initial, es[..|es| - 1]);
      StepTimed(Run(Start(initial), es[..|es| - 1]), es[|es| - 1]);
    }
  }

  lemma StepTimed(s: Sys, e: Event)
    requires Timed(s)
    ensures Timed(Next(s, e))
  {
    hide FindConn, FindCid, Recorded, OldState;
    match e
    case Status(conn, cid, state) => RecordedPlan(s, conn, cid, state);
    case _ =>
  }

  ghost predicate Startable(s: Sys)
  {
    s.plan.Some? && s.planState == OBSPLAN_CATALOGED && s.mount && AnyOnline(s.cams) && Quiet(s.cams)
  }

  predicate Late(s: Sys, now: int)
  {
    && s.plan.Some? && s.planState == OBSPLAN_RUNNING && s.plan.value.end.Some?
    && (now - s.plan.value.end.value) as real > s.plan.value.exptime
  }

  /** In every run a round of the thread starts the plan exactly when it waits, the mount and some camera are on
      line and no camera exposes; interrupts it exactly when it runs and is late by more than its exposure time;
      and changes nothing otherwise. */
  lemma RunTick(initial: int, es: seq<Event>, now: int)
    requires AllEnabled(Start(initial), es)
    ensures var s, t := Run(Start(initial), es), Run(Start(initial), es + [Tick(now)]);
      if Startable(s) then
        t == s.(planState := OBSPLAN_RUNNING, tmend := s.plan.value.end,
                log := s.log + [Report(OBSPLAN_RUNNING, s.plan.value.sn, 0)])
      else if Late(s, now) then Ends(s, t, OBSPLAN_INTERRUPTED) && t.cams == s.cams
      else t == s
  {
    hide Quiet, AnyOnline, Counted, PhaseOf, AllEnabled, Run;
    RunCounted(initial, es);
    RunLogged(initial, es);
    RunTimed(initial, es);
    RunNext(initial, es, Tick(now));
    QuietCounts(Run(Start(initial), es));
  }

  // ---- plans from outside

  function Interruption(s: Sys): seq<Report>
  {
    if s.plan.Some? then [Report(OBSPLAN_INTERRUPTED, s.plan.value.sn, s.exposing)] else []
  }

  /** A new plan is refused exactly when no plan is held and some camera exposes by hand; otherwise it replaces
      the plan held, which is interrupted first. */
  lemma PlanTaken(s: Sys, p: Plan)
    requires Counted(s) && Logged(s)
    ensures var t := AcceptPlan(s, p);
      if s.plan.None? && !Quiet(s.cams) then t == s
      else
        && t.plan == Some(p) && t.planState == OBSPLAN_CATALOGED && t.cams == s.cams
        && t.log == s.log + Interruption(s) + [Report(OBSPLAN_CATALOGED, p.sn, s.exposing)]
  {
    hide Quiet, PhaseOf, Counted;
    QuietCounts(s);
    assert s.log + [] == s.log;
  }

  /** Abort and Park end the plan held and nothing else. */
  lemma InterruptEnds(s: Sys)
    requires Logged(s)
    ensures Interrupt(s) == if s.plan.None? then s
      else s.(plan := None, planState := OBSPLAN_INTERRUPTED, log := s.log + Interruption(s))
  {
    hide PhaseOf;
  }

  // ---- connections

  /** A lost camera, a new one and the mount leave the plan and the log alone: a plan whose last exposing
      camera goes off line stays open. */
  lemma LinksLeavePlan(s: Sys, e: Event)
    requires e.Close? || e.Couple? || e.MountLink?
    ensures SamePlan(s, Next(s, e))
  {
    hide FindConn, FindCid;
  }

  /** The mount is on line when the last of its links says so, and nothing else changes that. */
  lemma {:induction false} RunMount(initial: int, es: seq<Event>, k: nat)
    requires k < |es| && es[k].MountLink? && forall j :: k < j < |es| ==> !es[j].MountLink?
    ensures Run(Start(initial), es).mount == es[k].up
    decreases |es|
  {
    hide FindConn, FindCid, Recorded, OldState;
    var n := |es| - 1;
    var s := Run(Start(initial), es[..n]);
    if k < n {
      RunMount(initial, es[..n], k);
      match es[n]
      case Status(conn, cid, state) => RecordedPlan(s, conn, cid, state);
      case _ =>
    }
  }

  /** Entry i is the first of that name. */
  ghost predicate Named(cams: seq<CameraInfo>, cid: string, i: int)
  {
    && 0 <= i <= |cams| && (i < |cams| ==> IEquals(cams[i].cid, cid))
    && forall j :: 0 <= j < i ==> !IEquals(cams[j].cid, cid)
  }

  lemma {:induction false} NamedFirst(cams: seq<CameraInfo>, cid: string, i: nat, k: nat)
    requires Named(cams, cid, i) && k <= i
    ensures FindCid(cams, cid, k) == i
    decreases i - k
  {
    hide IEquals;
    if k < i {
      NamedFirst(cams, cid, i, k + 1);
    }
  }

  /** A camera is refused exactly when the first entry of its name is connected. Otherwise that entry, or a new
      one, holds the connection, with the state it had. */
  lemma CameraTaken(s: Sys, conn: int, cid: string, initial: int, i: nat)
    requires Named(s.cams, cid, i)
    ensures var t := CoupleCamera(s, conn, cid, initial);
      && t.exposing == s.exposing
      && if i < |s.cams| && s.cams[i].conn.Some? then t == s
         else
           && t.camonline == s.camonline + 1 && i < |t.cams| && t.cams[i].conn == Some(conn)
           && IEquals(t.cams[i].cid, cid)
           && t.cams[i].state == (if i < |s.cams| then s.cams[i].state else initial)
           && |t.cams| == (if i < |s.cams| then |s.cams| else i + 1)
           && forall j :: 0 <= j < |s.cams| && j != i ==> t.cams[j] == s.cams[j]
  {
    hide IEquals;
    NamedFirst(s.cams, cid, i, 0);
    SameName(cid);
  }

  lemma SameName(cid: string)
    ensures IEquals(cid, cid)
  {
  }

  /** A lost connection leaves its entry without one and in error; the other entries stay. */
  lemma CameraLost(s: Sys, conn: int, i: int)
    requires Counted(s) && Holds(s.cams, conn, i)
    ensures var t := CloseCamera(s, conn);
      && t.cams == s.cams[i := CameraInfo(s.cams[i].cid, None, CAMCTL_ERROR)]
      && t.camonline == s.camonline - 1
      && t.exposing == s.exposing - One(s.cams[i].state > CAMCTL_IDLE)
  {
    hide CountOnline, CountExposing;
    HeldFirst(s.cams, conn, i);
    ExposingPositive(s.cams, i);
  }

  // ---- the counter of cameras that wait for a flat

  function CountWaiting(cams: seq<CameraInfo>): nat
  {
    if cams == [] then 0
    else CountWaiting(cams[..|cams| - 1]) + if cams[|cams| - 1].state == CAMCTL_WAIT_FLAT then 1 else 0
  }

  lemma {:induction false} WaitingChanged(cams: seq<CameraInfo>, i: int, c: CameraInfo)
    requires 0 <= i < |cams|
    ensures CountWaiting(cams[i := c])
      == CountWaiting(cams) - One(cams[i].state == CAMCTL_WAIT_FLAT) + One(c.state == CAMCTL_WAIT_FLAT)
    decreases |cams|
  {
    var n := |cams| - 1;
    if i < n {
      WaitingChanged(cams[..n], i, c);
      assert cams[i := c][..n] == cams[..n][i := c];
    } else {
      assert cams[i := c][..n] == cams[..n];
    }
  }

  /** The counter stays right exactly when the camera neither comes to wait without exposing before nor stops
      exposing while it waits. */
  lemma ReportCountsWaiting(s: Sys, conn: int, cid: string, state: int, i: int)
    requires Holds(s.cams, conn, i) && s.waitflat == CountWaiting(s.cams)
    ensures var t := CameraReport(s, conn, cid, state);
      var before := s.cams[i].state;
      t.waitflat == CountWaiting(t.cams) <==>
        !(state == CAMCTL_WAIT_FLAT && before <= CAMCTL_IDLE) && !(before == CAMCTL_WAIT_FLAT && state <= CAMCTL_IDLE)
  {
    hide CountWaiting;
    HeldFirst(s.cams, conn, i);
    WaitingChanged(s.cams, i, CameraInfo(cid, Some(conn), state));
  }

  /** A lost camera leaves the counter right exactly when it was not waiting. */
  lemma CloseCountsWaiting(s: Sys, conn: int, i: int)
    requires Holds(s.cams, conn, i) && s.waitflat == CountWaiting(s.cams)
    ensures var t := CloseCamera(s, conn);
      t.waitflat == CountWaiting(t.cams) <==> s.cams[i].state != CAMCTL_WAIT_FLAT
  {
    hide CountWaiting;
    HeldFirst(s.cams, conn, i);
    WaitingChanged(s.cams, i, CameraInfo(s.cams[i].cid, None, CAMCTL_ERROR));
  }

  lemma OneCamera(s: Sys, before: int, state: int)
    requires s.cams == [CameraInfo("a", Some(1), before)]
    ensures CameraReport(s, 1, "a", state).cams == [CameraInfo("a", Some(1), state)]
    ensures OldState(s, 1) == before
    ensures var r := Recorded(s, 1, "a", state); r.exposing == s.exposing && r.waitflat == s.waitflat
  {
    HeldFirst(s.cams, 1, 0);
  }

  /** A camera that exposes, waits and then stops leaves the counter at one, with no camera waiting. */
  lemma WaitingStays(initial: int)
    ensures var s := Run(Start(initial), [Couple(1, "a", 0), Status(1, "a", 2), Status(1, "a", 6), Status(1, "a", 1)]);
      s.waitflat == 1 && s.exposing == 0 && CountWaiting(s.cams) == 0
  {
    hide IEquals, Recorded, OldState;
    var e1, e2, e3, e4 := Couple(1, "a", 0), Status(1, "a", 2), Status(1, "a", 6), Status(1, "a", 1);
    var s1 := Next(Start(initial), e1);
    var s2 := Next(s1, e2);
    var s3 := Next(s2, e3);
    assert Run(Start(initial), [e1, e2, e3, e4]) == Next(s3, e4) by {
      hide Next;
      assert [] + [e1] == [e1] && [e1] + [e2] == [e1, e2] && [e1, e2] + [e3] == [e1, e2, e3];
      assert [e1, e2, e3] + [e4] == [e1, e2, e3, e4];
      RunNext(initial, [], e1);
      RunNext(initial, [e1], e2);
      RunNext(initial, [e1, e2], e3);
      RunNext(initial, [e1, e2, e3], e4);
    }
    OneCamera(s1, 0, 2);
    OneCamera(s2, 2, 6);
    OneCamera(s3, 6, 1);
  }
}
