/** The observation system as a state machine: plan lifecycle and camera counters. */
module ObservationState {
  import opened Options
  import opened Characters

  // camera states
  const CAMCTL_ERROR: int := 0
  const CAMCTL_IDLE: int := 1
  const CAMCTL_WAIT_FLAT: int := 6

  // plan states
  const OBSPLAN_CATALOGED: int := 1
  const OBSPLAN_RUNNING: int := 4
  const OBSPLAN_OVER: int := 5
  const OBSPLAN_INTERRUPTED: int := 6

  /** A camera entry: its name, its connection while it has one, and its last reported state. */
  datatype CameraInfo = CameraInfo(cid: string, conn: Option<int>, state: int)

  /** A plan: its serial, the allowed exposure overrun, and its end time if that could be read. */
  datatype Plan = Plan(sn: string, exptime: real, end: Option<int>)

  /** One call of the plan callback, with the number of cameras counted as exposing at that moment. */
  datatype Report = Report(state: int, sn: string, exposing: int)

  datatype Sys = Sys(
    mount: bool,
    cams: seq<CameraInfo>,
    camonline: int, exposing: int, waitflat: int,
    plan: Option<Plan>,
    planState: int, planSn: string,
    tmend: Option<int>,
    log: seq<Report>)

  // ---- helpers

  /** First entry from i on that holds the connection. */
  function FindConn(cams: seq<CameraInfo>, conn: int, i: nat): (r: nat)
    requires i <= |cams|
    ensures i <= r <= |cams|
    ensures r < |cams| ==> cams[r].conn == Some(conn)
    ensures forall t :: i <= t < r ==> cams[t].conn != Some(conn)
    decreases |cams| - i
  {
    if i == |cams| || cams[i].conn == Some(conn) then i else FindConn(cams, conn, i + 1)
  }

  /** First entry from i on with the name, whatever the case of its letters. */
  function FindCid(cams: seq<CameraInfo>, cid: string, i: nat): (r: nat)
    requires i <= |cams|
    ensures i <= r <= |cams|
    decreases |cams| - i
  {
    if i == |cams| || IEquals(cams[i].cid, cid) then i else FindCid(cams, cid, i + 1)
  }

  predicate Coupled(cams: seq<CameraInfo>, conn: int)
  {
    FindConn(cams, conn, 0) < |cams|
  }

  predicate Exposing(c: CameraInfo)
  {
    c.state > CAMCTL_IDLE
  }

  function CountExposing(cams: seq<CameraInfo>): nat
  {
    if cams == [] then 0 else CountExposing(cams[..|cams| - 1]) + if Exposing(cams[|cams| - 1]) then 1 else 0
  }

  function CountOnline(cams: seq<CameraInfo>): nat
  {
    if cams == [] then 0 else CountOnline(cams[..|cams| - 1]) + if cams[|cams| - 1].conn.Some? then 1 else 0
  }

  // ---- the steps

  function Emit(s: Sys, state: int): Sys
  {
    s.(planState := state, log := s.log + [Report(state, s.planSn, s.exposing)])
  }

  /** Close the plan held, if there is one. */
  function ClosePlan(s: Sys, state: int): Sys
  {
    if s.plan.Some? then Emit(s.(plan := None), state) else s
  }

  /** Abort and Park end the plan the same way. */
  function Interrupt(s: Sys): Sys
  {
    ClosePlan(s, OBSPLAN_INTERRUPTED)
  }

  function AcceptPlan(s: Sys, p: Plan): Sys
  {
    if s.plan.None? && s.exposing != 0 then s
    else Emit(Interrupt(s).(plan := Some(p), planSn := p.sn), OBSPLAN_CATALOGED)
  }

  /** One round of the plan thread at time now. */
  function PlanTick(s: Sys, now: int): Sys
  {
    if s.plan.None? then s
    else if s.planState == OBSPLAN_CATALOGED then
      if !s.mount || s.camonline == 0 || s.exposing != 0 then s
      else Emit(s.(planSn := s.plan.value.sn, tmend := s.plan.value.end), OBSPLAN_RUNNING)
    else if s.planState == OBSPLAN_RUNNING && s.tmend.Some? && (now - s.tmend.value) as real > s.plan.value.exptime then
      Interrupt(s)
    else s
  }

  /** One camera fewer exposing; the guard keeps the counter from going below zero. */
  function LeaveExpose(s: Sys): Sys
  {
    if s.exposing != 0 then s.(exposing := s.exposing - 1) else s
  }

  function Offline(s: Sys): Sys
  {
    if s.camonline != 0 then s.(camonline := s.camonline - 1) else s
  }

  /** initial stands for the state of a new entry, which nothing sets. */
  function CoupleCamera(s: Sys, conn: int, cid: string, initial: int): Sys
  {
    var i := FindCid(s.cams, cid, 0);
    if i == |s.cams| then
      s.(camonline := s.camonline + 1, cams := s.cams + [CameraInfo(cid, Some(conn), initial)])
    else if s.cams[i].conn.Some? then s
    else s.(camonline := s.camonline + 1, cams := s.cams[i := s.cams[i].(conn := Some(conn))])
  }

  function CloseCamera(s: Sys, conn: int): Sys
  {
    var i := FindConn(s.cams, conn, 0);
    if i == |s.cams| then s
    else
      var s1 := if Exposing(s.cams[i]) then LeaveExpose(s) else s;
      var s2 := Offline(s1);
      s2.(cams := s2.cams[i := s2.cams[i].(state := CAMCTL_ERROR, conn := None)])
  }

  /** Old and new state of the camera that reports; an unknown connection counts as one in error. */
  function OldState(s: Sys, conn: int): int
  {
    var i := FindConn(s.cams, conn, 0);
    if i == |s.cams| then CAMCTL_ERROR else s.cams[i].state
  }

  function Recorded(s: Sys, conn: int, cid: string, state: int): Sys
  {
    var i := FindConn(s.cams, conn, 0);
    if i == |s.cams| then s else s.(cams := s.cams[i := CameraInfo(cid, Some(conn), state)])
  }

  function CameraReport(s: Sys, conn: int, cid: string, state: int): Sys
  {
    var before := OldState(s, conn);
    var r := Recorded(s, conn, cid, state);
    if state == before then r
    else if state <= CAMCTL_IDLE && before > CAMCTL_IDLE then
      var l := LeaveExpose(r);
      if l.exposing == 0 then ClosePlan(l, OBSPLAN_OVER) else l
    else if state > CAMCTL_IDLE && before <= CAMCTL_IDLE then r.(exposing := r.exposing + 1)
    else if state == CAMCTL_WAIT_FLAT then r.(waitflat := r.waitflat + 1)
    else if before == CAMCTL_WAIT_FLAT && r.waitflat != 0 then r.(waitflat := r.waitflat - 1)
    else r
  }

  datatype Event =
    | NewPlan(p: Plan)
    | Abort
    | Park
    | Tick(now: int)
    | MountLink(up: bool)
    | Couple(conn: int, cid: string, initial: int)
    | Close(conn: int)
    | Status(conn: int, cid: string, state: int)

  function Next(s: Sys, e: Event): Sys
  {
    match e
    case NewPlan(p) => AcceptPlan(s, p)
    case Abort => Interrupt(s)
    case Park => Interrupt(s)
    case Tick(now) => PlanTick(s, now)
    case MountLink(up) => s.(mount := up)
    case Couple(conn, cid, initial) => CoupleCamera(s, conn, cid, initial)
    case Close(conn) => CloseCamera(s, conn)
    case Status(conn, cid, state) => CameraReport(s, conn, cid, state)
  }

  /** Reports come over a coupled connection, and a new entry does not start out exposing. */
  predicate Enabled(s: Sys, e: Event)
  {
    match e
    case Status(conn, _, _) => Coupled(s.cams, conn)
    case Couple(_, _, initial) => initial <= CAMCTL_IDLE
    case _ => true
  }

  /** initial is the plan state before the first plan. */
  function Start(initial: int): Sys
  {
    Sys(false, [], 0, 0, 0, None, initial, "", None, [])
  }

  function Run(s: Sys, es: seq<Event>): Sys
  {
    if es == [] then s else Next(Run(s, es[..|es| - 1]), es[|es| - 1])
  }

  ghost predicate AllEnabled(s: Sys, es: seq<Event>)
  {
    es == [] || (AllEnabled(s, es[..|es| - 1]) && Enabled(Run(s, es[..|es| - 1]), es[|es| - 1]))
  }
}
