/** The observation system as the object its callbacks update; every method is one step of the state machine. */
module ObservationSystem {
  import opened Options
  import opened Characters
  import opened ObservationState
  import opened ObservationSafety
  import opened ObservationPlans

  /** The counters, guarded at zero. */
  class SystemState {
    var camonline: int
    var exposing: int
    var waitflat: int

    constructor ()
      ensures camonline == exposing == waitflat == 0
    {
      camonline, exposing, waitflat := 0, 0, 0;
    }

    method CameraOnline(online: bool)
      modifies this`camonline
      ensures camonline == if online then old(camonline) + 1 else if old(camonline) != 0 then old(camonline) - 1 else 0
    {
      if online {
        camonline := camonline + 1;
      } else if camonline != 0 {
        camonline := camonline - 1;
      }
    }

    method EnterExpose()
      modifies this`exposing
      ensures exposing == old(exposing) + 1
    {
      exposing := exposing + 1;
    }

    method LeaveExpose() returns (last: bool)
      modifies this`exposing
      ensures exposing == if old(exposing) != 0 then old(exposing) - 1 else 0
      ensures last == (exposing == 0)
    {
      if exposing != 0 {
        exposing := exposing - 1;
      }
      last := exposing == 0;
    }

    method EnterWaitFlat()
      modifies this`waitflat
      ensures waitflat == old(waitflat) + 1
    {
      waitflat := waitflat + 1;
    }

    method LeaveWaitFlat()
      modifies this`waitflat
      ensures waitflat == if old(waitflat) != 0 then old(waitflat) - 1 else 0
    {
      if waitflat != 0 {
        waitflat := waitflat - 1;
      }
    }
  }

  class ObservationSystem {
    var mount: bool
    var cams: seq<CameraInfo>
    const sys: SystemState
    var plan: Option<Plan>
    var planState: int
    var planSn: string
    var tmend: Option<int>
    var reports: seq<Report>

    constructor (initial: int)
      ensures Snapshot() == Start(initial) && fresh(sys) && Safe()
    {
      mount, cams := false, [];
      sys := new SystemState();
      plan, planState, planSn, tmend, reports := None, initial, "", None, [];
      StartSafe(initial);
    }

    ghost function Snapshot(): Sys
      reads this, sys
    {
      Sys(mount, cams, sys.camonline, sys.exposing, sys.waitflat, plan, planState, planSn, tmend, reports)
    }

    /** The counters and the log are in order. Every step keeps this, a camera report if its connection is coupled,
        a new camera if it does not start out exposing. */
    ghost predicate Safe()
      reads this, sys
    {
      Counted(Snapshot()) && Logged(Snapshot())
    }

    /** Sets the plan state and calls the plan callback. */
    method Notify(state: int)
      modifies this`planState, this`reports
      ensures Snapshot() == Emit(old(Snapshot()), state)
    {
      planState := state;
      reports := reports + [Report(planState, planSn, sys.exposing)];
    }

    method NotifyPlan(p: Plan)
      modifies this
      ensures Snapshot() == Next(old(Snapshot()), NewPlan(p))
      ensures old(Safe()) ==> Safe()
    {
      hide Counted, Logged;
      StepSafe(Snapshot(), NewPlan(p));
      if plan.None? && sys.exposing != 0 {
        return;
      }
      if plan.Some? {
        Abort();
      }
      plan := Some(p);
      planSn := p.sn;
      Notify(OBSPLAN_CATALOGED);
    }

    method Abort()
      modifies this
      ensures Snapshot() == Next(old(Snapshot()), Event.Abort)
      ensures old(Safe()) ==> Safe()
    {
      hide Counted, Logged;
      StepSafe(Snapshot(), Event.Abort);
      if plan.Some? {
        plan := None;
        Notify(OBSPLAN_INTERRUPTED);
      }
    }

    method Park()
      modifies this
      ensures Snapshot() == Next(old(Snapshot()), Event.Park)
      ensures old(Safe()) ==> Safe()
    {
      hide Counted, Logged;
      StepSafe(Snapshot(), Event.Park);
      if plan.Some? {
        plan := None;
        Notify(OBSPLAN_INTERRUPTED);
      }
    }

    method CoupleMount(up: bool)
      modifies this`mount
      ensures Snapshot() == Next(old(Snapshot()), MountLink(up))
      ensures old(Safe()) ==> Safe()
    {
      hide Counted, Logged;
      StepSafe(Snapshot(), MountLink(up));
      mount := up;
    }

    /** One round of the thread that watches the plan. */
    method WatchPlan(now: int)
      modifies this
      ensures Snapshot() == Next(old(Snapshot()), Tick(now))
      ensures old(Safe()) ==> Safe()
    {
      hide Counted, Logged;
      StepSafe(Snapshot(), Tick(now));
      if plan.None? {
        return;
      }
      if planState == OBSPLAN_CATALOGED {
        if !mount || sys.camonline == 0 || sys.exposing != 0 {
          return;
        }
        planSn := plan.value.sn;
        Notify(OBSPLAN_RUNNING);
        tmend := plan.value.end;
      } else if planState == OBSPLAN_RUNNING && tmend.Some? {
        var overSecs := now - tmend.value;
        if overSecs as real > plan.value.exptime {
          Abort();
        }
      }
    }

    /** Position of the entry that holds the connection, or the number of entries. */
    method Lookup(conn: int) returns (i: nat)
      ensures i == FindConn(cams, conn, 0)
    {
      i := 0;
      while i < |cams|
        invariant i <= |cams| && FindConn(cams, conn, 0) == FindConn(cams, conn, i)
      {
        if cams[i].conn == Some(conn) {
          return;
        }
        i := i + 1;
      }
    }

    method CoupleCamera(conn: int, cid: string, initial: int) returns (ok: bool)
      modifies this`cams, sys
      ensures Snapshot() == Next(old(Snapshot()), Couple(conn, cid, initial))
      ensures old(Safe()) && initial <= CAMCTL_IDLE ==> Safe()
      ensures !ok ==> Snapshot() == old(Snapshot())
    {
      hide Counted, Logged;
      StepSafe(Snapshot(), Couple(conn, cid, initial));
      var i := 0;
      while i < |cams|
        invariant i <= |cams| && FindCid(cams, cid, 0) == FindCid(cams, cid, i)
      {
        if IEquals(cams[i].cid, cid) {
          if cams[i].conn.Some? {
            return false;
          }
          break;
        }
        i := i + 1;
      }
      sys.CameraOnline(true);
      if i < |cams| {
        cams := cams[i := cams[i].(conn := Some(conn))];
      } else {
        cams := cams + [CameraInfo(cid, Some(conn), initial)];
      }
      ok := true;
    }

    method CloseCamera(conn: int)
      modifies this`cams, sys
      ensures Snapshot() == Next(old(Snapshot()), Close(conn))
      ensures old(Safe()) ==> Safe()
    {
      hide Counted, Logged;
      StepSafe(Snapshot(), Close(conn));
      var i := Lookup(conn);
      if i < |cams| {
        if cams[i].state > CAMCTL_IDLE {
          var _ := sys.LeaveExpose();
        }
        sys.CameraOnline(false);
        cams := cams[i := cams[i].(state := CAMCTL_ERROR, conn := None)];
      }
    }

    method ReceiveStatus(conn: int, cid: string, state: int)
      modifies this, sys
      ensures Snapshot() == Next(old(Snapshot()), Status(conn, cid, state))
      ensures old(Safe()) && old(Coupled(cams, conn)) ==> Safe()
      ensures old(Safe()) ==> EndsWithLast(old(Snapshot()), Snapshot(), conn, cid, state)
    {
      hide Counted, Logged, EndsWithLast;
      StepSafe(Snapshot(), Status(conn, cid, state));
      SafeReportEnds(Snapshot(), conn, cid, state);
      var stateOld := CAMCTL_ERROR;
      var i := Lookup(conn);
      if i < |cams| {
        stateOld := cams[i].state;
        cams := cams[i := CameraInfo(cid, Some(conn), state)];
      }
      if state != stateOld {
        if state <= CAMCTL_IDLE && stateOld > CAMCTL_IDLE {
          var last := sys.LeaveExpose();
          if last && plan.Some? {
            plan := None;
            Notify(OBSPLAN_OVER);
          }
        } else if state > CAMCTL_IDLE && stateOld <= CAMCTL_IDLE {
          sys.EnterExpose();
        } else if state == CAMCTL_WAIT_FLAT {
          sys.EnterWaitFlat();
        } else if stateOld == CAMCTL_WAIT_FLAT {
          sys.LeaveWaitFlat();
        }
      }
    }
  }
}
