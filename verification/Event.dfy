/** The host record of an event, updated in place under its lock. */
module Event {
  import opened CondVars
  import opened Machine
  import opened Ticks
  import M = EventModel

  class HostEvent {
    var signalled: bool
    var autoReset: bool
    var cond: CondVar
    ghost var timed: set<Thread>
    ghost var initially: nat
    ghost var signals: nat
    ghost var passed: nat

    ghost function Model(): M.System
      reads this
    {
      M.System(signalled, autoReset, cond, timed, initially, signals, passed)
    }

    ghost predicate Valid()
      reads this
    {
      M.Inv(Model())
    }

    constructor ()
      ensures Valid() && Model() == M.CREATED
    {
      signalled, autoReset, cond := false, false, CondVar({}, {});
      timed, initially, signals, passed := {}, 0, 0, 0;
    }

    method Init(value: int, auto: bool)
      requires Valid()
      modifies this
      ensures Model() == M.Initialised(old(Model()), value != 0, auto)
      ensures Valid() <==> M.InitIsSafe(old(Model()), value != 0, auto)
    {
      M.InitKeepsInvExactly(Model(), value != 0, auto);
      signalled := value != 0;
      autoReset := auto;
      initially, signals, passed := if value != 0 then 1 else 0, 0, 0;
    }

    method Signal(pick: Thread)
      requires Valid() && cond.CanPick(pick)
      modifies this
      ensures Valid() && Model() == M.Next(old(Model()), M.Signal(pick))
    {
      M.NextKeepsInv(Model(), M.Signal(pick));
      signalled := true;
      signals := signals + 1;
      if autoReset { cond := cond.WakeOne(pick); } else { cond := cond.WakeAll(); }
    }

    method SignalAll()
      requires Valid()
      modifies this
      ensures Valid() && Model() == M.Next(old(Model()), M.SignalAll)
    {
      M.NextKeepsInv(Model(), M.SignalAll);
      signalled := true;
      cond := cond.WakeAll();
      if autoReset { signalled := false; }
    }

    method Reset()
      requires Valid()
      modifies this
      ensures Valid() && Model() == M.Next(old(Model()), M.Reset)
    {
      M.NextKeepsInv(Model(), M.Reset);
      signalled := false;
    }

    /** One pass of the waiting loop of OSWaitEvent, from a held lock to its release or to sleep. */
    method Pass(t: Thread) returns (outcome: M.Outcome)
      requires cond.Ok() && t !in cond.Waiting()
      modifies this
      ensures (Model(), outcome) == M.Pass(old(Model()), t, false, false)
    {
      if !signalled {
        cond := cond.Sleep(t);
        timed := timed - {t};
        return M.Waiting;
      }
      if autoReset { signalled := false; }
      passed := passed + 1;
      return M.Passed;
    }

    /** One pass of the waiting loop of OSWaitEventWithTimeout, which reads the clock at `now`. */
    method PassTimed(t: Thread, now: nat, deadline: nat) returns (outcome: M.Outcome)
      requires cond.Ok() && t !in cond.Waiting()
      modifies this
      ensures (Model(), outcome) == M.Pass(old(Model()), t, true, now >= deadline)
    {
      if !signalled {
        if now >= deadline { return M.TimedOut; }
        cond := cond.Sleep(t);
        timed := timed + {t};
        return M.Waiting;
      }
      if autoReset { signalled := false; }
      passed := passed + 1;
      return M.Passed;
    }

    method Wait(t: Thread) returns (outcome: M.Outcome)
      requires Valid() && t !in cond.Waiting()
      modifies this
      ensures Valid() && Model() == M.Next(old(Model()), M.Wait(t))
      ensures outcome == if old(signalled) then M.Passed else M.Waiting
    {
      M.NextKeepsInv(Model(), M.Wait(t));
      outcome := Pass(t);
    }

    method ResumeWait(t: Thread) returns (outcome: M.Outcome)
      requires Valid() && t in cond.woken && t !in timed
      modifies this
      ensures Valid() && Model() == M.Next(old(Model()), M.Resume(t, false))
      ensures outcome == if old(signalled) then M.Passed else M.Waiting
    {
      M.NextKeepsInv(Model(), M.Resume(t, false));
      cond := cond.Leave(t);
      outcome := Pass(t);
    }

    /** The clock is read once for the deadline and again in the first pass. */
    method WaitTimed(t: Thread, timeout: int, start: nat, now: nat) returns (outcome: M.Outcome, deadline: nat)
      requires Valid() && t !in cond.Waiting() && start <= now
      modifies this
      ensures deadline == U64(start + EventTimeoutTicks(timeout))
      ensures Valid() && Model() == M.Next(old(Model()), M.WaitTimed(t, now >= deadline))
      ensures outcome == if old(signalled) then M.Passed else if now >= deadline then M.TimedOut else M.Waiting
    {
      deadline := U64(start + EventTimeoutTicks(timeout));
      M.NextKeepsInv(Model(), M.WaitTimed(t, now >= deadline));
      outcome := PassTimed(t, now, deadline);
    }

    method ResumeTimed(t: Thread, now: nat, deadline: nat) returns (outcome: M.Outcome)
      requires Valid() && t in cond.woken && t in timed
      modifies this
      ensures Valid() && Model() == M.Next(old(Model()), M.Resume(t, now >= deadline))
      ensures outcome == if old(signalled) then M.Passed else if now >= deadline then M.TimedOut else M.Waiting
    {
      M.NextKeepsInv(Model(), M.Resume(t, now >= deadline));
      cond := cond.Leave(t);
      outcome := PassTimed(t, now, deadline);
    }
  }
}
