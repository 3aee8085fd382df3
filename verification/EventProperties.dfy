/** What the calls on an event do, told by the calls themselves. */
module EventProperties {
  import opened CondVars
  import opened EventModel

  // ---- the flag ----

  /** A wait that finds the event signalled. */
  predicate Succeeds(s: System, step: Step) { (step.Wait? || step.WaitTimed? || step.Resume?) && s.signalled }

  /** What each call makes of the flag: signalling sets it, signalling all leaves it set on a manual
      event only, a reset clears it, and so does a successful wait on an auto-reset event.  The
      mode changes only with an initialisation. */
  lemma FlagAfter(s: System, step: Step)
    requires s.cond.Ok() && Enabled(s, step)
    ensures var r := Next(s, step);
            match step
            case Init(value, auto) => r.signalled == value && r.autoReset == auto
            case Signal(_) => r.signalled && r.autoReset == s.autoReset
            case SignalAll => r.signalled == !s.autoReset && r.autoReset == s.autoReset
            case Reset => !r.signalled && r.autoReset == s.autoReset
            case _ => r.signalled == (s.signalled && !(s.autoReset && Succeeds(s, step))) && r.autoReset == s.autoReset
  {
  }

  // ---- the waits told by the calls ----

  /** Whether the latest initialisation among the first `k` steps was to signalled. */
  predicate StartedSignalled(steps: seq<Step>, k: nat)
    requires k <= |steps|
  {
    k > 0 && if steps[k - 1].Init? then steps[k - 1].value else StartedSignalled(steps, k - 1)
  }

  predicate StartedAuto(steps: seq<Step>, k: nat)
    requires k <= |steps|
  {
    k > 0 && if steps[k - 1].Init? then steps[k - 1].auto else StartedAuto(steps, k - 1)
  }

  /** How many OSSignalEvent calls there were since then. */
  function SignalCalls(steps: seq<Step>, k: nat): nat
    requires k <= |steps|
  {
    if k == 0 || steps[k - 1].Init? then 0 else SignalCalls(steps, k - 1) + if steps[k - 1].Signal? then 1 else 0
  }

  /** How many waits have succeeded since then. */
  function SuccessfulWaits(ss: seq<System>, steps: seq<Step>, k: nat): nat
    requires k <= |steps| && k <= |ss|
  {
    if k == 0 || steps[k - 1].Init? then 0
    else SuccessfulWaits(ss, steps, k - 1) + if Succeeds(ss[k - 1], steps[k - 1]) then 1 else 0
  }

  lemma StepCounts(s: System, step: Step)
    requires s.cond.Ok() && Enabled(s, step)
    ensures var r := Next(s, step);
            if step.Init? then r.initially == (if step.value then 1 else 0) && r.signals == 0 && r.passed == 0
            else r.initially == s.initially && r.signals == s.signals + (if step.Signal? then 1 else 0)
                 && r.passed == s.passed + (if Succeeds(s, step) then 1 else 0)
  {
  }

  lemma {:induction false} ModeIsLatest(ss: seq<System>, steps: seq<Step>, k: nat)
    requires IsRun(ss, steps) && k <= |steps|
    ensures ss[k].autoReset == StartedAuto(steps, k)
  {
    if k > 0 {
      ModeIsLatest(ss, steps, k - 1);
      FlagAfter(ss[k - 1], steps[k - 1]);
    }
  }

  lemma {:induction false} LogsAreCalls(ss: seq<System>, steps: seq<Step>, k: nat)
    requires IsRun(ss, steps) && k <= |steps|
    ensures ss[k].initially == (if StartedSignalled(steps, k) then 1 else 0)
    ensures ss[k].signals == SignalCalls(steps, k) && ss[k].passed == SuccessfulWaits(ss, steps, k)
  {
    if k > 0 {
      LogsAreCalls(ss, steps, k - 1);
      StepCounts(ss[k - 1], steps[k - 1]);
    }
  }

  /** In every interleaving the waits that an auto-reset event has let through since its latest
      initialisation, and one more while it is signalled, never exceed its signals and the
      initial one. */
  lemma WaitsNeedSignals(ss: seq<System>, steps: seq<Step>, k: nat)
    requires IsRun(ss, steps) && k <= |steps| && StartedAuto(steps, k)
    ensures SuccessfulWaits(ss, steps, k) + (if ss[k].signalled then 1 else 0) <=
            SignalCalls(steps, k) + (if StartedSignalled(steps, k) then 1 else 0)
  {
    ModeIsLatest(ss, steps, k);
    LogsAreCalls(ss, steps, k);
    RunIsSound(ss, steps, k);
  }

  // ---- who waits ----

  /** Whether the wait gives up: only a timed one, only when its time is over. */
  predicate GivesUp(s: System, step: Step) {
    || (step.WaitTimed? && step.expired)
    || (step.Resume? && step.expired && step.t in s.timed)
  }

  /** A waiting call that does not succeed sleeps unless it gives up; it moves no other thread. */
  lemma WaitMovesOnlyItsThread(s: System, step: Step)
    requires s.cond.Ok() && Enabled(s, step) && (step.Wait? || step.WaitTimed? || step.Resume?)
    ensures Next(s, step).cond.Of(step.t) == (if Succeeds(s, step) || GivesUp(s, step) then Away else Sleeping)
    ensures s.cond.SameBut(Next(s, step).cond, step.t)
  {
  }

  /** A thread that falls asleep is remembered as timed if and only if its call was, and no other
      thread's memory changes. */
  lemma TimedIsRemembered(s: System, step: Step, x: Thread)
    requires s.cond.Ok() && Enabled(s, step) && (step.Wait? || step.WaitTimed? || step.Resume?)
    ensures x != step.t ==> (x in Next(s, step).timed <==> x in s.timed)
    ensures Next(s, step).cond.Of(step.t).Sleeping? ==>
              (step.t in Next(s, step).timed <==> step.WaitTimed? || (step.Resume? && step.t in s.timed))
  {
  }

  /** OSSignalEvent on an auto-reset event rouses the one sleeper that the system picks, if there
      is any; on a manual event, and with OSSignalEventAll, it rouses all of them.  A wait that
      ends without a signal rouses only its own thread, and nothing else rouses anybody. */
  lemma WhoIsRoused(s: System, step: Step, x: Thread)
    requires s.cond.Ok() && Enabled(s, step) && (step.Signal? || step.SignalAll? || step.Reset? || step.Wake? || step.Init?)
    ensures var chosen := step.SignalAll? || step == Wake(x) || (step.Signal? && (s.autoReset ==> step.pick == x));
            Next(s, step).cond.Of(x) == if s.cond.Of(x).Sleeping? && chosen then Roused else s.cond.Of(x)
    ensures x in Next(s, step).timed <==> x in s.timed
  {
  }
}
