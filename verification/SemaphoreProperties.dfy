/** What the calls on a semaphore do, told by the calls themselves. */
module SemaphoreProperties {
  import opened CondVars
  import opened SemaphoreModel

  // ---- the count told by the calls ----

  /** The value of the latest initialisation among the first `k` steps. */
  function StartCount(steps: seq<Step>, k: nat): int
    requires k <= |steps|
  {
    if k == 0 then 0 else if steps[k - 1].Init? then steps[k - 1].count else StartCount(steps, k - 1)
  }

  /** How many OSSignalSemaphore calls there were since then. */
  function SignalCalls(steps: seq<Step>, k: nat): nat
    requires k <= |steps|
  {
    if k == 0 || steps[k - 1].Init? then 0 else SignalCalls(steps, k - 1) + if steps[k - 1].Signal? then 1 else 0
  }

  /** A wait, or the attempt at one, that finds the count positive. */
  predicate Succeeds(s: System, step: Step) { (step.Wait? || step.TryWait? || step.Resume?) && s.count > 0 }

  /** How many waits have succeeded since then. */
  function SuccessfulWaits(ss: seq<System>, steps: seq<Step>, k: nat): nat
    requires k <= |steps| && k <= |ss|
  {
    if k == 0 || steps[k - 1].Init? then 0
    else SuccessfulWaits(ss, steps, k - 1) + if Succeeds(ss[k - 1], steps[k - 1]) then 1 else 0
  }

  lemma StepCounts(s: System, step: Step)
    requires s.cond.Ok() && Enabled(s, step)
    ensures var r := Next(s, step);
            if step.Init? then r.initial == step.count && r.signals == 0 && r.taken == 0
            else r.initial == s.initial && r.signals == s.signals + (if step.Signal? then 1 else 0)
                 && r.taken == s.taken + (if Succeeds(s, step) then 1 else 0)
  {
  }

  lemma {:induction false} LogsAreCalls(ss: seq<System>, steps: seq<Step>, k: nat)
    requires IsRun(ss, steps) && k <= |steps|
    ensures ss[k].initial == StartCount(steps, k) && ss[k].signals == SignalCalls(steps, k)
    ensures ss[k].taken == SuccessfulWaits(ss, steps, k)
  {
    if k > 0 {
      LogsAreCalls(ss, steps, k - 1);
      StepCounts(ss[k - 1], steps[k - 1]);
    }
  }

  /** In every interleaving the count is the initial value plus the signals minus the successful
      waits since the latest initialisation, and waits never take it below zero. */
  lemma CountIsConserved(ss: seq<System>, steps: seq<Step>, k: nat)
    requires IsRun(ss, steps) && k <= |steps|
    ensures ss[k].count == StartCount(steps, k) + SignalCalls(steps, k) - SuccessfulWaits(ss, steps, k)
    ensures ss[k].count >= (if StartCount(steps, k) < 0 then StartCount(steps, k) else 0)
  {
    LogsAreCalls(ss, steps, k);
    RunIsSound(ss, steps, k);
  }

  // ---- who waits ----

  /** A waiting call sleeps if and only if it does not succeed, and moves no other thread. */
  lemma WaitMovesOnlyItsThread(s: System, step: Step)
    requires s.cond.Ok() && Enabled(s, step) && (step.Wait? || step.Resume?)
    ensures Next(s, step).cond.Of(step.t) == if Succeeds(s, step) then Away else Sleeping
    ensures s.cond.SameBut(Next(s, step).cond, step.t)
  {
  }

  /** An attempt never waits, and it moves no other thread either. */
  lemma TryWaitNeverWaits(s: System, t: Thread)
    requires s.cond.Ok() && Enabled(s, TryWait(t))
    ensures Next(s, TryWait(t)).cond.Of(t) == Away && s.cond.SameBut(Next(s, TryWait(t)).cond, t)
  {
  }

  /** A signal rouses every sleeper, whatever the count; a wait that ends without one rouses only
      its own thread.  Initialising moves nobody. */
  lemma WhoIsRoused(s: System, step: Step, x: Thread)
    requires s.cond.Ok() && Enabled(s, step) && (step.Signal? || step.Wake? || step.Init?)
    ensures Next(s, step).cond.Of(x) ==
            if s.cond.Of(x).Sleeping? && (step.Signal? || step == Wake(x)) then Roused else s.cond.Of(x)
  {
  }
}
