/** A manual or auto-reset event shared by any number of threads.  One step is what a thread does
    between taking the event's lock and releasing it or falling asleep. */
module EventModel {
  import opened CondVars

  /** `timed` are the waiting threads that gave a timeout.  `initially`, `signals` and `passed` count since
      the event was last initialised: whether it started signalled, the OSSignalEvent calls, and
      the waits that succeeded. */
  datatype System = System(signalled: bool, autoReset: bool, cond: CondVar, timed: set<Thread>,
                           initially: nat, signals: nat, passed: nat)

  datatype Step =
    | Init(value: bool, auto: bool)
    | Signal(pick: Thread)
    | SignalAll
    | Reset
    | Wait(t: Thread)
    | WaitTimed(t: Thread, expired: bool)
    | Resume(t: Thread, expired: bool)
    | Wake(t: Thread)    // a wait that ends without a signal: the 1 ms slice of a timed wait, or spuriously

  /** What the caller learns: nothing yet, success, or a timeout. */
  datatype Outcome = Waiting | Passed | TimedOut

  /** Initialising an event to signalled wakes nobody, so nobody may be left asleep; on an
      auto-reset event one waiter already woken is enough. */
  predicate InitIsSafe(s: System, value: bool, auto: bool) {
    value && s.cond.asleep != {} ==> auto && s.cond.woken != {}
  }

  predicate Enabled(s: System, step: Step) {
    match step
    case Init(value, auto) => InitIsSafe(s, value, auto)
    case Signal(pick) => s.cond.CanPick(pick)
    case SignalAll => true
    case Reset => true
    case Wait(t) => t !in s.cond.Waiting()
    case WaitTimed(t, _) => t !in s.cond.Waiting()
    case Resume(t, _) => t in s.cond.woken
    case Wake(t) => t in s.cond.asleep
  }

  /** One pass of a waiting loop by a thread that has the lock. */
  function Pass(s: System, t: Thread, timed: bool, expired: bool): (System, Outcome)
    requires s.cond.Ok() && t !in s.cond.Waiting()
  {
    if s.signalled then (s.(signalled := !s.autoReset, passed := s.passed + 1), Passed)
    else if timed && expired then (s, TimedOut)
    else (s.(cond := s.cond.Sleep(t), timed := if timed then s.timed + {t} else s.timed - {t}), Waiting)
  }

  function Initialised(s: System, value: bool, auto: bool): System {
    s.(signalled := value, autoReset := auto, initially := if value then 1 else 0, signals := 0, passed := 0)
  }

  function Next(s: System, step: Step): System
    requires s.cond.Ok() && Enabled(s, step)
  {
    match step
    case Init(value, auto) => Initialised(s, value, auto)
    case Signal(pick) =>
      s.(signalled := true, signals := s.signals + 1, cond := if s.autoReset then s.cond.WakeOne(pick) else s.cond.WakeAll())
    case SignalAll => s.(signalled := !s.autoReset, cond := s.cond.WakeAll())
    case Reset => s.(signalled := false)
    case Wait(t) => Pass(s, t, false, false).0
    case WaitTimed(t, expired) => Pass(s, t, true, expired).0
    case Resume(t, expired) => Pass(s.(cond := s.cond.Leave(t)), t, t in s.timed, expired).0
    case Wake(t) => s.(cond := s.cond.WakeOne(t))
  }

  const CREATED := System(false, false, CondVar({}, {}), {}, 0, 0, 0)

  predicate IsRun(ss: seq<System>, steps: seq<Step>) {
    && |ss| == |steps| + 1 && ss[0] == CREATED
    && forall k :: 0 <= k < |steps| ==> ss[k].cond.Ok() && Enabled(ss[k], steps[k]) && ss[k + 1] == Next(ss[k], steps[k])
  }

  /** An auto-reset event lets no more waits through than it was given signals, and while it is
      signalled a sleeper always has a woken waiter ahead of it; nobody sleeps on a signalled
      manual event. */
  predicate Inv(s: System) {
    && s.cond.Ok()
    && (s.autoReset ==>
          && s.passed + (if s.signalled then 1 else 0) <= s.initially + s.signals
          && (s.signalled && s.cond.asleep != {} ==> s.cond.woken != {}))
    && (!s.autoReset && s.signalled ==> s.cond.asleep == {})
  }

  lemma InitKeepsInvExactly(s: System, value: bool, auto: bool)
    requires Inv(s)
    ensures Inv(Initialised(s, value, auto)) <==> InitIsSafe(s, value, auto)
  {
  }

  lemma SignalKeepsInv(s: System, step: Step)
    requires Inv(s) && Enabled(s, step) && (step.Signal? || step.SignalAll? || step.Reset?)
    ensures Inv(Next(s, step))
  {
  }

  lemma PassKeepsInv(s: System, t: Thread, timed: bool, expired: bool)
    requires s.cond.Ok() && t !in s.cond.Waiting()
    requires s.autoReset ==> s.passed + (if s.signalled then 1 else 0) <= s.initially + s.signals
    requires !s.autoReset && s.signalled ==> s.cond.asleep == {}
    ensures Inv(Pass(s, t, timed, expired).0)
  {
  }

  lemma WakeKeepsInv(s: System, t: Thread)
    requires Inv(s) && t in s.cond.asleep
    ensures Inv(Next(s, Wake(t)))
  {
  }

  lemma NextKeepsInv(s: System, step: Step)
    requires Inv(s) && Enabled(s, step)
    ensures Inv(Next(s, step))
  {
    match step
    case Init(value, auto) => InitKeepsInvExactly(s, value, auto);
    case Wait(t) => PassKeepsInv(s, t, false, false);
    case WaitTimed(t, expired) => PassKeepsInv(s, t, true, expired);
    case Resume(t, expired) => PassKeepsInv(s.(cond := s.cond.Leave(t)), t, t in s.timed, expired);
    case Wake(t) => WakeKeepsInv(s, t);
    case _ => SignalKeepsInv(s, step);
  }

  lemma {:induction false} RunKeepsInv(ss: seq<System>, steps: seq<Step>, k: nat)
    requires IsRun(ss, steps) && k < |ss|
    ensures Inv(ss[k])
  {
    if k > 0 {
      RunKeepsInv(ss, steps, k - 1);
      NextKeepsInv(ss[k - 1], steps[k - 1]);
    }
  }

  /** In every interleaving: an auto-reset event lets no more waits through than its initial state
      and its signals account for, and never has only sleepers while it is signalled; on a
      signalled manual event nobody sleeps. */
  lemma RunIsSound(ss: seq<System>, steps: seq<Step>, k: nat)
    requires IsRun(ss, steps) && k < |ss|
    ensures ss[k].autoReset ==> ss[k].passed + (if ss[k].signalled then 1 else 0) <= ss[k].initially + ss[k].signals
    ensures ss[k].autoReset && ss[k].signalled && ss[k].cond.asleep != {} ==> ss[k].cond.woken != {}
    ensures !ss[k].autoReset && ss[k].signalled ==> ss[k].cond.asleep == {}
  {
    RunKeepsInv(ss, steps, k);
  }

  /** A woken waiter that finds the event signalled passes, expired or not; it leaves an
      auto-reset event unsignalled and a manual one as it was. */
  lemma WokenWaiterPasses(s: System, t: Thread, expired: bool)
    requires Inv(s) && t in s.cond.woken && s.signalled
    ensures var (r, outcome) := Pass(s.(cond := s.cond.Leave(t)), t, t in s.timed, expired);
            outcome == Passed && r.passed == s.passed + 1 && r.signalled == !s.autoReset && r.cond.asleep == s.cond.asleep
  {
  }

  lemma ResumeIsOneWaiter(s: System, t: Thread, expired: bool)
    requires Inv(s) && t in s.cond.woken
    ensures var r := Next(s, Resume(t, expired));
            && r.autoReset == s.autoReset && |r.cond.woken| == |s.cond.woken| - 1
            && r.passed == s.passed + (if s.signalled then 1 else 0)
            && r.signalled == (s.signalled && !s.autoReset)
  {
    if s.signalled { WokenWaiterPasses(s, t, expired); }
  }

  /** Woken waiters run, in any order, and nothing else happens. */
  predicate Resumes(ss: seq<System>, steps: seq<Step>) {
    && |ss| == |steps| + 1
    && forall k :: 0 <= k < |steps| ==>
         steps[k].Resume? && ss[k].cond.Ok() && Enabled(ss[k], steps[k]) && ss[k + 1] == Next(ss[k], steps[k])
  }

  /** Each woken waiter runs once.  A signalled auto-reset event lets exactly the first one
      through and clears itself; a signalled manual event lets all of them through. */
  lemma {:induction false} ResumedWaiters(ss: seq<System>, steps: seq<Step>, k: nat)
    requires Resumes(ss, steps) && Inv(ss[0]) && k <= |steps|
    ensures Inv(ss[k]) && ss[k].autoReset == ss[0].autoReset && |ss[k].cond.woken| + k == |ss[0].cond.woken|
    ensures ss[k].passed == ss[0].passed + (if !ss[0].signalled || k == 0 then 0 else if ss[0].autoReset then 1 else k)
    ensures ss[k].signalled == (ss[0].signalled && (!ss[0].autoReset || k == 0))
  {
    if k > 0 {
      ResumedWaiters(ss, steps, k - 1);
      NextKeepsInv(ss[k - 1], steps[k - 1]);
      ResumeIsOneWaiter(ss[k - 1], steps[k - 1].t, steps[k - 1].expired);
    }
  }

  lemma ResumesPrepend(s: System, step: Step, ss: seq<System>, steps: seq<Step>)
    requires step.Resume? && s.cond.Ok() && Enabled(s, step) && Resumes(ss, steps) && ss[0] == Next(s, step)
    ensures Resumes([s] + ss, [step] + steps) && ([s] + ss)[|steps| + 1] == ss[|steps|]
  {
  }

  /** So the woken waiters come to rest after as many steps as there are, and then nobody sleeps on
      a signalled event. */
  lemma {:induction false} RestIsReached(s: System) returns (ss: seq<System>, steps: seq<Step>)
    requires Inv(s)
    ensures Resumes(ss, steps) && ss[0] == s && |steps| == |s.cond.woken|
    ensures ss[|steps|].cond.woken == {} && (ss[|steps|].signalled ==> ss[|steps|].cond.asleep == {})
    decreases |s.cond.woken|
  {
    if s.cond.woken == {} {
      ss, steps := [s], [];
    } else {
      var t :| t in s.cond.woken;
      NextKeepsInv(s, Resume(t, false));
      ResumeIsOneWaiter(s, t, false);
      ss, steps := RestIsReached(Next(s, Resume(t, false)));
      ResumesPrepend(s, Resume(t, false), ss, steps);
      ss, steps := [s] + ss, [Resume(t, false)] + steps;
    }
  }

  const SLEEPER := CREATED.(cond := CondVar({0}, {}))

  lemma FirstWaitSleeps()
    ensures Enabled(CREATED, Wait(0)) && Next(CREATED, Wait(0)) == SLEEPER
  {
    assert {} + {0} == {0};
  }

  /** Initialising can strand a waiter: one that sleeps is not woken when the event is initialised
      to signalled. */
  lemma InitCanStrandWaiter(auto: bool) returns (ss: seq<System>, steps: seq<Step>)
    ensures IsRun(ss, steps) && steps == [Wait(0)] && Inv(ss[1])
    ensures var s := Initialised(ss[1], true, auto); !Inv(s) && s.signalled && s.cond.asleep == {0} && s.cond.woken == {}
  {
    FirstWaitSleeps();
    ss, steps := [CREATED, SLEEPER], [Wait(0)];
  }

  lemma UnsignalledStays(s: System, step: Step)
    requires s.cond.Ok() && Enabled(s, step) && !step.Signal? && !step.Init? && s.autoReset && !s.signalled
    ensures Next(s, step).passed == s.passed && !Next(s, step).signalled && Next(s, step).autoReset
  {
  }

  /** OSSignalEventAll on an auto-reset event clears the flag before any waiter can test it: every
      woken waiter that runs before the next signal goes back to sleep or times out. */
  lemma {:induction false} SignalAllOnAutoLetsNobodyThrough(ss: seq<System>, steps: seq<Step>, i: nat, j: nat)
    requires IsRun(ss, steps) && i < j <= |steps| && steps[i] == SignalAll && ss[i].autoReset
    requires forall k :: i < k < j ==> !steps[k].Signal? && !steps[k].Init?
    ensures ss[j].passed == ss[i].passed && !ss[j].signalled && ss[j].autoReset
  {
    if i + 1 < j {
      SignalAllOnAutoLetsNobodyThrough(ss, steps, i, j - 1);
      UnsignalledStays(ss[j - 1], steps[j - 1]);
    }
  }
}
