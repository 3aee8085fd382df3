/** A counting semaphore shared by any number of threads.  One step is what a thread does between
    taking the semaphore's lock and releasing it or falling asleep. */
module SemaphoreModel {
  import opened CondVars

  /** `initial`, `signals` and `taken` count since the semaphore was last initialised. */
  datatype System = System(count: int, cond: CondVar, initial: int, signals: nat, taken: nat)

  datatype Step =
    | Init(count: int)
    | Signal
    | Wait(t: Thread)
    | TryWait(t: Thread)
    | Resume(t: Thread)
    | Wake(t: Thread)    // a wait that ends without a signal

  /** Initialising a semaphore to a positive count wakes nobody, so nobody may be asleep. */
  predicate InitIsSafe(s: System, count: int) { count > 0 ==> s.cond.asleep == {} }

  /** The count is an int32_t that may not overflow. */
  predicate Enabled(s: System, step: Step) {
    match step
    case Init(count) => -0x8000_0000 <= count < 0x8000_0000 && InitIsSafe(s, count)
    case Signal => s.count < 0x7FFF_FFFF
    case Wait(t) => t !in s.cond.Waiting()
    case TryWait(t) => t !in s.cond.Waiting()
    case Resume(t) => t in s.cond.woken
    case Wake(t) => t in s.cond.asleep
  }

  function Pass(s: System, t: Thread): System
    requires s.cond.Ok() && t !in s.cond.Waiting()
  {
    if s.count <= 0 then s.(cond := s.cond.Sleep(t)) else s.(count := s.count - 1, taken := s.taken + 1)
  }

  function Initialised(s: System, count: int): System { s.(count := count, initial := count, signals := 0, taken := 0) }

  function Next(s: System, step: Step): System
    requires s.cond.Ok() && Enabled(s, step)
  {
    match step
    case Init(count) => Initialised(s, count)
    case Signal => s.(count := s.count + 1, signals := s.signals + 1, cond := s.cond.WakeAll())
    case Wait(t) => Pass(s, t)
    case TryWait(t) => if s.count > 0 then s.(count := s.count - 1, taken := s.taken + 1) else s
    case Resume(t) => Pass(s.(cond := s.cond.Leave(t)), t)
    case Wake(t) => s.(cond := s.cond.WakeOne(t))
  }

  const CREATED := System(0, CondVar({}, {}), 0, 0, 0)

  predicate IsRun(ss: seq<System>, steps: seq<Step>) {
    && |ss| == |steps| + 1 && ss[0] == CREATED
    && forall k :: 0 <= k < |steps| ==> ss[k].cond.Ok() && Enabled(ss[k], steps[k]) && ss[k + 1] == Next(ss[k], steps[k])
  }

  /** The count is conserved, waits never take it below zero, and nobody sleeps while it is positive. */
  predicate Inv(s: System) {
    && s.cond.Ok()
    && s.count == s.initial + s.signals - s.taken
    && s.count >= (if s.initial < 0 then s.initial else 0)
    && (s.count > 0 ==> s.cond.asleep == {})
    && -0x8000_0000 <= s.count < 0x8000_0000
  }

  lemma InitKeepsInvExactly(s: System, count: int)
    requires Inv(s) && -0x8000_0000 <= count < 0x8000_0000
    ensures Inv(Initialised(s, count)) <==> InitIsSafe(s, count)
  {
  }

  lemma NextKeepsInv(s: System, step: Step)
    requires Inv(s) && Enabled(s, step)
    ensures Inv(Next(s, step))
  {
  }

  lemma {:induction false} RunKeepsInv(ss: seq<System>, steps: seq<Step>, k: nat)
    requires IsRun(ss, steps) && k < |ss|
    ensures Inv(ss[k])
  {
    if k > 0 {
      RunKeepsInv(ss, steps, k - 1);
      NextKeepsInv(ss[k - 1], steps[k - 1]);
    }
  }

  /** In every interleaving the count is what it started with plus the signals minus the waits
      that succeeded; waits never take it below zero, and nobody sleeps while it is positive. */
  lemma RunIsSound(ss: seq<System>, steps: seq<Step>, k: nat)
    requires IsRun(ss, steps) && k < |ss|
    ensures ss[k].count == ss[k].initial + ss[k].signals - ss[k].taken
    ensures ss[k].count >= (if ss[k].initial < 0 then ss[k].initial else 0)
    ensures ss[k].count > 0 ==> ss[k].cond.asleep == {}
  {
    RunKeepsInv(ss, steps, k);
  }

  lemma ResumeIsOneWaiter(s: System, t: Thread)
    requires Inv(s) && t in s.cond.woken
    ensures var r := Next(s, Resume(t));
            && |r.cond.woken| == |s.cond.woken| - 1
            && (if s.count > 0 then r.count == s.count - 1 && r.taken == s.taken + 1 else r.count == s.count && r.taken == s.taken)
  {
  }

  /** Woken waiters run, in any order, and nothing else happens. */
  predicate Resumes(ss: seq<System>, steps: seq<Step>) {
    && |ss| == |steps| + 1
    && forall k :: 0 <= k < |steps| ==>
         steps[k].Resume? && ss[k].cond.Ok() && Enabled(ss[k], steps[k]) && ss[k + 1] == Next(ss[k], steps[k])
  }

  /** Each woken waiter runs once, and as many of them succeed as the count allows. */
  lemma {:induction false} ResumedWaiters(ss: seq<System>, steps: seq<Step>, k: nat)
    requires Resumes(ss, steps) && Inv(ss[0]) && k <= |steps|
    ensures Inv(ss[k]) && |ss[k].cond.woken| + k == |ss[0].cond.woken|
    ensures ss[k].taken == ss[0].taken + (if ss[0].count <= 0 then 0 else if k <= ss[0].count then k else ss[0].count)
    ensures ss[k].count == ss[0].count - (ss[k].taken - ss[0].taken)
  {
    if k > 0 {
      ResumedWaiters(ss, steps, k - 1);
      NextKeepsInv(ss[k - 1], steps[k - 1]);
      ResumeIsOneWaiter(ss[k - 1], steps[k - 1].t);
    }
  }

  lemma ResumesPrepend(s: System, step: Step, ss: seq<System>, steps: seq<Step>)
    requires step.Resume? && s.cond.Ok() && Enabled(s, step) && Resumes(ss, steps) && ss[0] == Next(s, step)
    ensures Resumes([s] + ss, [step] + steps) && ([s] + ss)[|steps| + 1] == ss[|steps|]
  {
  }

  /** So the woken waiters come to rest after as many steps as there are, and then nobody sleeps
      while the count is positive. */
  lemma {:induction false} RestIsReached(s: System) returns (ss: seq<System>, steps: seq<Step>)
    requires Inv(s)
    ensures Resumes(ss, steps) && ss[0] == s && |steps| == |s.cond.woken|
    ensures ss[|steps|].cond.woken == {} && (ss[|steps|].count > 0 ==> ss[|steps|].cond.asleep == {})
    decreases |s.cond.woken|
  {
    if s.cond.woken == {} {
      ss, steps := [s], [];
    } else {
      var t :| t in s.cond.woken;
      NextKeepsInv(s, Resume(t));
      ResumeIsOneWaiter(s, t);
      ss, steps := RestIsReached(Next(s, Resume(t)));
      ResumesPrepend(s, Resume(t), ss, steps);
      ss, steps := [s] + ss, [Resume(t)] + steps;
    }
  }

  const SLEEPER := CREATED.(cond := CondVar({0}, {}))

  lemma FirstWaitSleeps()
    ensures Enabled(CREATED, Wait(0)) && Next(CREATED, Wait(0)) == SLEEPER
  {
    assert {} + {0} == {0};
  }

  /** Initialising can strand a waiter: one that sleeps is not woken by a positive count. */
  lemma InitCanStrandWaiter() returns (ss: seq<System>, steps: seq<Step>)
    ensures IsRun(ss, steps) && steps == [Wait(0)] && Inv(ss[1])
    ensures var s := Initialised(ss[1], 1); !Inv(s) && s.count > 0 && s.cond.asleep == {0} && s.cond.woken == {}
  {
    FirstWaitSleeps();
    ss, steps := [CREATED, SLEEPER], [Wait(0)];
  }
}
