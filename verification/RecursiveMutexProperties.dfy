/** What the calls on a mutex and its condition variables do, told by the calls themselves. */
module RecursiveMutexProperties {
  import opened Machine
  import opened Wrappers
  import opened CondVars
  import opened RecursiveMutexModel

  // ---- the depth told by the calls ----

  /** The step completes a lock call of thread `t`: it re-enters, or it has taken the lock. */
  predicate Locks(s: System, step: Step, t: Thread) {
    || step == StoreOne(t)
    || ((step == Lock(t) || step == TryLock(t)) && s.owner == Some(t))
  }

  /** The step is an unlock call by a thread that holds the mutex. */
  predicate Unlocks(s: System, step: Step, t: Thread) { step == Unlock(t) && s.owner == Some(t) }

  /** Lock calls of `t` that have completed, minus its unlock calls. */
  function Balance(ss: seq<System>, steps: seq<Step>, k: nat, t: Thread): int
    requires k <= |steps| && k <= |ss|
  {
    if k == 0 then 0
    else
      var before := Balance(ss, steps, k - 1, t);
      if Locks(ss[k - 1], steps[k - 1], t) then before + 1
      else if Unlocks(ss[k - 1], steps[k - 1], t) then before - 1
      else before
  }

  lemma StepDepth(s: System, step: Step, t: Thread)
    requires Enabled(s, step)
    ensures Next(s, step).Depth(t) ==
            s.Depth(t) + if Locks(s, step, t) then 1 else if Unlocks(s, step, t) then -1 else 0
  {
  }

  lemma {:induction false} DepthIsBalance(ss: seq<System>, steps: seq<Step>, k: nat, t: Thread)
    requires IsRun(ss, steps) && k <= |steps|
    ensures ss[k].Depth(t) == Balance(ss, steps, k, t)
  {
    if k > 0 {
      DepthIsBalance(ss, steps, k - 1, t);
      StepDepth(ss[k - 1], steps[k - 1], t);
    }
  }

  /** In every interleaving: a thread in game code holds the mutex exactly while its lock calls
      outnumber its unlock calls, the count is then that difference, and no two threads do. */
  lemma CountIsBalance(ss: seq<System>, steps: seq<Step>, k: nat, t: Thread, u: Thread)
    requires IsRun(ss, steps) && k <= |steps| && ss[k].At(t).Outside?
    ensures ss[k].owner == Some(t) <==> Balance(ss, steps, k, t) > 0
    ensures ss[k].owner == Some(t) ==> ss[k].count == Balance(ss, steps, k, t)
    ensures ss[k].At(u).Outside? && Balance(ss, steps, k, t) > 0 && Balance(ss, steps, k, u) > 0 ==> t == u
  {
    DepthIsBalance(ss, steps, k, t);
    DepthIsBalance(ss, steps, k, u);
    RunKeepsInv(ss, steps, k);
    assert ThreadOk(ss[k], t) && ThreadOk(ss[k], u);
  }

  // ---- where a step leaves the threads ----

  /** Where a step of its own takes a thread. */
  lemma OwnPlace(s: System, step: Step)
    requires Enabled(s, step) && !step.Signal?
    ensures var p := Next(s, step).At(step.t);
            match step
            case Lock(t) => p == if s.owner == Some(t) then Outside else Contending
            case Acquire(t) => p == Acquired && Next(s, step).owner == Some(t)
            case StoreOne(t) => p == Outside && Next(s, step).owner == s.owner
            case TryLock(t) => p == if s.owner == None then Acquired else Outside
            case Unlock(t) => p == if s.owner == Some(t) && U32(s.count - 1) == 0 then Releasing else Outside
            case Release(t) => p == Outside && Next(s, step).owner == None
            case Wait(t, c) => p == Parking(c, s.count)
            case Sleep(t) => p == Asleep(s.At(t).cond, s.At(t).saved) && Next(s, step).owner == None
            case Wake(t) => p == Woken(s.At(t).saved)
            case Reacquire(t) => p == Restoring(s.At(t).saved) && Next(s, step).owner == Some(t)
            case Restore(t) => p == Outside && Next(s, step).count == s.At(t).saved
  {
  }

  /** A step moves no thread but its own, unless it is a signal. */
  lemma OthersStay(s: System, step: Step, x: Thread)
    requires Enabled(s, step) && !step.Signal? && x != step.t
    ensures Next(s, step).At(x) == s.At(x)
  {
  }

  // ---- waiting and signalling ----

  /** In a wait on `cond`, before it is woken, or after. */
  predicate InWaitOn(p: Place, cond: Cond, saved: nat) {
    InWait(p, saved) && (p.Parking? || p.Asleep? ==> p.cond == cond)
  }

  lemma StepKeepsWaitingOn(s: System, step: Step, t: Thread, cond: Cond, saved: nat)
    requires Enabled(s, step) && InWaitOn(s.At(t), cond, saved) && step != Restore(t)
    ensures InWaitOn(Next(s, step).At(t), cond, saved)
  {
    StepKeepsWaiting(s, step, t, saved);
  }

  lemma {:induction false} WaitKeepsCondition(ss: seq<System>, steps: seq<Step>, i: nat, k: nat, t: Thread, c: Cond)
    requires IsRun(ss, steps) && i < k <= |steps| && steps[i] == Wait(t, c)
    requires forall j :: i < j < k ==> steps[j] != Restore(t)
    ensures InWaitOn(ss[k].At(t), c, ss[i].count)
  {
    if i + 1 < k {
      WaitKeepsCondition(ss, steps, i, k - 1, t, c);
      StepKeepsWaitingOn(ss[k - 1], steps[k - 1], t, c, ss[i].count);
    }
  }

  /** OSSignalCond ends the sleep of exactly the threads asleep on that condition, each with the
      count it saved; everybody else stays where they are, and the mutex is not touched. */
  lemma SignalMovesSleepers(s: System, c: Cond, x: Thread)
    ensures var r := Next(s, Signal(c));
            && r.At(x) == (match s.At(x) case Asleep(d, saved) => if d == c then Woken(saved) else s.At(x) case _ => s.At(x))
            && r.owner == s.owner && r.count == s.count && r.Depth(x) == s.Depth(x)
  {
  }

  /** In every interleaving a thread that waits on a condition and has fallen asleep is woken by
      the next signal of that condition, and by the signal of no other. */
  lemma SignalWakesWaiter(ss: seq<System>, steps: seq<Step>, i: nat, k: nat, t: Thread, c: Cond, d: Cond)
    requires IsRun(ss, steps) && i < k < |steps| && steps[i] == Wait(t, c) && steps[k] == Signal(d)
    requires (forall j :: i < j < k ==> steps[j] != Restore(t)) && ss[k].At(t).Asleep?
    ensures ss[k + 1].At(t) == if d == c then Woken(ss[i].count) else Asleep(c, ss[i].count)
  {
    WaitKeepsCondition(ss, steps, i, k, t, c);
    SignalMovesSleepers(ss[k], d, t);
  }
}
