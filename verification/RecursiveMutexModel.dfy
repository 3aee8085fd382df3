/** The recursive mutex, counted on top of a non-recursive lock, and the condition variables used
    with it, shared by any number of threads.  Every access to the lock or to the count that
    another thread could come between is a step of its own. */
module RecursiveMutexModel {
  import opened Machine
  import opened Wrappers
  import opened CondVars

  type Cond = nat

  /** Where a thread is.  `Outside` is game code, which may hold the mutex. */
  datatype Place =
    | Outside
    | Contending                        // in OSLockMutex, waiting for the lock
    | Acquired                          // has the lock, has not yet stored count 1
    | Releasing                         // has stored count 0, still has the lock
    | Parking(cond: Cond, saved: nat)   // in OSWaitCond: count saved and zeroed, still has the lock
    | Asleep(cond: Cond, saved: nat)
    | Woken(saved: nat)                 // waiting for the lock to come back
    | Restoring(saved: nat)             // has the lock, has not yet restored the count

  /** `depth` is each thread's lock calls minus its unlock calls, counting successful locks and
      unlocks by the owner; a thread missing from a map is outside at depth 0. */
  datatype System = System(owner: Option<Thread>, count: nat, places: map<Thread, Place>, depths: map<Thread, int>) {
    function At(t: Thread): Place { if t in places then places[t] else Outside }

    function Depth(t: Thread): int { if t in depths then depths[t] else 0 }

    function Move(t: Thread, p: Place): (s: System)
      ensures forall x :: s.At(x) == if x == t then p else At(x)
      ensures s.owner == owner && s.count == count && s.depths == depths
    {
      this.(places := places[t := p])
    }

    function Deepen(t: Thread, change: int): (s: System)
      ensures forall x :: s.Depth(x) == if x == t then Depth(t) + change else Depth(x)
      ensures s.owner == owner && s.count == count && s.places == places
    {
      this.(depths := depths[t := Depth(t) + change])
    }

    predicate Owns(t: Thread) { owner == Some(t) }
  }

  datatype Step =
    | Lock(t: Thread)
    | Acquire(t: Thread)
    | StoreOne(t: Thread)
    | TryLock(t: Thread)
    | Unlock(t: Thread)
    | Release(t: Thread)
    | Wait(t: Thread, cond: Cond)
    | Sleep(t: Thread)
    | Signal(cond: Cond)
    | Wake(t: Thread)       // a wait that ends without a signal
    | Reacquire(t: Thread)
    | Restore(t: Thread)

  /** No thread nests 2^32 - 1 deep, and only the holder waits. */
  predicate Enabled(s: System, step: Step) {
    match step
    case Lock(t) => s.At(t).Outside? && s.Depth(t) < TWO_32 - 1
    case Acquire(t) => s.At(t).Contending? && s.owner.None?
    case StoreOne(t) => s.At(t).Acquired?
    case TryLock(t) => s.At(t).Outside? && s.Depth(t) < TWO_32 - 1
    case Unlock(t) => s.At(t).Outside?
    case Release(t) => s.At(t).Releasing?
    case Wait(t, _) => s.At(t).Outside? && s.Owns(t)
    case Sleep(t) => s.At(t).Parking?
    case Signal(_) => true
    case Wake(t) => s.At(t).Asleep?
    case Reacquire(t) => s.At(t).Woken? && s.owner.None?
    case Restore(t) => s.At(t).Restoring?
  }

  function WakeAll(s: System, cond: Cond): (r: System)
    ensures forall x :: r.At(x) == if s.At(x).Asleep? && s.At(x).cond == cond then Woken(s.At(x).saved) else s.At(x)
    ensures r.owner == s.owner && r.count == s.count && r.depths == s.depths
  {
    s.(places := map x | x in s.places ::
         if s.places[x].Asleep? && s.places[x].cond == cond then Woken(s.places[x].saved) else s.places[x])
  }

  function Reenter(s: System, t: Thread): System { s.(count := U32(s.count + 1)).Deepen(t, 1) }

  function Next(s: System, step: Step): System
    requires Enabled(s, step)
  {
    match step
    case Lock(t) =>
      if s.Owns(t) then Reenter(s, t) else s.Move(t, Contending)
    case Acquire(t) => s.(owner := Some(t)).Move(t, Acquired)
    case StoreOne(t) => s.(count := 1).Move(t, Outside).Deepen(t, 1)
    case TryLock(t) =>
      if s.Owns(t) then Reenter(s, t)
      else if s.owner.None? then s.(owner := Some(t)).Move(t, Acquired)
      else s
    case Unlock(t) =>
      if !s.Owns(t) then s
      else
        var left := U32(s.count - 1);
        var r := s.(count := left).Deepen(t, -1);
        if left == 0 then r.Move(t, Releasing) else r
    case Release(t) => s.(owner := None).Move(t, Outside)
    case Wait(t, c) => s.(count := 0).Move(t, Parking(c, s.count))
    case Sleep(t) => s.(owner := None).Move(t, Asleep(s.At(t).cond, s.At(t).saved))
    case Signal(c) => WakeAll(s, c)
    case Wake(t) => s.Move(t, Woken(s.At(t).saved))
    case Reacquire(t) => s.(owner := Some(t)).Move(t, Restoring(s.At(t).saved))
    case Restore(t) => s.(count := s.At(t).saved).Move(t, Outside)
  }

  const CREATED := System(None, 0, map[], map[])

  predicate IsRun(ss: seq<System>, steps: seq<Step>) {
    && |ss| == |steps| + 1 && ss[0] == CREATED
    && forall k :: 0 <= k < |steps| ==> Enabled(ss[k], steps[k]) && ss[k + 1] == Next(ss[k], steps[k])
  }

  // ---- the invariant ----

  predicate ThreadOk(s: System, t: Thread) {
    match s.At(t)
    case Outside => if s.Owns(t) then 1 <= s.count == s.Depth(t) else s.Depth(t) == 0
    case Contending => !s.Owns(t) && s.Depth(t) == 0
    case Acquired => s.Owns(t) && s.count == 0 && s.Depth(t) == 0
    case Releasing => s.Owns(t) && s.count == 0 && s.Depth(t) == 0
    case Parking(_, saved) => s.Owns(t) && s.count == 0 && 1 <= saved == s.Depth(t)
    case Asleep(_, saved) => !s.Owns(t) && 1 <= saved == s.Depth(t)
    case Woken(saved) => !s.Owns(t) && 1 <= saved == s.Depth(t)
    case Restoring(saved) => s.Owns(t) && s.count == 0 && 1 <= saved == s.Depth(t)
  }

  ghost predicate Inv(s: System) {
    && (s.owner.None? ==> s.count == 0)
    && forall t: Thread :: ThreadOk(s, t) && 0 <= s.Depth(t) < TWO_32
  }

  /** `r` is `s` after a step in which only thread `t` moved, and the lock changed hands at most
      between `t` and nobody. */
  ghost predicate OnlyMoves(s: System, r: System, t: Thread) {
    && (forall x: Thread :: x != t ==> r.At(x) == s.At(x) && r.Depth(x) == s.Depth(x))
    && (r.owner == s.owner || (s.Owns(t) && r.owner.None?) || (s.owner.None? && r.Owns(t)))
    && (r.count == s.count || s.Owns(t))
  }

  lemma OwnStepKeepsInv(s: System, r: System, t: Thread)
    requires Inv(s) && OnlyMoves(s, r, t)
    requires r.owner.None? ==> r.count == 0
    requires ThreadOk(r, t) && 0 <= r.Depth(t) < TWO_32
    ensures Inv(r)
  {
    forall x: Thread ensures ThreadOk(r, x) && 0 <= r.Depth(x) < TWO_32 {
      assert ThreadOk(s, x) && ThreadOk(s, t);
    }
  }

  lemma ReenterKeepsInv(s: System, t: Thread)
    requires Inv(s) && s.At(t).Outside? && s.Owns(t) && s.Depth(t) < TWO_32 - 1
    ensures Inv(Reenter(s, t))
  {
    assert ThreadOk(s, t);
    OwnStepKeepsInv(s, Reenter(s, t), t);
  }

  lemma LockingKeepsInv(s: System, step: Step)
    requires Inv(s) && Enabled(s, step) && (step.Lock? || step.Acquire? || step.StoreOne? || step.TryLock?)
    ensures Inv(Next(s, step))
  {
    var t := step.t;
    assert ThreadOk(s, t);
    if (step.Lock? || step.TryLock?) && s.Owns(t) {
      ReenterKeepsInv(s, t);
    } else if Next(s, step) != s {
      OwnStepKeepsInv(s, Next(s, step), t);
    }
  }

  lemma UnlockKeepsInv(s: System, t: Thread)
    requires Inv(s) && s.At(t).Outside?
    ensures Inv(Next(s, Unlock(t)))
  {
    assert ThreadOk(s, t);
    if s.Owns(t) {
      assert U32(s.count - 1) == s.count - 1;
      OwnStepKeepsInv(s, Next(s, Unlock(t)), t);
    }
  }

  lemma WaitingKeepsInv(s: System, step: Step)
    requires Inv(s) && Enabled(s, step)
    requires step.Release? || step.Wait? || step.Sleep? || step.Wake? || step.Reacquire? || step.Restore?
    ensures Inv(Next(s, step))
  {
    assert ThreadOk(s, step.t);
    OwnStepKeepsInv(s, Next(s, step), step.t);
  }

  lemma SignalKeepsInv(s: System, cond: Cond)
    requires Inv(s)
    ensures Inv(WakeAll(s, cond))
  {
    var r := WakeAll(s, cond);
    forall x: Thread ensures ThreadOk(r, x) && 0 <= r.Depth(x) < TWO_32 {
      assert ThreadOk(s, x);
    }
  }

  lemma NextKeepsInv(s: System, step: Step)
    requires Inv(s) && Enabled(s, step)
    ensures Inv(Next(s, step))
  {
    match step
    case Unlock(t) => UnlockKeepsInv(s, t);
    case Signal(c) => SignalKeepsInv(s, c);
    case Lock(_) => LockingKeepsInv(s, step);
    case Acquire(_) => LockingKeepsInv(s, step);
    case StoreOne(_) => LockingKeepsInv(s, step);
    case TryLock(_) => LockingKeepsInv(s, step);
    case _ => WaitingKeepsInv(s, step);
  }

  lemma {:induction false} RunKeepsInv(ss: seq<System>, steps: seq<Step>, k: nat)
    requires IsRun(ss, steps) && k < |ss|
    ensures Inv(ss[k])
  {
    if k > 0 {
      RunKeepsInv(ss, steps, k - 1);
      NextKeepsInv(ss[k - 1], steps[k - 1]);
    }
  }

  // ---- what the threads can rely on ----

  /** A thread is in game code with the mutex held. */
  predicate Inside(s: System, t: Thread) { s.At(t).Outside? && s.Depth(t) > 0 }

  /** In every interleaving at most one thread is inside, it owns the lock, and the count is
      exactly its lock calls minus its unlock calls; the lock is free only with count 0. */
  lemma MutualExclusion(ss: seq<System>, steps: seq<Step>, k: nat, t: Thread, u: Thread)
    requires IsRun(ss, steps) && k < |ss|
    ensures Inside(ss[k], t) && Inside(ss[k], u) ==> t == u
    ensures Inside(ss[k], t) ==> ss[k].Owns(t) && ss[k].count == ss[k].Depth(t)
    ensures ss[k].At(t).Outside? && ss[k].Owns(t) ==> Inside(ss[k], t)
    ensures ss[k].owner.None? ==> ss[k].count == 0
  {
    RunKeepsInv(ss, steps, k);
    assert ThreadOk(ss[k], t) && ThreadOk(ss[k], u);
  }

  /** An unlock by a thread that does not hold the lock changes nothing. */
  lemma ForeignUnlockIsIgnored(ss: seq<System>, steps: seq<Step>, k: nat, t: Thread)
    requires IsRun(ss, steps) && k < |steps| && steps[k] == Unlock(t) && ss[k].Depth(t) == 0
    ensures ss[k + 1] == ss[k]
  {
    RunKeepsInv(ss, steps, k);
    assert ThreadOk(ss[k], t);
  }

  predicate InWait(p: Place, saved: nat) {
    (p.Parking? || p.Asleep? || p.Woken? || p.Restoring?) && p.saved == saved
  }

  lemma StepKeepsWaiting(s: System, step: Step, t: Thread, saved: nat)
    requires Enabled(s, step) && InWait(s.At(t), saved) && step != Restore(t)
    ensures InWait(Next(s, step).At(t), saved) && Next(s, step).Depth(t) == s.Depth(t)
  {
  }

  lemma {:induction false} WaitKeepsSavedDepth(ss: seq<System>, steps: seq<Step>, i: nat, j: nat, t: Thread)
    requires IsRun(ss, steps) && i < j <= |steps| && steps[i].Wait? && steps[i].t == t
    requires forall k :: i < k < j ==> steps[k] != Restore(t)
    ensures InWait(ss[j].At(t), ss[i].count) && ss[j].Depth(t) == ss[i].Depth(t)
  {
    if i + 1 < j {
      WaitKeepsSavedDepth(ss, steps, i, j - 1, t);
      StepKeepsWaiting(ss[j - 1], steps[j - 1], t, ss[i].count);
    }
  }

  /** OSWaitCond returns with the lock held again at exactly its entry depth, whatever other
      threads did in between. */
  lemma WaitReturnsAtEntryDepth(ss: seq<System>, steps: seq<Step>, i: nat, j: nat, t: Thread)
    requires IsRun(ss, steps) && i < j < |steps| && steps[i].Wait? && steps[i].t == t && steps[j] == Restore(t)
    requires forall k :: i < k < j ==> steps[k] != Restore(t)
    ensures Inside(ss[j + 1], t) && ss[j + 1].Owns(t)
    ensures ss[j + 1].count == ss[i].count && ss[j + 1].Depth(t) == ss[i].Depth(t)
  {
    WaitKeepsSavedDepth(ss, steps, i, j, t);
    RunKeepsInv(ss, steps, j);
    RunKeepsInv(ss, steps, j + 1);
    assert ThreadOk(ss[j], t) && ThreadOk(ss[j + 1], t);
  }

  /** While its thread sleeps the mutex is available: the lock is not held by any waiting thread. */
  lemma WaitersHoldNothing(ss: seq<System>, steps: seq<Step>, k: nat, t: Thread)
    requires IsRun(ss, steps) && k < |ss| && (ss[k].At(t).Asleep? || ss[k].At(t).Woken? || ss[k].At(t).Contending?)
    ensures !ss[k].Owns(t)
  {
    RunKeepsInv(ss, steps, k);
    assert ThreadOk(ss[k], t);
  }

  /** The nesting limit is exact: locking once more keeps the count right if and only if the
      32-bit count has not reached its maximum. */
  lemma NestingLimitIsExact(s: System, t: Thread)
    requires Inv(s) && s.At(t).Outside? && s.Owns(t)
    ensures Inv(Reenter(s, t)) <==> s.count < TWO_32 - 1
  {
    var r := Reenter(s, t);
    assert ThreadOk(s, t);
    if s.count < TWO_32 - 1 {
      ReenterKeepsInv(s, t);
    } else {
      assert !ThreadOk(r, t);
    }
  }
}
