/** The host record of a semaphore, updated in place under its lock. */
module Semaphore {
  import opened CondVars
  import M = SemaphoreModel

  class HostSemaphore {
    var count: int
    var cond: CondVar
    ghost var initial: int
    ghost var signals: nat
    ghost var taken: nat

    ghost function Model(): M.System
      reads this
    {
      M.System(count, cond, initial, signals, taken)
    }

    ghost predicate Valid()
      reads this
    {
      M.Inv(Model())
    }

    constructor ()
      ensures Valid() && Model() == M.CREATED
    {
      count, cond := 0, CondVar({}, {});
      initial, signals, taken := 0, 0, 0;
    }

    method Init(value: int)
      requires Valid() && -0x8000_0000 <= value < 0x8000_0000
      modifies this
      ensures Model() == M.Initialised(old(Model()), value)
      ensures Valid() <==> M.InitIsSafe(old(Model()), value)
    {
      M.InitKeepsInvExactly(Model(), value);
      count := value;
      initial, signals, taken := value, 0, 0;
    }

    /** Reads the count without changing it. */
    method GetCount() returns (c: int)
      requires Valid()
      ensures c == initial + signals - taken
    {
      c := count;
    }

    /** Like the waiting calls, returns the count before the operation. */
    method Signal() returns (previous: int)
      requires Valid() && M.Enabled(Model(), M.Signal)
      modifies this
      ensures Valid() && Model() == M.Next(old(Model()), M.Signal)
      ensures count == old(count) + 1
      ensures previous == old(count) == old(initial + signals - taken)
    {
      M.NextKeepsInv(Model(), M.Signal);
      previous := count;
      count := count + 1;
      signals := signals + 1;
      cond := cond.WakeAll();
    }

    /** One pass of the waiting loop, from a held lock to its release or to sleep. */
    method Pass(t: Thread) returns (done: bool, previous: int)
      requires cond.Ok() && t !in cond.Waiting()
      modifies this
      ensures Model() == M.Pass(old(Model()), t) && previous == old(count) && (done <==> previous > 0)
    {
      previous := count;
      if count <= 0 {
        cond := cond.Sleep(t);
        return false, previous;
      }
      count := count - 1;
      taken := taken + 1;
      return true, previous;
    }

    method Wait(t: Thread) returns (done: bool, previous: int)
      requires Valid() && t !in cond.Waiting()
      modifies this
      ensures Valid() && Model() == M.Next(old(Model()), M.Wait(t))
      ensures previous == old(count) == old(initial + signals - taken) && (done <==> previous > 0)
    {
      M.NextKeepsInv(Model(), M.Wait(t));
      done, previous := Pass(t);
    }

    method ResumeWait(t: Thread) returns (done: bool, previous: int)
      requires Valid() && t in cond.woken
      modifies this
      ensures Valid() && Model() == M.Next(old(Model()), M.Resume(t))
      ensures previous == old(count) == old(initial + signals - taken) && (done <==> previous > 0)
    {
      M.NextKeepsInv(Model(), M.Resume(t));
      cond := cond.Leave(t);
      done, previous := Pass(t);
    }

    /** Succeeds exactly when the count it returns is positive. */
    method TryWait(t: Thread) returns (previous: int)
      requires Valid() && t !in cond.Waiting()
      modifies this
      ensures Valid() && Model() == M.Next(old(Model()), M.TryWait(t))
      ensures previous == old(count) == old(initial + signals - taken) && taken == old(taken) + (if previous > 0 then 1 else 0)
    {
      M.NextKeepsInv(Model(), M.TryWait(t));
      previous := count;
      if count > 0 {
        count := count - 1;
        taken := taken + 1;
      }
    }
  }
}
