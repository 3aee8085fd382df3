/** The host record of an OSMutex, changed in place.  A call is cut where another thread could come
    in between: each piece is a method that takes one step of the model. */
module RecursiveMutex {
  import opened Machine
  import opened Wrappers
  import opened CondVars
  import M = RecursiveMutexModel

  class HostMutex {
    var owner: Option<Thread>  // who holds the non-recursive lock
    var count: nat
    ghost var places: map<Thread, M.Place>
    ghost var depths: map<Thread, int>

    ghost function Model(): M.System
      reads this
    {
      M.System(owner, count, places, depths)
    }

    ghost predicate Valid()
      reads this
    {
      M.Inv(Model())
    }

    constructor ()
      ensures Valid() && Model() == M.CREATED
    {
      owner, count := None, 0;
      places, depths := map[], map[];
    }

    ghost method Advance(step: M.Step)
      requires Valid() && M.Enabled(Model(), step)
      modifies this`places, this`depths
      ensures M.Inv(M.Next(old(Model()), step))
      ensures places == M.Next(old(Model()), step).places && depths == M.Next(old(Model()), step).depths
    {
      M.NextKeepsInv(Model(), step);
      var next := M.Next(Model(), step);
      places, depths := next.places, next.depths;
    }

    // ---- the pieces of a lock call ----

    /** Done at once if this thread holds the lock; otherwise it goes on to wait for it. */
    method BeginLock(me: Thread) returns (done: bool)
      requires Valid() && M.Enabled(Model(), M.Lock(me))
      modifies this
      ensures Valid() && Model() == M.Next(old(Model()), M.Lock(me))
      ensures done <==> old(owner) == Some(me)
    {
      Advance(M.Lock(me));
      done := owner == Some(me);
      if done { count := U32(count + 1); }
    }

    /** mutexLock returns once the lock is free. */
    method Acquire(me: Thread)
      requires Valid() && M.Enabled(Model(), M.Acquire(me))
      modifies this
      ensures Valid() && Model() == M.Next(old(Model()), M.Acquire(me))
    {
      Advance(M.Acquire(me));
      owner := Some(me);
    }

    method StoreOne(me: Thread)
      requires Valid() && M.Enabled(Model(), M.StoreOne(me))
      modifies this
      ensures Valid() && Model() == M.Next(old(Model()), M.StoreOne(me))
    {
      Advance(M.StoreOne(me));
      count := 1;
    }

    /** `taken` tells that the lock was just taken and the count still has to be stored. */
    method BeginTryLock(me: Thread) returns (ok: bool, taken: bool)
      requires Valid() && M.Enabled(Model(), M.TryLock(me))
      modifies this
      ensures Valid() && Model() == M.Next(old(Model()), M.TryLock(me))
      ensures (ok <==> old(owner) == Some(me) || old(owner) == None) && (taken <==> old(owner) == None)
    {
      Advance(M.TryLock(me));
      ok, taken := false, false;
      if owner == Some(me) {
        count := U32(count + 1);
        ok := true;
      } else if owner == None {
        owner := Some(me);
        ok, taken := true, true;
      }
    }

    // ---- the pieces of an unlock call ----

    /** `last` tells that the lock has to be released. */
    method BeginUnlock(me: Thread) returns (last: bool)
      requires Valid() && M.Enabled(Model(), M.Unlock(me))
      modifies this
      ensures Valid() && Model() == M.Next(old(Model()), M.Unlock(me))
      ensures last <==> M.Next(old(Model()), M.Unlock(me)).At(me).Releasing?
    {
      Advance(M.Unlock(me));
      if owner != Some(me) { return false; }
      count := U32(count - 1);
      last := count == 0;
    }

    method Release(me: Thread)
      requires Valid() && M.Enabled(Model(), M.Release(me))
      modifies this
      ensures Valid() && Model() == M.Next(old(Model()), M.Release(me))
    {
      Advance(M.Release(me));
      owner := None;
    }

    // ---- the pieces of a wait ----

    method Park(me: Thread, cond: M.Cond) returns (saved: nat)
      requires Valid() && M.Enabled(Model(), M.Wait(me, cond))
      modifies this
      ensures Valid() && Model() == M.Next(old(Model()), M.Wait(me, cond))
      ensures places[me] == M.Parking(cond, saved) && saved == old(Model().Depth(me))
    {
      assert M.ThreadOk(Model(), me);
      Advance(M.Wait(me, cond));
      saved := count;
      count := 0;
    }

    /** condvarWait lets go of the lock. */
    method Sleep(me: Thread)
      requires Valid() && M.Enabled(Model(), M.Sleep(me))
      modifies this
      ensures Valid() && Model() == M.Next(old(Model()), M.Sleep(me))
    {
      Advance(M.Sleep(me));
      owner := None;
    }

    /** condvarWait has the lock again. */
    method Reacquire(me: Thread)
      requires Valid() && M.Enabled(Model(), M.Reacquire(me))
      modifies this
      ensures Valid() && Model() == M.Next(old(Model()), M.Reacquire(me))
    {
      Advance(M.Reacquire(me));
      owner := Some(me);
    }

    /** The thread puts back the count it saved when it parked. */
    method Restore(me: Thread, saved: nat)
      requires Valid() && M.Enabled(Model(), M.Restore(me)) && places[me] == M.Restoring(saved)
      modifies this
      ensures Valid() && Model() == M.Next(old(Model()), M.Restore(me))
      ensures owner == Some(me) && count == saved == Model().Depth(me)
    {
      Advance(M.Restore(me));
      count := saved;
      assert M.ThreadOk(Model(), me);
    }

    /** OSSignalCond wakes all threads waiting on `cond`; the mutex is not touched. */
    method Signal(cond: M.Cond)
      requires Valid()
      modifies this
      ensures Valid() && Model() == M.Next(old(Model()), M.Signal(cond))
    {
      Advance(M.Signal(cond));
    }

    // ---- whole calls ----

    /** A lock call that no other thread delays. */
    method Lock(me: Thread)
      requires Valid() && M.Enabled(Model(), M.Lock(me)) && (owner == None || owner == Some(me))
      modifies this
      ensures Valid() && M.Inside(Model(), me) && owner == Some(me)
      ensures count == Model().Depth(me) == old(Model().Depth(me)) + 1
    {
      var done := BeginLock(me);
      if !done {
        Acquire(me);
        StoreOne(me);
      }
      assert M.ThreadOk(Model(), me);
    }

    method TryLock(me: Thread) returns (ok: bool)
      requires Valid() && M.Enabled(Model(), M.TryLock(me))
      modifies this
      ensures Valid() && (ok <==> old(owner) == None || old(owner) == Some(me))
      ensures ok ==> M.Inside(Model(), me) && count == Model().Depth(me) == old(Model().Depth(me)) + 1
      ensures !ok ==> Model() == old(Model())
    {
      var taken;
      ok, taken := BeginTryLock(me);
      if taken { StoreOne(me); }
      assert M.ThreadOk(Model(), me);
    }

    /** Gives back one level; the last one frees the lock, and a thread that does not hold it
        changes nothing. */
    method Unlock(me: Thread)
      requires Valid() && M.Enabled(Model(), M.Unlock(me))
      modifies this
      ensures Valid()
      ensures old(owner) != Some(me) ==> Model() == old(Model())
      ensures old(owner) == Some(me) ==>
                && Model().Depth(me) == old(Model().Depth(me)) - 1
                && (owner == None <==> Model().Depth(me) == 0) && (owner == None || owner == Some(me))
    {
      assert M.ThreadOk(Model(), me);
      var last := BeginUnlock(me);
      if last { Release(me); }
      assert M.ThreadOk(Model(), me);
    }
  }
}
