/** A condition variable as the blocking primitives use it.  Its caller holds the lock that goes
    with it, so every operation is one step.  A waiting thread is asleep until it is woken; it
    then contends for the lock and, once it has it, leaves the wait and tests again. */
module CondVars {
  type Thread = nat

  /** What a thread is to a condition variable: not waiting on it, asleep, or on its way out. */
  datatype Standing = Away | Sleeping | Roused

  datatype CondVar = CondVar(asleep: set<Thread>, woken: set<Thread>) {
    predicate Ok() { asleep !! woken }

    function Waiting(): set<Thread> { asleep + woken }

    function Of(t: Thread): Standing { if t in asleep then Sleeping else if t in woken then Roused else Away }

    /** Only thread `t` has another standing in `c`. */
    ghost predicate SameBut(c: CondVar, t: Thread) { forall x: Thread :: x != t ==> c.Of(x) == Of(x) }

    /** condvarWait: release the lock and sleep, atomically. */
    function Sleep(t: Thread): (c: CondVar)
      requires Ok() && t !in Waiting()
      ensures c.Ok() && |c.asleep| == |asleep| + 1 && |c.woken| == |woken|
    {
      this.(asleep := asleep + {t})
    }

    /** Which thread wake-one takes is up to the system; if any thread sleeps it takes one. */
    predicate CanPick(pick: Thread) { pick in asleep || asleep == {} }

    function WakeOne(pick: Thread): (c: CondVar)
      requires Ok() && CanPick(pick)
      ensures c.Ok() && c.Waiting() == Waiting()
      ensures asleep != {} ==> |c.woken| == |woken| + 1 && |c.asleep| == |asleep| - 1
      ensures asleep == {} ==> c == this
    {
      if pick in asleep then CondVar(asleep - {pick}, woken + {pick}) else this
    }

    function WakeAll(): (c: CondVar)
      requires Ok()
      ensures c.Ok() && c.Waiting() == Waiting() && |c.woken| == |woken| + |asleep|
    {
      CondVar({}, woken + asleep)
    }

    /** A woken thread has the lock again. */
    function Leave(t: Thread): (c: CondVar)
      requires Ok() && t in woken
      ensures c.Ok() && |c.woken| == |woken| - 1 && c.asleep == asleep && t !in c.Waiting()
    {
      this.(woken := woken - {t})
    }
  }

  lemma SleepMoves(c: CondVar, t: Thread, x: Thread)
    requires c.Ok() && t !in c.Waiting()
    ensures c.Sleep(t).Of(x) == if x == t then Sleeping else c.Of(x)
  {
  }

  lemma WakeOneMoves(c: CondVar, pick: Thread, x: Thread)
    requires c.Ok() && c.CanPick(pick)
    ensures c.WakeOne(pick).Of(x) == if x == pick && c.Of(x).Sleeping? then Roused else c.Of(x)
  {
  }

  lemma LeaveMoves(c: CondVar, t: Thread, x: Thread)
    requires c.Ok() && t in c.woken
    ensures c.Leave(t).Of(x) == if x == t then Away else c.Of(x)
  {
  }
}
