/** What a blocked call on a message queue comes to. */
module MessageQueueProperties {
  import opened CondVars
  import opened MessageRing
  import opened MessageQueueModel

  /** The step ends the wait of sender `t`: it is woken and finds room. */
  predicate Completes(s: System, step: Step, t: Thread) { step.ResumeSend? && step.t == t && !s.ring.Full() }

  /** Thread `t` waits to send `p`. */
  predicate WaitsToSend(s: System, t: Thread, p: Pending) {
    t in s.notFull.Waiting() && t in s.pending && s.pending[t] == p
  }

  lemma SendKeepsMessage(s: System, u: Thread, q: Pending, blocking: bool, pick: Thread, t: Thread, p: Pending)
    requires Ok(s) && Idle(s, u) && s.notEmpty.CanPick(pick)
    requires if t == u then p == q && blocking && s.ring.Full() else WaitsToSend(s, t, p)
    ensures WaitsToSend(TrySend(s, u, q, blocking, pick), t, p)
  {
  }

  lemma ReceiveKeepsMessage(s: System, u: Thread, blocking: bool, pick: Thread, t: Thread, p: Pending)
    requires Ok(s) && Idle(s, u) && s.notFull.CanPick(pick) && WaitsToSend(s, t, p)
    ensures WaitsToSend(TryReceive(s, u, blocking, pick), t, p)
  {
  }

  lemma StepKeepsMessage(s: System, step: Step, t: Thread, p: Pending)
    requires Ok(s) && Enabled(s, step) && WaitsToSend(s, t, p) && !Completes(s, step, t)
    ensures WaitsToSend(Next(s, step), t, p)
  {
    match step
    case Send(u, q, blocking, pick) => SendKeepsMessage(s, u, q, blocking, pick, t, p);
    case Receive(u, blocking, pick) => ReceiveKeepsMessage(s, u, blocking, pick, t, p);
    case ResumeSend(u, pick) => SendKeepsMessage(SenderBack(s, u), u, s.pending[u], true, pick, t, p);
    case ResumeReceive(u, pick) => ReceiveKeepsMessage(ReceiverBack(s, u), u, true, pick, t, p);
    case _ =>
  }

  lemma FullSendWaits(s: System, step: Step)
    requires Ok(s) && Enabled(s, step) && step.Send? && step.blocking && s.ring.Full()
    ensures WaitsToSend(Next(s, step), step.t, step.p)
  {
    SendKeepsMessage(s, step.t, step.p, step.blocking, step.pick, step.t, step.p);
  }

  lemma {:induction false} WaitKeepsMessage(ss: seq<System>, steps: seq<Step>, i: nat, k: nat, t: Thread, p: Pending)
    requires IsRun(ss, steps) && i < k <= |steps|
    requires steps[i].Send? && steps[i].t == t && steps[i].p == p && steps[i].blocking && ss[i].ring.Full()
    requires forall j :: i < j < k ==> !Completes(ss[j], steps[j], t)
    ensures WaitsToSend(ss[k], t, p)
  {
    if i + 1 < k {
      WaitKeepsMessage(ss, steps, i, k - 1, t, p);
      StepKeepsMessage(ss[k - 1], steps[k - 1], t, p);
    } else {
      FullSendWaits(ss[i], steps[i]);
    }
  }

  /** A send that blocks sends, once it completes, the message and the priority it was called
      with, however long it waited and whatever else was sent meanwhile; until then it waits. */
  lemma BlockedSendSendsItsMessage(ss: seq<System>, steps: seq<Step>, i: nat, k: nat, t: Thread, p: Pending)
    requires IsRun(ss, steps) && i < k < |steps|
    requires steps[i].Send? && steps[i].t == t && steps[i].p == p && steps[i].blocking && ss[i].ring.Full()
    requires (forall j :: i < j < k ==> !Completes(ss[j], steps[j], t)) && Completes(ss[k], steps[k], t)
    ensures t in ss[k].notFull.Waiting() && t !in ss[k + 1].notFull.Waiting()
    ensures ss[k + 1].log == ss[k].log + [Pushed(p.message, p.high)]
    ensures Replay(ss[k + 1].log) == if p.high then [p.message] + Replay(ss[k].log) else Replay(ss[k].log) + [p.message]
  {
    WaitKeepsMessage(ss, steps, i, k, t, p);
    assert (ss[k].log + [Pushed(p.message, p.high)])[..|ss[k].log|] == ss[k].log;
  }

  /** The step ends the wait of receiver `t`. */
  predicate Receives(s: System, step: Step, t: Thread) { step.ResumeReceive? && step.t == t && !s.ring.Empty() }

  lemma SendKeepsReceiver(s: System, u: Thread, q: Pending, blocking: bool, pick: Thread, t: Thread)
    requires Ok(s) && Idle(s, u) && s.notEmpty.CanPick(pick) && t in s.notEmpty.Waiting()
    ensures t in TrySend(s, u, q, blocking, pick).notEmpty.Waiting()
  {
  }

  lemma ReceiveKeepsReceiver(s: System, u: Thread, blocking: bool, pick: Thread, t: Thread)
    requires Ok(s) && Idle(s, u) && s.notFull.CanPick(pick)
    requires t in s.notEmpty.Waiting() || (t == u && blocking && s.ring.Empty())
    ensures t in TryReceive(s, u, blocking, pick).notEmpty.Waiting()
  {
  }

  lemma StepKeepsReceiver(s: System, step: Step, t: Thread)
    requires Ok(s) && Enabled(s, step) && t in s.notEmpty.Waiting() && !Receives(s, step, t)
    ensures t in Next(s, step).notEmpty.Waiting()
  {
    match step
    case Send(u, q, blocking, pick) => SendKeepsReceiver(s, u, q, blocking, pick, t);
    case Receive(u, blocking, pick) => ReceiveKeepsReceiver(s, u, blocking, pick, t);
    case ResumeSend(u, pick) => SendKeepsReceiver(SenderBack(s, u), u, s.pending[u], true, pick, t);
    case ResumeReceive(u, pick) => ReceiveKeepsReceiver(ReceiverBack(s, u), u, true, pick, t);
    case _ =>
  }

  lemma EmptyReceiveWaits(s: System, step: Step)
    requires Ok(s) && Enabled(s, step) && step.Receive? && step.blocking && s.ring.Empty()
    ensures step.t in Next(s, step).notEmpty.Waiting()
  {
    ReceiveKeepsReceiver(s, step.t, step.blocking, step.pick, step.t);
  }

  lemma {:induction false} ReceiverWaits(ss: seq<System>, steps: seq<Step>, i: nat, k: nat, t: Thread)
    requires IsRun(ss, steps) && i < k <= |steps|
    requires steps[i].Receive? && steps[i].t == t && steps[i].blocking && ss[i].ring.Empty()
    requires forall j :: i < j < k ==> !Receives(ss[j], steps[j], t)
    ensures t in ss[k].notEmpty.Waiting()
  {
    if i + 1 < k {
      ReceiverWaits(ss, steps, i, k - 1, t);
      StepKeepsReceiver(ss[k - 1], steps[k - 1], t);
    } else {
      EmptyReceiveWaits(ss[i], steps[i]);
    }
  }

  /** A receive that blocks takes, once it completes, the message then at the front, and stops waiting. */
  lemma BlockedReceiveTakesFront(ss: seq<System>, steps: seq<Step>, i: nat, k: nat, t: Thread)
    requires IsRun(ss, steps) && i < k < |steps|
    requires steps[i].Receive? && steps[i].t == t && steps[i].blocking && ss[i].ring.Empty()
    requires (forall j :: i < j < k ==> !Receives(ss[j], steps[j], t)) && Receives(ss[k], steps[k], t)
    ensures t in ss[k].notEmpty.Waiting() && t !in ss[k + 1].notEmpty.Waiting()
    ensures Replay(ss[k].log) != [] && ss[k + 1].log == ss[k].log + [Popped(Replay(ss[k].log)[0])]
  {
    ReceiverWaits(ss, steps, i, k, t);
    RunKeepsInv(ss, steps, k);
    TakeRefinesDeque(ss[k].ring);
  }

  // ---- who waits, and who is woken ----

  lemma TrySendMoves(s: System, t: Thread, p: Pending, blocking: bool, pick: Thread, x: Thread)
    requires Ok(s) && Idle(s, t) && s.notEmpty.CanPick(pick)
    ensures var r := TrySend(s, t, p, blocking, pick);
            && r.notEmpty.Of(x) == (if s.notEmpty.Of(x).Sleeping? && !s.ring.Full() && x == pick then Roused else s.notEmpty.Of(x))
            && r.notFull.Of(x) == (if s.ring.Full() && blocking && x == t then Sleeping else s.notFull.Of(x))
            && r.ring.capacity == s.ring.capacity && (s.ring.Full() ==> r.ring == s.ring && r.log == s.log)
  {
    if s.ring.Full() { SleepMoves(s.notFull, t, x); } else { WakeOneMoves(s.notEmpty, pick, x); }
  }

  lemma TryReceiveMoves(s: System, t: Thread, blocking: bool, pick: Thread, x: Thread)
    requires Ok(s) && Idle(s, t) && s.notFull.CanPick(pick)
    ensures var r := TryReceive(s, t, blocking, pick);
            && r.notFull.Of(x) == (if s.notFull.Of(x).Sleeping? && !s.ring.Empty() && x == pick then Roused else s.notFull.Of(x))
            && r.notEmpty.Of(x) == (if s.ring.Empty() && blocking && x == t then Sleeping else s.notEmpty.Of(x))
            && r.ring.capacity == s.ring.capacity && (s.ring.Empty() ==> r.ring == s.ring && r.log == s.log)
  {
    if s.ring.Empty() { SleepMoves(s.notEmpty, t, x); } else { WakeOneMoves(s.notFull, pick, x); }
  }

  /** A send that finds room rouses at most one thread, the one that the system picks among the
      sleeping receivers.  One that does not rouses nobody, and sleeps if it may. */
  lemma WhoASendMoves(s: System, t: Thread, p: Pending, blocking: bool, pick: Thread, x: Thread)
    requires Ok(s) && Enabled(s, Send(t, p, blocking, pick))
    ensures var r := Next(s, Send(t, p, blocking, pick));
            && r.notEmpty.Of(x) == (if s.notEmpty.Of(x).Sleeping? && !s.ring.Full() && x == pick then Roused else s.notEmpty.Of(x))
            && r.notFull.Of(x) == (if s.ring.Full() && blocking && x == t then Sleeping else s.notFull.Of(x))
            && r.ring.capacity == s.ring.capacity
            && (if s.ring.Full() then r.ring == s.ring && r.log == s.log else r.log == s.log + [Pushed(p.message, p.high)])
  {
    TrySendMoves(s, t, p, blocking, pick, x);
  }

  /** And likewise a receive that finds a message, or none. */
  lemma WhoAReceiveMoves(s: System, t: Thread, blocking: bool, pick: Thread, x: Thread)
    requires Ok(s) && Enabled(s, Receive(t, blocking, pick))
    ensures var r := Next(s, Receive(t, blocking, pick));
            && r.notFull.Of(x) == (if s.notFull.Of(x).Sleeping? && !s.ring.Empty() && x == pick then Roused else s.notFull.Of(x))
            && r.notEmpty.Of(x) == (if s.ring.Empty() && blocking && x == t then Sleeping else s.notEmpty.Of(x))
            && r.ring.capacity == s.ring.capacity
            && (if s.ring.Empty() then r.ring == s.ring && r.log == s.log else r.log == s.log + [Popped(s.ring.Contents()[0])])
  {
    TryReceiveMoves(s, t, blocking, pick, x);
  }

  /** A woken sender leaves if it finds room, rousing at most the receiver picked, and otherwise sleeps again. */
  lemma WhoAResumedSendMoves(s: System, t: Thread, pick: Thread, x: Thread)
    requires Ok(s) && Enabled(s, ResumeSend(t, pick))
    ensures var r := Next(s, ResumeSend(t, pick));
            && r.notEmpty.Of(x) == (if s.notEmpty.Of(x).Sleeping? && !s.ring.Full() && x == pick then Roused else s.notEmpty.Of(x))
            && r.notFull.Of(x) == (if x != t then s.notFull.Of(x) else if s.ring.Full() then Sleeping else Away)
            && r.ring.capacity == s.ring.capacity && (s.ring.Full() ==> r.ring == s.ring && r.log == s.log)
  {
    LeaveMoves(s.notFull, t, x);
    TrySendMoves(SenderBack(s, t), t, s.pending[t], true, pick, x);
  }

  /** And likewise a woken receiver. */
  lemma WhoAResumedReceiveMoves(s: System, t: Thread, pick: Thread, x: Thread)
    requires Ok(s) && Enabled(s, ResumeReceive(t, pick))
    ensures var r := Next(s, ResumeReceive(t, pick));
            && r.notFull.Of(x) == (if s.notFull.Of(x).Sleeping? && !s.ring.Empty() && x == pick then Roused else s.notFull.Of(x))
            && r.notEmpty.Of(x) == (if x != t then s.notEmpty.Of(x) else if s.ring.Empty() then Sleeping else Away)
            && r.ring.capacity == s.ring.capacity
            && (if s.ring.Empty() then r.ring == s.ring && r.log == s.log else r.log == s.log + [Popped(s.ring.Contents()[0])])
  {
    LeaveMoves(s.notEmpty, t, x);
    TryReceiveMoves(ReceiverBack(s, t), t, true, pick, x);
  }

  /** A wait that ends without a signal rouses only its own thread. */
  lemma WakeRousesItsThread(s: System, step: Step, x: Thread)
    requires Ok(s) && Enabled(s, step) && (step.WakeSender? || step.WakeReceiver?)
    ensures var r := Next(s, step);
            && r.notEmpty.Of(x) == (if step == WakeReceiver(x) then Roused else s.notEmpty.Of(x))
            && r.notFull.Of(x) == (if step == WakeSender(x) then Roused else s.notFull.Of(x))
            && r.ring == s.ring && r.log == s.log
  {
  }

  /** Initialising with a positive size gives an empty queue of that capacity and moves nobody;
      any other size changes nothing. */
  lemma InitEmpties(s: System, size: int)
    requires Ok(s) && size < 0x8000_0000
    ensures var r := Initialised(s, size);
            if size <= 0 then r == s
            else r.ring.capacity == size && r.ring.count == 0 && Replay(r.log) == []
                 && r.notEmpty == s.notEmpty && r.notFull == s.notFull && r.pending == s.pending
  {
  }
}
