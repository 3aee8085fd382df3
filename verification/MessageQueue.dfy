/** The host record of a message queue, updated in place under its lock. */
module MessageQueue {
  import opened Machine
  import opened CondVars
  import opened MessageRing
  import M = MessageQueueModel

  /** A call returns, or its thread has gone to sleep and will test again once woken. */
  datatype Outcome = Returned(result: nat) | Asleep

  /** What a double-ended queue holds after one more send. */
  function Sent(queue: seq<Message>, p: M.Pending): seq<Message> {
    if p.high then [p.message] + queue else queue + [p.message]
  }

  lemma SamePending(pending: map<Thread, M.Pending>, t: Thread, p: M.Pending)
    requires t in pending && pending[t] == p
    ensures pending[t := p] == pending
  {
  }

  lemma FrontOfLog(s: M.System)
    requires M.Inv(s)
    ensures s.ring.Empty() <==> M.Replay(s.log) == []
    ensures !s.ring.Empty() ==> M.Replay(s.log) == [s.ring.Front()] + M.Replay(s.log + [M.Popped(s.ring.Front())])
  {
    if !s.ring.Empty() {
      TakeRefinesDeque(s.ring);
      assert (s.log + [M.Popped(s.ring.Front())])[..|s.log|] == s.log;
    }
  }

  class HostQueue {
    var ring: seq<Message>
    var head: nat
    var count: nat
    var capacity: nat
    var notEmpty: CondVar
    var notFull: CondVar
    ghost var pending: map<Thread, M.Pending>
    ghost var log: seq<M.Event>

    ghost function Model(): M.System
      reads this
    {
      M.System(Ring(ring, head, count, capacity), notEmpty, notFull, pending, log)
    }

    ghost predicate Valid()
      reads this
    {
      M.Inv(Model())
    }

    constructor ()
      ensures Valid() && Model() == M.CREATED
    {
      ring, head, count, capacity := [], 0, 0, 0;
      notEmpty, notFull := CondVar({}, {}), CondVar({}, {});
      pending, log := map[], [];
    }

    method Init(size: int)
      requires Valid() && size < 0x8000_0000
      modifies this
      ensures Model() == M.Initialised(old(Model()), size)
      ensures if size <= 0 then Model() == old(Model()) else capacity == size && count == 0 && M.Replay(log) == []
      ensures Valid() <==> M.InitIsSafe(old(Model()), size)
    {
      M.InitKeepsInvExactly(Model(), size);
      if size <= 0 { return; }
      capacity := size;
      ring := seq(size, _ => Message(0, 0, 0, 0));
      head, count := 0, 0;
      log := [];
    }

    /** Stores a message at either end. */
    method Put(m: Message, high: bool)
      requires Ring(ring, head, count, capacity).Ok() && count < capacity
      modifies this`ring, this`head, this`count
      ensures Ring(ring, head, count, capacity) == old(Ring(ring, head, count, capacity)).Put(m, high)
    {
      if high {
        head := Wrap(U32(U32(head + capacity) - 1), capacity);
        ring := ring[head := m];
      } else {
        ring := ring[Wrap(U32(head + count), capacity) := m];
      }
      count := U32(count + 1);
    }

    /** Removes the message at the front. */
    method Take() returns (m: Message)
      requires Ring(ring, head, count, capacity).Ok() && count > 0
      modifies this`head, this`count
      ensures Ring(ring, head, count, capacity) == old(Ring(ring, head, count, capacity)).Take()
      ensures m == old(Ring(ring, head, count, capacity)).Front()
    {
      m := ring[head];
      head := Wrap(U32(head + 1), capacity);
      count := U32(count - 1);
    }

    /** One pass of the sending loop, from a held lock to its release. */
    method SendPass(t: Thread, p: M.Pending, blocking: bool, pick: Thread) returns (outcome: Outcome)
      requires M.Ok(Model()) && M.Idle(Model(), t) && notEmpty.CanPick(pick)
      modifies this
      ensures Model() == M.TrySend(old(Model()), t, p, blocking, pick)
      ensures outcome == if old(count < capacity) then Returned(1) else if blocking then Asleep else Returned(0)
      ensures pending == if outcome == Asleep then old(pending)[t := p] else old(pending)
    {
      if count >= capacity {
        if !blocking { return Returned(0); }
        notFull := notFull.Sleep(t);
        pending := pending[t := p];
        return Asleep;
      }
      Put(p.message, p.high);
      notEmpty := notEmpty.WakeOne(pick);
      log := log + [M.Pushed(p.message, p.high)];
      return Returned(1);
    }

    method Send(t: Thread, p: M.Pending, blocking: bool, pick: Thread) returns (outcome: Outcome)
      requires Valid() && M.Enabled(Model(), M.Send(t, p, blocking, pick))
      modifies this
      ensures Valid() && Model() == M.Next(old(Model()), M.Send(t, p, blocking, pick))
      ensures outcome == if old(count < capacity) then Returned(1) else if blocking then Asleep else Returned(0)
      ensures pending == if outcome == Asleep then old(pending)[t := p] else old(pending)
      ensures M.Replay(log) == if outcome == Returned(1) then Sent(old(M.Replay(log)), p) else old(M.Replay(log))
    {
      M.NextKeepsInv(Model(), M.Send(t, p, blocking, pick));
      assert (log + [M.Pushed(p.message, p.high)])[..|log|] == log;
      outcome := SendPass(t, p, blocking, pick);
    }

    /** The sender still has its message `p` in hand. */
    method ResumeSend(t: Thread, p: M.Pending, pick: Thread) returns (outcome: Outcome)
      requires Valid() && M.Enabled(Model(), M.ResumeSend(t, pick)) && p == pending[t]
      modifies this
      ensures Valid() && Model() == M.Next(old(Model()), M.ResumeSend(t, pick))
      ensures outcome == if old(count < capacity) then Returned(1) else Asleep
      ensures M.Replay(log) == if outcome == Returned(1) then Sent(old(M.Replay(log)), p) else old(M.Replay(log))
      ensures pending == old(pending)
    {
      M.NextKeepsInv(Model(), M.ResumeSend(t, pick));
      assert (log + [M.Pushed(p.message, p.high)])[..|log|] == log;
      notFull := notFull.Leave(t);
      SamePending(pending, t, p);
      outcome := SendPass(t, p, true, pick);
    }

    /** One pass of the receiving loop. */
    method ReceivePass(t: Thread, blocking: bool, pick: Thread) returns (outcome: Outcome, message: Message)
      requires M.Ok(Model()) && M.Idle(Model(), t) && notFull.CanPick(pick)
      modifies this
      ensures Model() == M.TryReceive(old(Model()), t, blocking, pick)
      ensures outcome == if old(count > 0) then Returned(1) else if blocking then Asleep else Returned(0)
      ensures old(count > 0) ==> message == old(Ring(ring, head, count, capacity).Front())
    {
      message := Message(0, 0, 0, 0);
      if count == 0 {
        if !blocking { return Returned(0), message; }
        notEmpty := notEmpty.Sleep(t);
        return Asleep, message;
      }
      message := Take();
      log := log + [M.Popped(message)];
      notFull := notFull.WakeOne(pick);
      return Returned(1), message;
    }

    method Receive(t: Thread, blocking: bool, pick: Thread) returns (outcome: Outcome, message: Message)
      requires Valid() && M.Enabled(Model(), M.Receive(t, blocking, pick))
      modifies this
      ensures Valid() && Model() == M.Next(old(Model()), M.Receive(t, blocking, pick))
      ensures outcome == if old(count > 0) then Returned(1) else if blocking then Asleep else Returned(0)
      ensures old(M.Replay(log)) == if outcome == Returned(1) then [message] + M.Replay(log) else []
      ensures outcome != Returned(1) ==> log == old(log)
    {
      M.NextKeepsInv(Model(), M.Receive(t, blocking, pick));
      FrontOfLog(Model());
      outcome, message := ReceivePass(t, blocking, pick);
    }

    method ResumeReceive(t: Thread, pick: Thread) returns (outcome: Outcome, message: Message)
      requires Valid() && M.Enabled(Model(), M.ResumeReceive(t, pick))
      modifies this
      ensures Valid() && Model() == M.Next(old(Model()), M.ResumeReceive(t, pick))
      ensures outcome == if old(count > 0) then Returned(1) else Asleep
      ensures old(M.Replay(log)) == if outcome == Returned(1) then [message] + M.Replay(log) else []
      ensures outcome != Returned(1) ==> log == old(log)
    {
      M.NextKeepsInv(Model(), M.ResumeReceive(t, pick));
      FrontOfLog(Model());
      notEmpty := notEmpty.Leave(t);
      outcome, message := ReceivePass(t, true, pick);
    }

    /** Looks at the front without taking it. */
    method Peek() returns (has: bool, message: Message)
      requires Valid()
      ensures has <==> M.Replay(log) != []
      ensures has ==> message == M.Replay(log)[0]
    {
      has, message := count > 0, Message(0, 0, 0, 0);
      if has { message := ring[head]; }
    }
  }
}
