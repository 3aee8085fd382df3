/** A message queue shared by any number of threads.  One step is what a thread does between
    taking the queue's lock and releasing it or falling asleep. */
module MessageQueueModel {
  import opened CondVars
  import opened MessageRing

  datatype Pending = Pending(message: Message, high: bool)

  datatype Event = Pushed(message: Message, high: bool) | Popped(message: Message)

  /** `pending` is what each sender last had to wait to send, and `log` the transfers since the
      queue was last initialised. */
  datatype System = System(ring: Ring, notEmpty: CondVar, notFull: CondVar,
                           pending: map<Thread, Pending>, log: seq<Event>)

  datatype Step =
    | Init(size: int)
    | Send(t: Thread, p: Pending, blocking: bool, pick: Thread)
    | Receive(t: Thread, blocking: bool, pick: Thread)
    | ResumeSend(t: Thread, pick: Thread)
    | ResumeReceive(t: Thread, pick: Thread)
    | WakeSender(t: Thread)    // a wait that ends without a signal
    | WakeReceiver(t: Thread)

  predicate Idle(s: System, t: Thread) { t !in s.notEmpty.Waiting() && t !in s.notFull.Waiting() }

  /** The waiting threads are well separated and senders know what they send. */
  predicate Ok(s: System) {
    && s.ring.Ok() && s.notEmpty.Ok() && s.notFull.Ok()
    && s.notEmpty.Waiting() !! s.notFull.Waiting()
    && forall t :: t in s.notFull.Waiting() ==> t in s.pending
  }

  /** Initialising again a queue on which senders sleep leaves room that nobody was woken for,
      unless enough senders are already woken. */
  predicate InitIsSafe(s: System, size: int) {
    size > 0 && s.notFull.asleep != {} ==> size <= |s.notFull.woken|
  }

  predicate Enabled(s: System, step: Step) {
    match step
    case Init(size) => size < 0x8000_0000 && InitIsSafe(s, size)
    case Send(t, _, _, pick) => Idle(s, t) && s.notEmpty.CanPick(pick)
    case Receive(t, _, pick) => Idle(s, t) && s.notFull.CanPick(pick)
    case ResumeSend(t, pick) => t in s.notFull.woken && s.notEmpty.CanPick(pick)
    case ResumeReceive(t, pick) => t in s.notEmpty.woken && s.notFull.CanPick(pick)
    case WakeSender(t) => t in s.notFull.asleep
    case WakeReceiver(t) => t in s.notEmpty.asleep
  }

  function TrySend(s: System, t: Thread, p: Pending, blocking: bool, pick: Thread): System
    requires Ok(s) && Idle(s, t) && s.notEmpty.CanPick(pick)
  {
    if !s.ring.Full() then
      s.(ring := s.ring.Put(p.message, p.high), notEmpty := s.notEmpty.WakeOne(pick),
         log := s.log + [Pushed(p.message, p.high)])
    else if blocking then s.(notFull := s.notFull.Sleep(t), pending := s.pending[t := p])
    else s
  }

  function TryReceive(s: System, t: Thread, blocking: bool, pick: Thread): System
    requires Ok(s) && Idle(s, t) && s.notFull.CanPick(pick)
  {
    if !s.ring.Empty() then
      s.(ring := s.ring.Take(), notFull := s.notFull.WakeOne(pick), log := s.log + [Popped(s.ring.Front())])
    else if blocking then s.(notEmpty := s.notEmpty.Sleep(t))
    else s
  }

  function Initialised(s: System, size: int): System { if size <= 0 then s else s.(ring := FreshRing(size), log := []) }

  function SenderBack(s: System, t: Thread): (r: System)
    requires Ok(s) && t in s.notFull.woken
    ensures Ok(r) && Idle(r, t)
  {
    s.(notFull := s.notFull.Leave(t))
  }

  function ReceiverBack(s: System, t: Thread): (r: System)
    requires Ok(s) && t in s.notEmpty.woken
    ensures Ok(r) && Idle(r, t)
  {
    s.(notEmpty := s.notEmpty.Leave(t))
  }

  function Next(s: System, step: Step): System
    requires Ok(s) && Enabled(s, step)
  {
    match step
    case Init(size) => Initialised(s, size)
    case Send(t, p, blocking, pick) => TrySend(s, t, p, blocking, pick)
    case Receive(t, blocking, pick) => TryReceive(s, t, blocking, pick)
    case ResumeSend(t, pick) =>
      TrySend(SenderBack(s, t), t, s.pending[t], true, pick)
    case ResumeReceive(t, pick) => TryReceive(ReceiverBack(s, t), t, true, pick)
    case WakeSender(t) => s.(notFull := s.notFull.WakeOne(t))
    case WakeReceiver(t) => s.(notEmpty := s.notEmpty.WakeOne(t))
  }

  /** A queue nobody initialised has capacity 0. */
  const CREATED := System(Ring([], 0, 0, 0), CondVar({}, {}), CondVar({}, {}), map[], [])

  predicate IsRun(ss: seq<System>, steps: seq<Step>) {
    && |ss| == |steps| + 1 && ss[0] == CREATED
    && forall k :: 0 <= k < |steps| ==> Ok(ss[k]) && Enabled(ss[k], steps[k]) && ss[k + 1] == Next(ss[k], steps[k])
  }

  // ---- the queue as its log tells it ----

  /** What a double-ended queue holds after the transfers of the log. */
  function Replay(log: seq<Event>): seq<Message> {
    if log == [] then []
    else
      var before := Replay(log[..|log| - 1]);
      match log[|log| - 1]
      case Pushed(m, high) => if high then [m] + before else before + [m]
      case Popped(_) => if before == [] then [] else before[1..]
  }

  /** Every push found room and every pop took the front. */
  predicate Legal(log: seq<Event>, capacity: nat) {
    log == [] ||
    var rest := log[..|log| - 1];
    var before := Replay(rest);
    && Legal(rest, capacity)
    && match log[|log| - 1]
       case Pushed(_, _) => |before| < capacity
       case Popped(m) => before != [] && m == before[0]
  }

  function Pushes(log: seq<Event>): seq<Message> {
    if log == [] then []
    else Pushes(log[..|log| - 1]) + if log[|log| - 1].Pushed? then [log[|log| - 1].message] else []
  }

  function Pops(log: seq<Event>): seq<Message> {
    if log == [] then []
    else Pops(log[..|log| - 1]) + if log[|log| - 1].Popped? then [log[|log| - 1].message] else []
  }

  // ---- the invariant ----

  /** No wakeup is lost: while a receiver sleeps there are at most as many messages as woken
      receivers on their way to take them, and likewise for senders and free slots. */
  predicate NoLostWakeup(s: System) {
    && (s.notEmpty.asleep != {} ==> s.ring.count <= |s.notEmpty.woken|)
    && (s.notFull.asleep != {} ==> s.ring.capacity - s.ring.count <= |s.notFull.woken|)
  }

  predicate Inv(s: System) {
    Ok(s) && NoLostWakeup(s) && s.ring.Contents() == Replay(s.log) && Legal(s.log, s.ring.capacity)
  }

  lemma TrySendKeepsInv(s: System, t: Thread, p: Pending, blocking: bool, pick: Thread)
    requires Ok(s) && s.ring.Contents() == Replay(s.log) && Legal(s.log, s.ring.capacity)
    requires Idle(s, t) && s.notEmpty.CanPick(pick)
    requires s.notEmpty.asleep != {} ==> s.ring.count <= |s.notEmpty.woken|
    requires s.notFull.asleep != {} ==> s.ring.capacity - s.ring.count <= |s.notFull.woken| + 1
    requires !blocking ==> NoLostWakeup(s)
    ensures Inv(TrySend(s, t, p, blocking, pick))
  {
    if !s.ring.Full() {
      PutRefinesDeque(s.ring, p.message, p.high);
      var e := Pushed(p.message, p.high);
      assert (s.log + [e])[..|s.log|] == s.log;
    }
  }

  lemma TryReceiveKeepsInv(s: System, t: Thread, blocking: bool, pick: Thread)
    requires Ok(s) && s.ring.Contents() == Replay(s.log) && Legal(s.log, s.ring.capacity)
    requires Idle(s, t) && s.notFull.CanPick(pick)
    requires s.notEmpty.asleep != {} ==> s.ring.count <= |s.notEmpty.woken| + 1
    requires s.notFull.asleep != {} ==> s.ring.capacity - s.ring.count <= |s.notFull.woken|
    requires !blocking ==> NoLostWakeup(s)
    ensures Inv(TryReceive(s, t, blocking, pick))
  {
    if !s.ring.Empty() {
      TakeRefinesDeque(s.ring);
      var e := Popped(s.ring.Front());
      assert (s.log + [e])[..|s.log|] == s.log;
    }
  }

  /** Initialising keeps the promises to the sleepers exactly when no room is left unannounced. */
  lemma InitKeepsInvExactly(s: System, size: int)
    requires Inv(s) && size < 0x8000_0000
    ensures Inv(Initialised(s, size)) <==> InitIsSafe(s, size)
  {
    if size > 0 { assert FreshRing(size).Contents() == []; }
  }

  lemma WakeSenderKeepsInv(s: System, t: Thread)
    requires Inv(s) && t in s.notFull.asleep
    ensures Inv(s.(notFull := s.notFull.WakeOne(t)))
  {
  }

  lemma WakeReceiverKeepsInv(s: System, t: Thread)
    requires Inv(s) && t in s.notEmpty.asleep
    ensures Inv(s.(notEmpty := s.notEmpty.WakeOne(t)))
  {
  }

  lemma NextKeepsInv(s: System, step: Step)
    requires Inv(s) && Enabled(s, step)
    ensures Inv(Next(s, step))
  {
    match step
    case Init(size) => InitKeepsInvExactly(s, size);
    case Send(t, p, blocking, pick) => TrySendKeepsInv(s, t, p, blocking, pick);
    case Receive(t, blocking, pick) => TryReceiveKeepsInv(s, t, blocking, pick);
    case ResumeSend(t, pick) =>
      TrySendKeepsInv(SenderBack(s, t), t, s.pending[t], true, pick);
    case ResumeReceive(t, pick) => TryReceiveKeepsInv(ReceiverBack(s, t), t, true, pick);
    case WakeSender(t) => WakeSenderKeepsInv(s, t);
    case WakeReceiver(t) => WakeReceiverKeepsInv(s, t);
  }

  lemma {:induction false} RunKeepsInv(ss: seq<System>, steps: seq<Step>, k: nat)
    requires IsRun(ss, steps) && k < |ss|
    ensures Inv(ss[k])
  {
    if k > 0 {
      RunKeepsInv(ss, steps, k - 1);
      NextKeepsInv(ss[k - 1], steps[k - 1]);
    }
  }

  // ---- what the threads can rely on ----

  /** In every interleaving no wakeup is lost.  So a thread sleeps while it could proceed only
      if a woken one is on its way to the same queue end, and once every woken thread has run,
      receivers sleep only on an empty queue and senders only on a full one. */
  lemma NobodySleepsForGood(ss: seq<System>, steps: seq<Step>, k: nat)
    requires IsRun(ss, steps) && k < |ss|
    ensures var s := ss[k];
            && NoLostWakeup(s)
            && (s.notEmpty.asleep != {} && !s.ring.Empty() ==> s.notEmpty.woken != {})
            && (s.notFull.asleep != {} && !s.ring.Full() ==> s.notFull.woken != {})
            && (s.notEmpty.woken == {} && s.notEmpty.asleep != {} ==> s.ring.count == 0)
            && (s.notFull.woken == {} && s.notFull.asleep != {} ==> s.ring.count == s.ring.capacity)
            && (s.notEmpty.asleep != {} && s.notFull.asleep != {} ==>
                  s.ring.capacity <= |s.notEmpty.woken| + |s.notFull.woken|)
  {
    RunKeepsInv(ss, steps, k);
  }

  /** How far a queue is from rest: a resumed thread either completes and wakes at most one other,
      or goes back to sleep. */
  function Load(s: System): nat {
    |s.notEmpty.asleep| + 2 * |s.notEmpty.woken| + |s.notFull.asleep| + 2 * |s.notFull.woken|
  }

  predicate IsResume(step: Step) { step.ResumeSend? || step.ResumeReceive? }

  lemma ResumeLowersLoad(s: System, step: Step)
    requires Inv(s) && Enabled(s, step) && IsResume(step)
    ensures Load(Next(s, step)) < Load(s)
  {
  }

  predicate ResumesTo(s: System, step: Step, r: System) { IsResume(step) && Ok(s) && Enabled(s, step) && r == Next(s, step) }

  /** Woken threads run, in any order and with any choice of whom they wake, and nobody else does. */
  predicate Resumes(ss: seq<System>, steps: seq<Step>) {
    |ss| == |steps| + 1 && forall k :: 0 <= k < |steps| ==> ResumesTo(ss[k], steps[k], ss[k + 1])
  }

  /** Nobody is woken, receivers sleep only on an empty queue and senders only on a full one. */
  predicate AtRest(s: System) {
    && s.notEmpty.woken == {} && s.notFull.woken == {}
    && (s.notEmpty.asleep != {} ==> s.ring.count == 0)
    && (s.notFull.asleep != {} ==> s.ring.count == s.ring.capacity)
  }

  lemma ResumeIsProgress(s: System, step: Step, r: System)
    requires Inv(s) && ResumesTo(s, step, r)
    ensures Inv(r) && Load(r) < Load(s)
  {
    NextKeepsInv(s, step);
    ResumeLowersLoad(s, step);
  }

  /** Letting the woken threads run ends after a bounded number of steps, however they are ordered. */
  lemma {:induction false} ResumingEnds(ss: seq<System>, steps: seq<Step>, k: nat)
    requires Resumes(ss, steps) && Inv(ss[0]) && k <= |steps|
    ensures Inv(ss[k]) && k + Load(ss[k]) <= Load(ss[0])
  {
    if k > 0 {
      ResumingEnds(ss, steps, k - 1);
      ResumeIsProgress(ss[k - 1], steps[k - 1], ss[k]);
    }
  }

  lemma SomebodyToWake(c: CondVar) returns (pick: Thread)
    ensures c.CanPick(pick)
  {
    if c.asleep != {} { pick :| pick in c.asleep; } else { pick := 0; }
  }

  /** As long as anybody is woken, a step is possible. */
  lemma SomebodyCanResume(s: System) returns (step: Step)
    requires s.notEmpty.woken != {} || s.notFull.woken != {}
    ensures IsResume(step) && Enabled(s, step)
  {
    if s.notFull.woken != {} {
      var pick := SomebodyToWake(s.notEmpty);
      var t :| t in s.notFull.woken;
      step := ResumeSend(t, pick);
    } else {
      var pick := SomebodyToWake(s.notFull);
      var t :| t in s.notEmpty.woken;
      step := ResumeReceive(t, pick);
    }
  }

  /** So it ends only at rest. */
  lemma StuckIsAtRest(s: System)
    requires Inv(s) && forall step :: IsResume(step) ==> !Enabled(s, step)
    ensures AtRest(s)
  {
    if s.notEmpty.woken != {} || s.notFull.woken != {} { var step := SomebodyCanResume(s); }
  }

  lemma ResumesPrepend(s: System, step: Step, ss: seq<System>, steps: seq<Step>)
    requires Resumes(ss, steps) && ResumesTo(s, step, ss[0])
    ensures Resumes([s] + ss, [step] + steps) && ([s] + ss)[|steps| + 1] == ss[|steps|]
  {
    var rs, ts := [s] + ss, [step] + steps;
    forall k | 0 <= k < |ts| ensures ResumesTo(rs[k], ts[k], rs[k + 1]) {
      if k > 0 {
        assert rs[k] == ss[k - 1] && ts[k] == steps[k - 1] && rs[k + 1] == ss[k];
        assert ResumesTo(ss[k - 1], steps[k - 1], ss[k - 1 + 1]);
      }
    }
  }

  /** And from every reachable state letting the woken threads run does lead to rest. */
  lemma {:induction false} RestIsReached(s: System) returns (ss: seq<System>, steps: seq<Step>)
    requires Inv(s)
    ensures Resumes(ss, steps) && ss[0] == s && AtRest(ss[|steps|])
    decreases Load(s)
  {
    if s.notEmpty.woken == {} && s.notFull.woken == {} {
      ss, steps := [s], [];
    } else {
      var step := SomebodyCanResume(s);
      NextKeepsInv(s, step);
      ResumeLowersLoad(s, step);
      var rs, ts := RestIsReached(Next(s, step));
      ResumesPrepend(s, step, rs, ts);
      ss, steps := [s] + rs, [step] + ts;
    }
  }

  // ---- initialising with threads asleep ----

  lemma FirstSendSleeps(p: Pending)
    ensures Enabled(CREATED, Send(0, p, true, 0))
    ensures Next(CREATED, Send(0, p, true, 0)) == CREATED.(notFull := CondVar({0}, {}), pending := map[0 := p])
  {
    assert {} + {0} == {0};
  }

  /** It does happen, even on the first initialisation: a sender that came before it sleeps on
      capacity 0 and is not woken by the room that appears. */
  lemma InitCanStrandSender(p: Pending) returns (ss: seq<System>, steps: seq<Step>)
    ensures IsRun(ss, steps) && steps == [Send(0, p, true, 0)] && Inv(ss[1])
    ensures var s := Initialised(ss[1], 1); !Inv(s) && s.notFull.asleep == {0} && s.notFull.woken == {} && !s.ring.Full()
  {
    FirstSendSleeps(p);
    steps := [Send(0, p, true, 0)];
    ss := [CREATED, Next(CREATED, steps[0])];
    RunKeepsInv(ss, steps, 1);
  }

  // ---- what the queue holds ----

  lemma TakenFromFront(before: seq<Message>, pushes: seq<Message>, pops: seq<Message>)
    requires before != [] && multiset(pushes) == multiset(pops) + multiset(before)
    ensures multiset(pushes) == multiset(pops + [before[0]]) + multiset(before[1..])
  {
    assert before == [before[0]] + before[1..];
  }

  lemma {:induction false} NothingLost(log: seq<Event>, capacity: nat)
    requires Legal(log, capacity)
    ensures multiset(Pushes(log)) == multiset(Pops(log)) + multiset(Replay(log))
  {
    if log != [] {
      var rest := log[..|log| - 1];
      NothingLost(rest, capacity);
      if log[|log| - 1].Popped? { TakenFromFront(Replay(rest), Pushes(rest), Pops(rest)); }
    }
  }

  lemma {:induction false} FirstInFirstOut(log: seq<Event>, capacity: nat)
    requires Legal(log, capacity) && forall i :: 0 <= i < |log| ==> !(log[i].Pushed? && log[i].high)
    ensures Pushes(log) == Pops(log) + Replay(log)
  {
    if log != [] {
      var rest := log[..|log| - 1];
      FirstInFirstOut(rest, capacity);
      var before, e := Replay(rest), log[|log| - 1];
      if e.Popped? {
        assert before == [e.message] + before[1..];
        assert Pops(rest) + before == Pops(rest) + [e.message] + before[1..];
      } else {
        assert Pops(rest) + before + [e.message] == Pops(rest) + (before + [e.message]);
      }
    }
  }

  /** Over all runs the queue is the bounded double-ended queue of its log. */
  lemma RunRefinesDeque(ss: seq<System>, steps: seq<Step>, k: nat)
    requires IsRun(ss, steps) && k < |ss|
    ensures var s := ss[k];
            && s.ring.Ok() && s.ring.Contents() == Replay(s.log) && Legal(s.log, s.ring.capacity)
            && |Replay(s.log)| <= s.ring.capacity
            && multiset(Pushes(s.log)) == multiset(Pops(s.log)) + multiset(Replay(s.log))
            && ((forall i :: 0 <= i < |s.log| ==> !(s.log[i].Pushed? && s.log[i].high)) ==>
                  Pushes(s.log) == Pops(s.log) + Replay(s.log))
  {
    RunKeepsInv(ss, steps, k);
    NothingLost(ss[k].log, ss[k].ring.capacity);
    if forall i :: 0 <= i < |ss[k].log| ==> !(ss[k].log[i].Pushed? && ss[k].log[i].high) {
      FirstInFirstOut(ss[k].log, ss[k].ring.capacity);
    }
  }
}
