/** The alarm scheduler and its clients.  The scheduler collects due alarms under the lock, runs
    their callbacks without it, and otherwise sleeps; clients set and cancel alarms in between,
    from other threads or from the callbacks themselves.  One step is what a thread does while
    it holds the lock, or one callback. */
module AlarmModel {
  import opened Machine
  import opened Ticks

  type AlarmId = nat

  /** A due time, a repeat interval (0 or less means once), the callback (0 is null) and the rest of the record. */
  datatype HostAlarm = HostAlarm(due: int, interval: int, callback: nat, userData: nat, group: nat, armed: bool)

  const BLANK := HostAlarm(0, 0, 0, 0, 0, false)

  /** One successful call of OSSetAlarm or OSSetPeriodicAlarm. */
  datatype Arming = Arming(alarm: AlarmId, setAt: int, delta: int, interval: int, callback: nat) {
    predicate OneShot() { interval <= 0 }
  }

  /** What became of an arming; a periodic one stays in force while it is collected. */
  datatype Fate = InForce | Collected | Cancelled | Replaced

  /** A due alarm with its callback, noted at time `at` for the arming it was then armed with. */
  datatype Collection = Collection(alarm: AlarmId, callback: nat, arming: nat, at: int)

  /** A timed sleep remembers the due time it aims at, when it began, and how many nanoseconds it asked for. */
  datatype Scheduler = Ready | Delivering | AsleepUntimed | AsleepUntil(nearest: int, since: int, nanos: nat)

  /** `current` names the latest arming of each alarm, `armings` and `fates` list all armings,
      `collected` all collections; the first `delivered` of them have had their callback. */
  datatype System = System(clock: int, alarms: map<AlarmId, HostAlarm>, sched: Scheduler,
                           current: map<AlarmId, nat>, armings: seq<Arming>, fates: seq<Fate>,
                           collected: seq<Collection>, delivered: nat) {
    function Get(a: AlarmId): HostAlarm { if a in alarms then alarms[a] else BLANK }

    /** Arming `k` is the one its alarm is armed with. */
    predicate Holds(k: nat)
      requires k < |armings|
    {
      var a := armings[k].alarm;
      Get(a).armed && a in current && current[a] == k
    }
  }

  datatype Step =
    | Tick(now: int)
    | Create(a: AlarmId)
    | Set(a: AlarmId, time: int, callback: nat)
    | SetPeriodic(a: AlarmId, start: int, interval: int, callback: nat)
    | Cancel(a: AlarmId)
    | CancelGroup(group: nat)
    | SetTag(a: AlarmId, group: nat)
    | SetUserData(a: AlarmId, data: nat)
    | Collect(order: seq<AlarmId>, later: int)
    | Deliver
    | Wake

  /** The order in which the scan visits the alarms: each one once. */
  predicate Enumerates(order: seq<AlarmId>, keys: set<AlarmId>) {
    && (forall i :: 0 <= i < |order| ==> order[i] in keys)
    && (forall a :: a in keys ==> a in order)
    && (forall i, j :: 0 <= i < j < |order| ==> order[i] != order[j])
  }

  predicate IsDue(h: HostAlarm, now: int) { h.armed && h.due <= now }

  /** The clock does not run backwards and due times fit in 64 bits. */
  predicate Enabled(s: System, step: Step) {
    match step
    case Tick(now) => now >= s.clock
    case Set(_, time, _) => FitsI64(s.clock + time)
    case SetPeriodic(_, start, _, _) => FitsI64(s.clock + start)
    case Collect(order, later) =>
      && s.sched.Ready? && Enumerates(order, s.alarms.Keys) && later >= s.clock
      && forall a :: a in s.alarms && IsDue(s.alarms[a], s.clock) && s.alarms[a].interval > 0 ==> FitsI64(s.clock + s.alarms[a].interval)
    case Deliver => s.sched.Delivering?
    case Wake => s.sched.AsleepUntimed? || s.sched.AsleepUntil?
    case _ => true
  }

  // ---- the clients ----

  /** condvarWakeAll on the scheduler's condition. */
  function Woken(sched: Scheduler): Scheduler {
    if sched.AsleepUntimed? || sched.AsleepUntil? then Ready else sched
  }

  /** The fates after a step gave the alarms new records: an arming that is no longer in force
      has found the given fate. */
  function Resolve(s: System, fate: Fate): (fates: seq<Fate>)
    requires |s.fates| == |s.armings|
    ensures |fates| == |s.fates|
    ensures forall k :: 0 <= k < |fates| ==> fates[k] == if s.fates[k].InForce? && !s.Holds(k) then fate else s.fates[k]
  {
    seq(|s.fates|, k requires 0 <= k < |s.fates| => if s.fates[k].InForce? && !s.Holds(k) then fate else s.fates[k])
  }

  function Settled(s: System, fate: Fate): System
    requires |s.fates| == |s.armings|
  {
    s.(fates := Resolve(s, fate))
  }

  function Arm(s: System, a: AlarmId, delta: int, interval: int, callback: nat): System
    requires |s.fates| == |s.armings|
  {
    var h := s.Get(a).(due := s.clock + delta, interval := interval, callback := callback, armed := true);
    Settled(s.(alarms := s.alarms[a := h], current := s.current[a := |s.armings|],
               armings := s.armings + [Arming(a, s.clock, delta, interval, callback)], fates := s.fates + [InForce],
               sched := Woken(s.sched)), Replaced)
  }

  function CancelOne(s: System, a: AlarmId): System
    requires |s.fates| == |s.armings|
  {
    Settled(s.(alarms := if a in s.alarms then s.alarms[a := s.alarms[a].(armed := false)] else s.alarms,
               sched := Woken(s.sched)), Cancelled)
  }

  function WithoutGroup(alarms: map<AlarmId, HostAlarm>, group: nat): map<AlarmId, HostAlarm> {
    map a | a in alarms :: if alarms[a].group == group then alarms[a].(armed := false) else alarms[a]
  }

  function CancelAll(s: System, group: nat): System
    requires |s.fates| == |s.armings|
  {
    Settled(s.(alarms := WithoutGroup(s.alarms, group), sched := Woken(s.sched)), Cancelled)
  }

  // ---- the scheduler ----

  /** What the scan makes of one alarm. */
  function Scanned(h: HostAlarm, now: int): HostAlarm {
    if !IsDue(h, now) then h
    else if h.interval > 0 then h.(due := now + h.interval)
    else h.(armed := false)
  }

  function ScanAll(alarms: map<AlarmId, HostAlarm>, now: int): map<AlarmId, HostAlarm> {
    map a | a in alarms :: Scanned(alarms[a], now)
  }

  /** The due alarms in the order of the scan. */
  function DueIn(alarms: map<AlarmId, HostAlarm>, order: seq<AlarmId>, now: int): (due: seq<AlarmId>)
    requires forall i :: 0 <= i < |order| ==> order[i] in alarms
    ensures forall i :: 0 <= i < |due| ==> due[i] in alarms
  {
    if order == [] then []
    else
      var last := |order| - 1;
      DueIn(alarms, order[..last], now) + if IsDue(alarms[order[last]], now) then [order[last]] else []
  }

  /** The nearest due time the scan finds, with 0 for none. */
  function Nearest(alarms: map<AlarmId, HostAlarm>, order: seq<AlarmId>): int
    requires forall i :: 0 <= i < |order| ==> order[i] in alarms
  {
    if order == [] then 0
    else
      var last := |order| - 1;
      var n := Nearest(alarms, order[..last]);
      var h := alarms[order[last]];
      if h.armed && (n == 0 || h.due < n) then h.due else n
  }

  function CollectionOf(s: System, a: AlarmId): Collection {
    Collection(a, s.Get(a).callback, if a in s.current then s.current[a] else 0, s.clock)
  }

  function Collections(s: System, due: seq<AlarmId>): (cs: seq<Collection>)
    ensures |cs| == |due|
    ensures forall i :: 0 <= i < |due| ==> cs[i] == CollectionOf(s, due[i])
  {
    seq(|due|, i requires 0 <= i < |due| => CollectionOf(s, due[i]))
  }

  /** How long to sleep: until `nearest`, as nanoseconds whose product may wrap. */
  function SleepNanos(nearest: int, now: int): nat {
    if nearest > now then NanosOfTicks(nearest - now) else 0
  }

  /** One turn of the loop from the first reading of the clock: either some alarms are collected
      for delivery, or the scheduler sleeps, having read the clock once more. */
  function Turn(s: System, order: seq<AlarmId>, later: int): System
    requires |s.fates| == |s.armings| && Enumerates(order, s.alarms.Keys)
  {
    var scanned := ScanAll(s.alarms, s.clock);
    var due := DueIn(s.alarms, order, s.clock);
    if due != [] then
      Settled(s.(alarms := scanned, sched := Delivering, collected := s.collected + Collections(s, due)), Collected)
    else
      var nearest := Nearest(scanned, order);
      s.(alarms := scanned, clock := later,
         sched := if nearest == 0 then AsleepUntimed else AsleepUntil(nearest, later, SleepNanos(nearest, later)))
  }

  function Next(s: System, step: Step): System
    requires |s.fates| == |s.armings| && Enabled(s, step)
  {
    match step
    case Tick(now) => s.(clock := now)
    case Create(a) => Settled(s.(alarms := s.alarms[a := BLANK]), Replaced)
    case Set(a, time, callback) => Arm(s, a, time, 0, callback)
    case SetPeriodic(a, start, interval, callback) => Arm(s, a, start, interval, callback)
    case Cancel(a) => CancelOne(s, a)
    case CancelGroup(group) => CancelAll(s, group)
    case SetTag(a, group) => s.(alarms := s.alarms[a := s.Get(a).(group := group)])
    case SetUserData(a, data) => s.(alarms := s.alarms[a := s.Get(a).(userData := data)])
    case Collect(order, later) => Turn(s, order, later)
    case Deliver => if s.delivered < |s.collected| then s.(delivered := s.delivered + 1) else s.(sched := Ready)
    case Wake => s.(sched := Ready)
  }

  /** What OSCancelAlarm returns. */
  function CancelResult(s: System, a: AlarmId): nat { if s.Get(a).armed then 1 else 0 }

  const STARTED := System(0, map[], Ready, map[], [], [], [], 0)

  /** A run from a scheduler with no alarms, at any time, before or after the epoch. */
  predicate IsRun(ss: seq<System>, steps: seq<Step>) {
    && |ss| == |steps| + 1 && ss[0] == STARTED.(clock := ss[0].clock)
    && forall k :: 0 <= k < |steps| ==>
         |ss[k].fates| == |ss[k].armings| && Enabled(ss[k], steps[k]) && ss[k + 1] == Next(ss[k], steps[k])
  }

  // ---- the invariant ----

  /** An armed alarm carries the terms of its latest arming. */
  predicate AlarmOk(s: System, a: AlarmId)
    requires a in s.alarms
  {
    s.alarms[a].armed ==>
      && a in s.current && s.current[a] < |s.armings|
      && var r := s.armings[s.current[a]];
         r.alarm == a && r.interval == s.alarms[a].interval && r.callback == s.alarms[a].callback && r.setAt + r.delta <= s.alarms[a].due
  }

  predicate FateOk(s: System, k: nat)
    requires k < |s.armings| == |s.fates|
  {
    s.fates[k].InForce? <==> s.Holds(k)
  }

  /** A collection is for its arming's alarm and callback, is not early, resolves a one-shot arming, and keeps a periodic one waiting. */
  predicate CollectionOk(s: System, i: nat)
    requires i < |s.collected| && |s.armings| == |s.fates|
  {
    var k := s.collected[i].arming;
    && k < |s.armings|
    && s.collected[i].alarm == s.armings[k].alarm && s.collected[i].callback == s.armings[k].callback
    && s.collected[i].at <= s.clock
    && s.armings[k].setAt + s.armings[k].delta <= s.collected[i].at
    && (s.armings[k].OneShot() ==> s.fates[k].Collected?)
    && (!s.armings[k].OneShot() && s.Holds(k) ==>
          s.collected[i].at + s.armings[k].interval <= s.alarms[s.armings[k].alarm].due)
  }

  predicate Spaced(s: System, i: nat, j: nat)
    requires i < j < |s.collected|
  {
    s.collected[i].arming == s.collected[j].arming && s.collected[i].arming < |s.armings| ==>
      var r := s.armings[s.collected[i].arming];
      !r.OneShot() && s.collected[i].at + r.interval <= s.collected[j].at
  }

  ghost predicate Records(s: System) {
    && |s.fates| == |s.armings|
    && (forall a :: a in s.alarms ==> AlarmOk(s, a))
    && (forall k :: 0 <= k < |s.armings| ==> FateOk(s, k))
    && (forall i :: 0 <= i < |s.collected| ==> CollectionOk(s, i))
    && (forall i, j :: 0 <= i < j < |s.collected| ==> Spaced(s, i, j))
    && (forall k :: 0 <= k < |s.armings| && s.fates[k].Collected? ==> exists i :: 0 <= i < |s.collected| && s.collected[i].arming == k)
  }

  predicate DeliveryOk(s: System) {
    s.delivered <= |s.collected| && (!s.sched.Delivering? ==> s.delivered == |s.collected|)
  }

  ghost predicate Inv(s: System) { Records(s) && DeliveryOk(s) }

  // ---- the scan ----

  lemma {:induction false} DueInMeaning(alarms: map<AlarmId, HostAlarm>, order: seq<AlarmId>, now: int)
    requires forall i :: 0 <= i < |order| ==> order[i] in alarms
    requires forall i, j :: 0 <= i < j < |order| ==> order[i] != order[j]
    ensures var due := DueIn(alarms, order, now);
            && (forall i :: 0 <= i < |due| ==> due[i] in order && IsDue(alarms[due[i]], now))
            && (forall a :: a in order && IsDue(alarms[a], now) ==> a in due)
            && (forall i, j :: 0 <= i < j < |due| ==> due[i] != due[j])
  {
    if order != [] {
      var last := |order| - 1;
      DueInMeaning(alarms, order[..last], now);
    }
  }

  // ---- every step keeps the invariant ----

  /** What has to hold of new alarm records before the fates are brought up to date. */
  ghost predicate Unsettled(s: System) {
    && |s.fates| == |s.armings|
    && (forall a :: a in s.alarms ==> AlarmOk(s, a))
    && (forall k :: 0 <= k < |s.armings| && s.Holds(k) ==> s.fates[k].InForce?)
    && (forall i :: 0 <= i < |s.collected| ==> CollectionOk(s, i))
    && (forall i, j :: 0 <= i < j < |s.collected| ==> Spaced(s, i, j))
    && (forall k :: 0 <= k < |s.armings| && s.fates[k].Collected? ==> exists i :: 0 <= i < |s.collected| && s.collected[i].arming == k)
  }

  lemma SettlingKeepsRecords(s: System, fate: Fate)
    requires Unsettled(s) && (fate.Cancelled? || fate.Replaced?)
    ensures Records(Settled(s, fate))
  {
    var r := Settled(s, fate);
    forall a | a in r.alarms ensures AlarmOk(r, a) { assert AlarmOk(s, a); }
    forall i | 0 <= i < |r.collected| ensures CollectionOk(r, i) { assert CollectionOk(s, i); }
    forall i, j | 0 <= i < j < |r.collected| ensures Spaced(r, i, j) { assert Spaced(s, i, j); }
  }

  /** `r` has the armings and collections of `s` and no alarm newly armed or due at another time. */
  predicate OnlyDisarms(s: System, r: System) {
    && r.clock == s.clock && r.current == s.current && r.armings == s.armings && r.fates == s.fates && r.collected == s.collected
    && forall a :: a in r.alarms && r.alarms[a].armed ==>
         a in s.alarms && s.alarms[a].armed && r.alarms[a].due == s.alarms[a].due && r.alarms[a].interval == s.alarms[a].interval
         && r.alarms[a].callback == s.alarms[a].callback
  }

  lemma DisarmingIsUnsettled(s: System, r: System)
    requires Records(s) && OnlyDisarms(s, r)
    ensures Unsettled(r)
  {
    forall a | a in r.alarms ensures AlarmOk(r, a) {
      if r.alarms[a].armed { assert AlarmOk(s, a); }
    }
    forall k | 0 <= k < |r.armings| && r.Holds(k) ensures r.fates[k].InForce? { assert FateOk(s, k); }
    forall i | 0 <= i < |r.collected| ensures CollectionOk(r, i) { assert CollectionOk(s, i); }
    forall i, j | 0 <= i < j < |r.collected| ensures Spaced(r, i, j) { assert Spaced(s, i, j); }
  }

  /** The bookkeeping alone: a step that disarms nothing keeps the records as they are. */
  lemma SameArmedKeepsRecords(s: System, r: System)
    requires Records(s) && OnlyDisarms(s, r)
    requires forall a :: a in s.alarms && s.alarms[a].armed ==> a in r.alarms && r.alarms[a].armed
    ensures Records(r)
  {
    DisarmingIsUnsettled(s, r);
    forall k | 0 <= k < |r.armings| ensures FateOk(r, k) { assert FateOk(s, k); }
  }

  lemma ArmingIsUnsettled(s: System, a: AlarmId, delta: int, interval: int, callback: nat)
    requires Records(s)
    ensures var h := s.Get(a).(due := s.clock + delta, interval := interval, callback := callback, armed := true);
            Unsettled(s.(alarms := s.alarms[a := h], current := s.current[a := |s.armings|],
                         armings := s.armings + [Arming(a, s.clock, delta, interval, callback)], fates := s.fates + [InForce],
                         sched := Woken(s.sched)))
  {
    var h := s.Get(a).(due := s.clock + delta, interval := interval, callback := callback, armed := true);
    var r := s.(alarms := s.alarms[a := h], current := s.current[a := |s.armings|],
                armings := s.armings + [Arming(a, s.clock, delta, interval, callback)], fates := s.fates + [InForce],
                sched := Woken(s.sched));
    forall x | x in r.alarms ensures AlarmOk(r, x) {
      if x != a { assert AlarmOk(s, x); }
    }
    forall k | 0 <= k < |r.armings| && r.Holds(k) ensures r.fates[k].InForce? {
      if k < |s.armings| { assert FateOk(s, k); }
    }
    forall i | 0 <= i < |r.collected| ensures CollectionOk(r, i) { assert CollectionOk(s, i); }
    forall i, j | 0 <= i < j < |r.collected| ensures Spaced(r, i, j) { assert Spaced(s, i, j) && CollectionOk(s, i); }
    forall k | 0 <= k < |r.armings| && r.fates[k].Collected?
      ensures exists i :: 0 <= i < |r.collected| && r.collected[i].arming == k
    {
      assert s.fates[k].Collected?;
    }
  }

  lemma ArmKeepsRecords(s: System, a: AlarmId, delta: int, interval: int, callback: nat)
    requires Records(s)
    ensures Records(Arm(s, a, delta, interval, callback))
  {
    ArmingIsUnsettled(s, a, delta, interval, callback);
    var h := s.Get(a).(due := s.clock + delta, interval := interval, callback := callback, armed := true);
    SettlingKeepsRecords(s.(alarms := s.alarms[a := h], current := s.current[a := |s.armings|],
                            armings := s.armings + [Arming(a, s.clock, delta, interval, callback)], fates := s.fates + [InForce],
                            sched := Woken(s.sched)), Replaced);
  }

  // ---- the scheduler's turn ----

  /** `r` is `s` after collecting the alarms `due`. */
  ghost predicate Collects(s: System, r: System, due: seq<AlarmId>) {
    && Inv(s)
    && (forall i :: 0 <= i < |due| ==> due[i] in s.alarms && IsDue(s.alarms[due[i]], s.clock))
    && (forall a :: a in s.alarms && IsDue(s.alarms[a], s.clock) ==> a in due)
    && (forall i, j :: 0 <= i < j < |due| ==> due[i] != due[j])
    && r.clock == s.clock && r.alarms == ScanAll(s.alarms, s.clock) && r.current == s.current && r.armings == s.armings
    && r.collected == s.collected + Collections(s, due)
    && |r.fates| == |s.fates| == |s.armings|
    && forall k :: 0 <= k < |r.fates| ==> r.fates[k] == if s.fates[k].InForce? && !r.Holds(k) then Collected else s.fates[k]
  }

  lemma OldCollectionStaysOk(s: System, r: System, due: seq<AlarmId>, i: nat)
    requires Collects(s, r, due)
    requires i < |s.collected|
    ensures CollectionOk(r, i)
  {
    assert CollectionOk(s, i);
    var k := s.collected[i].arming;
    assert FateOk(s, k);
  }

  lemma NewCollectionIsOk(s: System, r: System, due: seq<AlarmId>, i: nat)
    requires Collects(s, r, due) && i < |due|
    ensures CollectionOk(r, |s.collected| + i)
  {
    assert AlarmOk(s, due[i]);
    var k := s.current[due[i]];
    assert r.collected[|s.collected| + i] == CollectionOf(s, due[i]);
    assert s.Holds(k) && FateOk(s, k);
  }

  lemma NewCollectionIsSpaced(s: System, r: System, due: seq<AlarmId>, i: nat, j: nat)
    requires Collects(s, r, due) && j < |due| && i < |s.collected| + j
    ensures Spaced(r, i, |s.collected| + j)
  {
    assert AlarmOk(s, due[j]);
    var k := s.current[due[j]];
    assert r.collected[|s.collected| + j] == CollectionOf(s, due[j]);
    assert s.Holds(k) && FateOk(s, k);
    if i < |s.collected| {
      assert CollectionOk(s, i);
    } else {
      var m := i - |s.collected|;
      assert AlarmOk(s, due[m]);
      assert r.collected[i] == CollectionOf(s, due[m]);
    }
  }

  lemma CollectedHasCollection(s: System, r: System, due: seq<AlarmId>, k: nat)
    requires Collects(s, r, due) && k < |r.armings| && r.fates[k].Collected?
    ensures exists i :: 0 <= i < |r.collected| && r.collected[i].arming == k
  {
    if s.fates[k].Collected? {
      var i :| 0 <= i < |s.collected| && s.collected[i].arming == k;
      assert r.collected[i].arming == k;
    } else {
      assert FateOk(s, k);
      var a := s.armings[k].alarm;
      assert IsDue(s.alarms[a], s.clock);
      var j :| 0 <= j < |due| && due[j] == a;
      assert r.collected[|s.collected| + j] == CollectionOf(s, a);
    }
  }

  lemma CollectsKeepsRecords(s: System, r: System, due: seq<AlarmId>)
    requires Collects(s, r, due)
    ensures Records(r)
  {
    forall a | a in r.alarms ensures AlarmOk(r, a) { assert AlarmOk(s, a); }
    forall k | 0 <= k < |r.armings| ensures FateOk(r, k) { assert FateOk(s, k); }
    forall i | 0 <= i < |r.collected| ensures CollectionOk(r, i) {
      if i < |s.collected| { OldCollectionStaysOk(s, r, due, i); } else { NewCollectionIsOk(s, r, due, i - |s.collected|); }
    }
    forall i, j | 0 <= i < j < |r.collected| ensures Spaced(r, i, j) {
      if j < |s.collected| {
        assert Spaced(s, i, j);
      } else {
        NewCollectionIsSpaced(s, r, due, i, j - |s.collected|);
      }
    }
    forall k | 0 <= k < |r.armings| && r.fates[k].Collected?
      ensures exists i :: 0 <= i < |r.collected| && r.collected[i].arming == k
    {
      CollectedHasCollection(s, r, due, k);
    }
  }

  lemma CollectingKeepsRecords(s: System, order: seq<AlarmId>)
    requires Inv(s) && Enumerates(order, s.alarms.Keys) && DueIn(s.alarms, order, s.clock) != []
    ensures var due := DueIn(s.alarms, order, s.clock);
            Records(Settled(s.(alarms := ScanAll(s.alarms, s.clock), sched := Delivering,
                               collected := s.collected + Collections(s, due)), Collected))
  {
    var due := DueIn(s.alarms, order, s.clock);
    DueInMeaning(s.alarms, order, s.clock);
    var u := s.(alarms := ScanAll(s.alarms, s.clock), sched := Delivering,
                collected := s.collected + Collections(s, due));
    CollectsKeepsRecords(s, Settled(u, Collected), due);
  }

  lemma NothingDue(s: System, order: seq<AlarmId>)
    requires Enumerates(order, s.alarms.Keys) && DueIn(s.alarms, order, s.clock) == []
    ensures ScanAll(s.alarms, s.clock) == s.alarms
    ensures forall a :: a in s.alarms && s.alarms[a].armed ==> s.clock < s.alarms[a].due
  {
    DueInMeaning(s.alarms, order, s.clock);
    assert forall a :: a in s.alarms ==> !IsDue(s.alarms[a], s.clock);
  }

  lemma LaterKeepsRecords(s: System, r: System)
    requires Records(s) && r.clock >= s.clock
    requires r == s.(clock := r.clock, sched := r.sched, delivered := r.delivered)
    ensures Records(r)
  {
    forall a | a in r.alarms ensures AlarmOk(r, a) { assert AlarmOk(s, a); }
    forall k | 0 <= k < |r.armings| ensures FateOk(r, k) { assert FateOk(s, k); }
    forall i | 0 <= i < |r.collected| ensures CollectionOk(r, i) { assert CollectionOk(s, i); }
    forall i, j | 0 <= i < j < |r.collected| ensures Spaced(r, i, j) { assert Spaced(s, i, j); }
  }

  lemma TurnKeepsInv(s: System, order: seq<AlarmId>, later: int)
    requires Inv(s) && Enabled(s, Collect(order, later))
    ensures Inv(Turn(s, order, later))
  {
    if DueIn(s.alarms, order, s.clock) != [] {
      CollectingKeepsRecords(s, order);
    } else {
      NothingDue(s, order);
      LaterKeepsRecords(s, Turn(s, order, later));
    }
  }

  lemma ClientKeepsRecords(s: System, step: Step)
    requires Inv(s) && Enabled(s, step)
    requires step.Create? || step.Cancel? || step.CancelGroup? || step.SetTag? || step.SetUserData?
    ensures Records(Next(s, step))
  {
    match step
    case Create(a) =>
      var r := s.(alarms := s.alarms[a := BLANK]);
      DisarmingIsUnsettled(s, r);
      SettlingKeepsRecords(r, Replaced);
    case Cancel(a) =>
      var r := s.(alarms := if a in s.alarms then s.alarms[a := s.alarms[a].(armed := false)] else s.alarms, sched := Woken(s.sched));
      DisarmingIsUnsettled(s, r);
      SettlingKeepsRecords(r, Cancelled);
    case CancelGroup(group) =>
      var r := s.(alarms := WithoutGroup(s.alarms, group), sched := Woken(s.sched));
      DisarmingIsUnsettled(s, r);
      SettlingKeepsRecords(r, Cancelled);
    case SetTag(a, group) => SameArmedKeepsRecords(s, Next(s, step));
    case SetUserData(a, data) => SameArmedKeepsRecords(s, Next(s, step));
  }

  lemma NextKeepsInv(s: System, step: Step)
    requires Inv(s) && Enabled(s, step)
    ensures Inv(Next(s, step))
  {
    match step
    case Set(a, time, callback) => ArmKeepsRecords(s, a, time, 0, callback);
    case SetPeriodic(a, start, interval, callback) => ArmKeepsRecords(s, a, start, interval, callback);
    case Collect(order, later) => TurnKeepsInv(s, order, later);
    case Tick(now) => LaterKeepsRecords(s, Next(s, step));
    case Deliver => LaterKeepsRecords(s, Next(s, step));
    case Wake => LaterKeepsRecords(s, Next(s, step));
    case _ => ClientKeepsRecords(s, step);
  }

  lemma {:induction false} RunKeepsInv(ss: seq<System>, steps: seq<Step>, k: nat)
    requires IsRun(ss, steps) && k < |ss|
    ensures Inv(ss[k])
  {
    if k > 0 {
      RunKeepsInv(ss, steps, k - 1);
      NextKeepsInv(ss[k - 1], steps[k - 1]);
    }
  }
}
