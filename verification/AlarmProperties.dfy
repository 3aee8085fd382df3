/** What the clients of the alarm scheduler can rely on, over every run. */
module AlarmProperties {
  import opened Ticks
  import opened AlarmModel

  // ---- how a run grows ----

  /** The logs only grow, and a fate once found is final. */
  predicate Grows(s: System, r: System) {
    && |s.fates| == |s.armings| && |r.fates| == |r.armings|
    && s.armings <= r.armings && s.collected <= r.collected && s.delivered <= r.delivered && s.clock <= r.clock
    && (forall k :: 0 <= k < |s.fates| && !s.fates[k].InForce? ==> r.fates[k] == s.fates[k])
  }

  /** Collections in `r` beyond those of `s` belong to armings still in force in `s`, or newer. */
  predicate NewOnesWereInForce(s: System, r: System) {
    forall m :: |s.collected| <= m < |r.collected| && r.collected[m].arming < |s.fates| ==>
      s.fates[r.collected[m].arming].InForce?
  }

  lemma DueWasInForce(s: System, order: seq<AlarmId>, i: nat)
    requires Inv(s) && Enumerates(order, s.alarms.Keys) && i < |DueIn(s.alarms, order, s.clock)|
    ensures var k := CollectionOf(s, DueIn(s.alarms, order, s.clock)[i]).arming; k < |s.fates| && s.fates[k].InForce?
  {
    var a := DueIn(s.alarms, order, s.clock)[i];
    DueInMeaning(s.alarms, order, s.clock);
    assert a in order && IsDue(s.alarms[a], s.clock) && AlarmOk(s, a);
    assert FateOk(s, s.current[a]);
  }

  lemma StepGrows(s: System, step: Step)
    requires Inv(s) && Enabled(s, step)
    ensures Grows(s, Next(s, step)) && NewOnesWereInForce(s, Next(s, step))
  {
    if step.Collect? {
      var due := DueIn(s.alarms, step.order, s.clock);
      var r := Next(s, step);
      assert r.collected == s.collected + Collections(s, due);
      forall m | |s.collected| <= m < |r.collected| && r.collected[m].arming < |s.fates|
        ensures s.fates[r.collected[m].arming].InForce?
      {
        DueWasInForce(s, step.order, m - |s.collected|);
      }
    }
  }

  lemma GrowsOn(s: System, r: System, q: System)
    requires Grows(s, r) && Grows(r, q) && NewOnesWereInForce(s, r) && NewOnesWereInForce(r, q)
    ensures Grows(s, q) && NewOnesWereInForce(s, q)
  {
  }

  lemma {:induction false} RunGrows(ss: seq<System>, steps: seq<Step>, i: nat, j: nat)
    requires IsRun(ss, steps) && i <= j < |ss|
    ensures Grows(ss[i], ss[j]) && NewOnesWereInForce(ss[i], ss[j])
  {
    RunKeepsInv(ss, steps, i);
    if i < j {
      RunGrows(ss, steps, i, j - 1);
      RunKeepsInv(ss, steps, j - 1);
      StepGrows(ss[j - 1], steps[j - 1]);
      GrowsOn(ss[i], ss[j - 1], ss[j]);
    }
  }

  // ---- collections ----

  /** What is collected is the alarm and the callback that were armed.  A one-shot arming is
      collected at most once, never before its set time plus its delta, and
      only if it was neither cancelled nor replaced; collections of a periodic arming are at
      least one interval apart. */
  lemma CollectionsAreSound(ss: seq<System>, steps: seq<Step>, n: nat, i: nat, j: nat)
    requires IsRun(ss, steps) && n < |ss| && i < |ss[n].collected| && j < |ss[n].collected|
    ensures var s := ss[n];
            var k := s.collected[i].arming;
            && k < |s.armings| == |s.fates|
            && s.collected[i].alarm == s.armings[k].alarm && s.collected[i].callback == s.armings[k].callback
            && s.armings[k].setAt + s.armings[k].delta <= s.collected[i].at <= s.clock
            && (s.armings[k].OneShot() ==> s.fates[k].Collected?)
            && (i < j && s.collected[j].arming == k ==>
                  !s.armings[k].OneShot() && s.collected[i].at + s.armings[k].interval <= s.collected[j].at)
  {
    RunKeepsInv(ss, steps, n);
    assert CollectionOk(ss[n], i);
    if i < j { assert Spaced(ss[n], i, j); }
  }

  /** An arming whose fate is to have been collected really was. */
  lemma CollectedWasCollected(ss: seq<System>, steps: seq<Step>, n: nat, k: nat)
    requires IsRun(ss, steps) && n < |ss| && k < |ss[n].fates| && ss[n].fates[k].Collected?
    ensures exists i :: 0 <= i < |ss[n].collected| && ss[n].collected[i].arming == k
  {
    RunKeepsInv(ss, steps, n);
  }

  // ---- deliveries ----

  /** Step `j` runs the callback of collection `m`. */
  predicate Delivers(ss: seq<System>, steps: seq<Step>, j: nat, m: nat)
    requires j < |steps| && j < |ss|
  {
    steps[j].Deliver? && ss[j].delivered == m < |ss[j].collected|
  }

  /** Step `j` runs a callback for arming `k`. */
  predicate Fires(ss: seq<System>, steps: seq<Step>, j: nat, k: nat)
    requires j < |steps| && j < |ss|
  {
    steps[j].Deliver? && ss[j].delivered < |ss[j].collected| && ss[j].collected[ss[j].delivered].arming == k
  }

  lemma {:induction false} DeliveredByAStep(ss: seq<System>, steps: seq<Step>, i: nat, n: nat, m: nat)
    requires IsRun(ss, steps) && i <= n < |ss| && ss[i].delivered <= m < ss[n].delivered
    ensures exists j :: i <= j < n && Delivers(ss, steps, j, m)
  {
    if i < n {
      if m < ss[n - 1].delivered {
        DeliveredByAStep(ss, steps, i, n - 1, m);
      } else {
        assert Delivers(ss, steps, n - 1, m);
      }
    }
  }

  lemma DeliveredOnlyOnce(ss: seq<System>, steps: seq<Step>, i: nat, j: nat, m: nat)
    requires IsRun(ss, steps) && i < j < |steps| && Delivers(ss, steps, i, m)
    ensures !Delivers(ss, steps, j, m)
  {
    RunGrows(ss, steps, i + 1, j);
  }

  /** Every collection gets its callback exactly once and in order: when the scheduler is not in
      the middle of delivering, each has had it, in exactly one step. */
  lemma DeliveredExactlyOnce(ss: seq<System>, steps: seq<Step>, n: nat, m: nat)
    requires IsRun(ss, steps) && n < |ss| && m < |ss[n].collected| && !ss[n].sched.Delivering?
    ensures exists j :: 0 <= j < n && Delivers(ss, steps, j, m)
    ensures forall i, j :: 0 <= i < j < |steps| && Delivers(ss, steps, i, m) ==> !Delivers(ss, steps, j, m)
  {
    RunKeepsInv(ss, steps, n);
    DeliveredByAStep(ss, steps, 0, n, m);
    forall i, j | 0 <= i < j < |steps| && Delivers(ss, steps, i, m) ensures !Delivers(ss, steps, j, m) {
      DeliveredOnlyOnce(ss, steps, i, j, m);
    }
  }

  /** A one-shot arming fires at most once, and not before it is due. */
  lemma OneShotFiresAtMostOnce(ss: seq<System>, steps: seq<Step>, i: nat, k: nat)
    requires IsRun(ss, steps) && i < |steps| && Fires(ss, steps, i, k)
    ensures k < |ss[i].armings| && ss[i].armings[k].setAt + ss[i].armings[k].delta <= ss[i].clock
    ensures ss[i].armings[k].OneShot() ==> forall j :: i < j < |steps| ==> !Fires(ss, steps, j, k)
  {
    var m := ss[i].delivered;
    CollectionsAreSound(ss, steps, i, m, m);
    if ss[i].armings[k].OneShot() {
      forall j | i < j < |steps| ensures !Fires(ss, steps, j, k) {
        RunGrows(ss, steps, i + 1, j);
        if ss[j].delivered < |ss[j].collected| { CollectionsAreSound(ss, steps, j, m, ss[j].delivered); }
      }
    }
  }

  // ---- cancelling ----

  /** Cancelling an armed alarm settles its arming for good. */
  lemma CancelSettles(s: System, a: AlarmId)
    requires Inv(s) && CancelResult(s, a) == 1
    ensures var k := s.current[a];
            && a in s.current && k < |s.fates| && s.fates[k].InForce? && Next(s, Cancel(a)).fates[k].Cancelled?
            && Next(s, Cancel(a)).collected == s.collected && Next(s, Cancel(a)).delivered == s.delivered
            && Next(s, Cancel(a)).armings == s.armings
  {
    assert AlarmOk(s, a);
    assert FateOk(s, s.current[a]);
  }

  /** Cancelling a group settles the armings of all its armed alarms, and of no others. */
  lemma CancelGroupSettles(s: System, group: nat, a: AlarmId)
    requires Inv(s) && a in s.alarms && s.alarms[a].armed
    ensures var k := s.current[a];
            && a in s.current && k < |s.fates| && s.fates[k].InForce?
            && Next(s, CancelGroup(group)).fates[k] == if s.alarms[a].group == group then Cancelled else InForce
  {
    assert AlarmOk(s, a);
    assert FateOk(s, s.current[a]);
  }

  /** A one-shot arming that was cancelled, alone or with its group, or replaced never fires. */
  lemma SettledOneShotNeverFires(ss: seq<System>, steps: seq<Step>, i: nat, j: nat, k: nat)
    requires IsRun(ss, steps) && i <= j < |steps| && k < |ss[i].fates| == |ss[i].armings|
    requires (ss[i].fates[k].Cancelled? || ss[i].fates[k].Replaced?) && ss[i].armings[k].OneShot()
    ensures !Fires(ss, steps, j, k)
  {
    RunKeepsInv(ss, steps, j);
    RunGrows(ss, steps, i, j);
    if ss[j].delivered < |ss[j].collected| { assert CollectionOk(ss[j], ss[j].delivered); }
  }

  /** OSCancelAlarm returning 1 for a one-shot arming means that arming never fires. */
  lemma CancelledOneShotNeverFires(ss: seq<System>, steps: seq<Step>, i: nat, a: AlarmId, j: nat)
    requires IsRun(ss, steps) && i < j < |steps| && steps[i] == Cancel(a) && CancelResult(ss[i], a) == 1
    requires a in ss[i].current && ss[i].current[a] < |ss[i].armings| && ss[i].armings[ss[i].current[a]].OneShot()
    ensures !Fires(ss, steps, j, ss[i].current[a])
  {
    RunKeepsInv(ss, steps, i);
    CancelSettles(ss[i], a);
    SettledOneShotNeverFires(ss, steps, i + 1, j, ss[i].current[a]);
  }

  /** For any arming: after a cancel that returned 1, it fires within the run if and only if one
      of its collections was already waiting for delivery, and is delivered within the run. */
  lemma CancelledFiresExactly(ss: seq<System>, steps: seq<Step>, i: nat, a: AlarmId)
    requires IsRun(ss, steps) && i < |steps| && steps[i] == Cancel(a) && CancelResult(ss[i], a) == 1
    requires a in ss[i].current
    ensures (exists j :: i < j < |steps| && Fires(ss, steps, j, ss[i].current[a])) <==>
            exists m :: ss[i].delivered <= m < |ss[i].collected| && m < ss[|steps|].delivered
                        && ss[i].collected[m].arming == ss[i].current[a]
  {
    RunKeepsInv(ss, steps, i);
    CancelSettles(ss[i], a);
    var k := ss[i].current[a];
    if j :| i < j < |steps| && Fires(ss, steps, j, k) {
      RunGrows(ss, steps, i + 1, j);
      RunGrows(ss, steps, j + 1, |steps|);
      var m := ss[j].delivered;
      assert m < |ss[i + 1].collected|;
      assert ss[i].collected[m] == ss[j].collected[m];
    }
    if m :| ss[i].delivered <= m < |ss[i].collected| && m < ss[|steps|].delivered && ss[i].collected[m].arming == k {
      DeliveredByAStep(ss, steps, i + 1, |steps|, m);
      var j :| i + 1 <= j < |steps| && Delivers(ss, steps, j, m);
      RunGrows(ss, steps, i + 1, j);
      assert ss[j].collected[m] == ss[i].collected[m];
      assert Fires(ss, steps, j, k);
    }
  }

  /** If the run ends with nothing left to deliver, the state at the cancel alone decides. */
  lemma CancelledFiresByThen(ss: seq<System>, steps: seq<Step>, i: nat, a: AlarmId)
    requires IsRun(ss, steps) && i < |steps| && steps[i] == Cancel(a) && CancelResult(ss[i], a) == 1
    requires a in ss[i].current && !ss[|steps|].sched.Delivering?
    ensures (exists j :: i < j < |steps| && Fires(ss, steps, j, ss[i].current[a])) <==>
            exists m :: ss[i].delivered <= m < |ss[i].collected| && ss[i].collected[m].arming == ss[i].current[a]
  {
    CancelledFiresExactly(ss, steps, i, a);
    RunKeepsInv(ss, steps, |steps|);
    RunGrows(ss, steps, i, |steps|);
  }

  // ---- a periodic arming that fires after its cancellation ----

  const PERIODIC := HostAlarm(0, 10, 7, 0, 0, true)

  const ARMED := System(0, map[1 := PERIODIC], Ready, map[1 := 0], [Arming(1, 0, 0, 10, 7)], [InForce], [], 0)

  const COLLECTED := ARMED.(alarms := map[1 := PERIODIC.(due := 10)], sched := Delivering, collected := [Collection(1, 7, 0, 0)])

  const CANCELLED := COLLECTED.(alarms := map[1 := PERIODIC.(due := 10, armed := false)], fates := [Cancelled])

  lemma ItIsArmed()
    ensures Enabled(STARTED, SetPeriodic(1, 0, 10, 7)) && Next(STARTED, SetPeriodic(1, 0, 10, 7)) == ARMED
  {
  }

  lemma ItCanBeCollected()
    ensures Enabled(ARMED, Collect([1], 0))
  {
  }

  lemma ItIsDue()
    ensures DueIn(ARMED.alarms, [1], 0) == [1]
  {
  }

  lemma ItMovesOn()
    ensures ScanAll(ARMED.alarms, 0) == COLLECTED.alarms
  {
  }

  lemma ItIsNoted()
    ensures Collections(ARMED, [1]) == COLLECTED.collected
  {
  }

  lemma TurnCollects(s: System, order: seq<AlarmId>, later: int, due: seq<AlarmId>)
    requires |s.fates| == |s.armings| && Enumerates(order, s.alarms.Keys) && DueIn(s.alarms, order, s.clock) == due != []
    ensures Turn(s, order, later) ==
            Settled(s.(alarms := ScanAll(s.alarms, s.clock), sched := Delivering,
                       collected := s.collected + Collections(s, due)), Collected)
  {
  }

  lemma ItStaysInForce()
    ensures Settled(COLLECTED, Collected) == COLLECTED
  {
    assert Resolve(COLLECTED, Collected) == [InForce];
  }

  lemma ItIsDelivering()
    ensures ARMED.(alarms := COLLECTED.alarms, sched := Delivering, collected := COLLECTED.collected) == COLLECTED
    ensures [] + COLLECTED.collected == COLLECTED.collected && ARMED.collected == [] && ARMED.clock == 0
    ensures |ARMED.fates| == |ARMED.armings|
  {
  }

  lemma ItsTurn()
    requires Enumerates([1], ARMED.alarms.Keys) && |ARMED.fates| == |ARMED.armings|
    ensures Turn(ARMED, [1], 0) == COLLECTED
  {
    ItIsDelivering();
    ItIsDue();
    TurnCollects(ARMED, [1], 0, [1]);
    ItMovesOn();
    ItIsNoted();
    ItStaysInForce();
  }

  lemma ItIsCollected()
    ensures Enabled(ARMED, Collect([1], 0)) && Next(ARMED, Collect([1], 0)) == COLLECTED
  {
    ItCanBeCollected();
    ItIsDelivering();
    ItsTurn();
  }

  lemma ItIsCancelled()
    ensures CancelResult(COLLECTED, 1) == 1 && Next(COLLECTED, Cancel(1)) == CANCELLED
  {
  }

  lemma ItIsDelivered()
    ensures Enabled(CANCELLED, Deliver) && Next(CANCELLED, Deliver) == CANCELLED.(delivered := 1)
  {
  }

  /** That does happen to a periodic arming: cancelled between its collection and its callback,
      with result 1, it still fires. */
  lemma PeriodicCanFireAfterCancel() returns (ss: seq<System>, steps: seq<Step>)
    ensures IsRun(ss, steps) && |steps| == 4 && steps[2] == Cancel(1) && CancelResult(ss[2], 1) == 1
    ensures Fires(ss, steps, 3, 0) && 1 in ss[2].current && ss[2].current[1] == 0
  {
    ItIsArmed();
    ItIsCollected();
    ItIsCancelled();
    ItIsDelivered();
    ss := [STARTED, ARMED, COLLECTED, CANCELLED, CANCELLED.(delivered := 1)];
    steps := [SetPeriodic(1, 0, 10, 7), Collect([1], 0), Cancel(1), Deliver];
  }

  // ---- the nearest due time ----

  /** `n` is 0 exactly when none of the alarms is armed, and not above any armed due time. */
  ghost predicate FindsNearest(alarms: map<AlarmId, HostAlarm>, order: seq<AlarmId>, n: int)
    requires forall a :: a in order ==> a in alarms
  {
    && (n == 0 <==> forall a :: a in order ==> !alarms[a].armed)
    && (forall a :: a in order && alarms[a].armed ==> n <= alarms[a].due)
  }

  /** Some armed alarm is due at time 0, which the scan takes to mean none, and none is due before. */
  ghost predicate HidesZero(alarms: map<AlarmId, HostAlarm>, order: seq<AlarmId>)
    requires forall a :: a in order ==> a in alarms
  {
    && (exists a :: a in order && alarms[a].armed && alarms[a].due == 0)
    && (forall a :: a in order && alarms[a].armed ==> alarms[a].due >= 0)
  }

  /** The scan finds a due time that some armed alarm has; it is not above any negative one, nor
      above any at all when none is 0. */
  lemma {:induction false} NearestCases(alarms: map<AlarmId, HostAlarm>, order: seq<AlarmId>)
    requires forall a :: a in order ==> a in alarms
    ensures var n := Nearest(alarms, order);
            && (n != 0 ==> exists a :: a in order && alarms[a].armed && alarms[a].due == n)
            && (forall a :: a in order && alarms[a].armed && alarms[a].due < 0 ==> n <= alarms[a].due)
            && ((forall a :: a in order && alarms[a].armed ==> alarms[a].due != 0) ==>
                  forall a :: a in order && alarms[a].armed ==> n != 0 && n <= alarms[a].due)
  {
    if order != [] {
      var last := |order| - 1;
      NearestCases(alarms, order[..last]);
      assert forall a :: a in order <==> a in order[..last] || a == order[last];
    }
  }

  /** The sentinel fails in exactly one family of tables. */
  lemma NearestIsExact(alarms: map<AlarmId, HostAlarm>, order: seq<AlarmId>)
    requires forall a :: a in order ==> a in alarms
    ensures FindsNearest(alarms, order, Nearest(alarms, order)) <==> !HidesZero(alarms, order)
  {
    NearestCases(alarms, order);
  }

  lemma NearestIsMinimum(alarms: map<AlarmId, HostAlarm>, order: seq<AlarmId>)
    requires forall a :: a in order ==> a in alarms
    requires !HidesZero(alarms, order)
    ensures var n := Nearest(alarms, order);
            && FindsNearest(alarms, order, n)
            && (n != 0 ==> exists a :: a in order && alarms[a].armed && alarms[a].due == n)
  {
    NearestCases(alarms, order);
    NearestIsExact(alarms, order);
  }

  // ---- sleeping ----

  /** An untimed sleep means no alarm is armed; a timed one that none is due before the time it
      aims at, and that it ends by then. */
  ghost predicate SleepOk(s: System) {
    && (s.sched.AsleepUntimed? ==> forall a :: a in s.alarms ==> !s.alarms[a].armed)
    && (s.sched.AsleepUntil? ==>
          && (forall a :: a in s.alarms && s.alarms[a].armed ==> s.sched.nearest <= s.alarms[a].due)
          && s.sched.nanos * 1989 <= (if s.sched.nearest > s.sched.since then s.sched.nearest - s.sched.since else 0) * 32000)
  }

  /** When nothing is due, the sleep that the scheduler chooses is sound exactly when the sentinel
      hides no alarm. */
  lemma SleepIsExact(s: System, order: seq<AlarmId>, later: int)
    requires |s.fates| == |s.armings| && Enumerates(order, s.alarms.Keys) && DueIn(s.alarms, order, s.clock) == []
    ensures SleepOk(Turn(s, order, later)) <==> !HidesZero(s.alarms, order)
  {
    NothingDue(s, order);
    NearestCases(s.alarms, order);
    NearestIsExact(s.alarms, order);
    var r := Turn(s, order, later);
    NanosNeverLonger(if r.sched.AsleepUntil? && r.sched.nearest > later then r.sched.nearest - later else 0);
  }

  /** It never does while the clock is not negative. */
  lemma NonNegativeClockHidesNothing(s: System, order: seq<AlarmId>)
    requires s.clock >= 0 && Enumerates(order, s.alarms.Keys) && DueIn(s.alarms, order, s.clock) == []
    ensures !HidesZero(s.alarms, order)
  {
    NothingDue(s, order);
  }

  /** The scan of this step finds nothing due and takes an alarm due at time 0 for none. */
  ghost predicate Hides(s: System, step: Step) {
    && step.Collect? && Enumerates(step.order, s.alarms.Keys)
    && DueIn(s.alarms, step.order, s.clock) == [] && HidesZero(s.alarms, step.order)
  }

  lemma ScanSleepsExactly(s: System, step: Step)
    requires |s.fates| == |s.armings| && Enabled(s, step) && step.Collect?
    ensures SleepOk(Next(s, step)) <==> !Hides(s, step)
  {
    if DueIn(s.alarms, step.order, s.clock) == [] { SleepIsExact(s, step.order, step.later); }
  }

  lemma OthersKeepSleep(s: System, step: Step)
    requires |s.fates| == |s.armings| && Enabled(s, step) && !step.Collect? && SleepOk(s)
    ensures SleepOk(Next(s, step))
  {
  }

  /** The latest scan before state `k`, if there was one, hid nothing. */
  ghost predicate LatestScanHidNothing(ss: seq<System>, steps: seq<Step>, k: nat)
    requires k <= |steps| && k <= |ss|
  {
    forall j :: 0 <= j < k && Hides(ss[j], steps[j]) ==> exists i :: j < i < k && steps[i].Collect?
  }

  lemma LatestScanBefore(ss: seq<System>, steps: seq<Step>, k: nat)
    requires 0 < k <= |steps| && k <= |ss| && LatestScanHidNothing(ss, steps, k)
    ensures if steps[k - 1].Collect? then !Hides(ss[k - 1], steps[k - 1]) else LatestScanHidNothing(ss, steps, k - 1)
  {
  }

  /** Whenever the scheduler sleeps, at any time, its sleep is sound unless the scan that chose it
      hid an alarm. */
  lemma {:induction false} SleepIsSoundAfterScan(ss: seq<System>, steps: seq<Step>, k: nat)
    requires IsRun(ss, steps) && k < |ss| && LatestScanHidNothing(ss, steps, k)
    ensures SleepOk(ss[k])
  {
    if k > 0 {
      LatestScanBefore(ss, steps, k);
      if steps[k - 1].Collect? {
        ScanSleepsExactly(ss[k - 1], steps[k - 1]);
      } else {
        SleepIsSoundAfterScan(ss, steps, k - 1);
        OthersKeepSleep(ss[k - 1], steps[k - 1]);
      }
    }
  }

  /** On a clock that starts at 0 or later: whenever the scheduler sleeps untimed no alarm is
      armed; whenever it sleeps with a timeout no armed alarm is due before the time it aims at,
      and the timeout, even from a wrapped product, ends no later than that. */
  lemma SleepIsSound(ss: seq<System>, steps: seq<Step>, k: nat)
    requires IsRun(ss, steps) && k < |ss| && ss[0].clock >= 0
    ensures ss[k].sched.AsleepUntimed? ==> forall a :: a in ss[k].alarms ==> !ss[k].alarms[a].armed
    ensures ss[k].sched.AsleepUntil? ==>
              var aim, since, nanos := ss[k].sched.nearest, ss[k].sched.since, ss[k].sched.nanos;
              && (forall a :: a in ss[k].alarms && ss[k].alarms[a].armed ==> aim <= ss[k].alarms[a].due)
              && since * 32000 + nanos * 1989 <= (if aim > since then aim else since) * 32000
  {
    forall j | 0 <= j < k ensures !Hides(ss[j], steps[j]) {
      RunGrows(ss, steps, 0, j);
      if Hides(ss[j], steps[j]) { NonNegativeClockHidesNothing(ss[j], steps[j].order); }
    }
    SleepIsSoundAfterScan(ss, steps, k);
  }

  const ZERO_ALARM := HostAlarm(0, 0, 7, 0, 0, true)

  const SET_BEFORE_EPOCH := System(-5, map[1 := ZERO_ALARM], Ready, map[1 := 0], [Arming(1, -5, 5, 0, 7)], [InForce], [], 0)

  lemma SetBeforeEpoch()
    ensures Enabled(STARTED.(clock := -5), Set(1, 5, 7)) && Next(STARTED.(clock := -5), Set(1, 5, 7)) == SET_BEFORE_EPOCH
  {
  }

  lemma ScannedBeforeEpoch()
    ensures Enabled(SET_BEFORE_EPOCH, Collect([1], -5)) && Hides(SET_BEFORE_EPOCH, Collect([1], -5))
    ensures Next(SET_BEFORE_EPOCH, Collect([1], -5)) == SET_BEFORE_EPOCH.(sched := AsleepUntimed)
  {
    assert 1 in [1] && [1][..0] == [];
    assert DueIn(SET_BEFORE_EPOCH.alarms, [], -5) == [] && Nearest(SET_BEFORE_EPOCH.alarms, []) == 0;
    NothingDue(SET_BEFORE_EPOCH, [1]);
  }

  /** It does happen: before the epoch, an alarm set to be due at time 0 lets the scheduler sleep
      without a timeout. */
  lemma AlarmCanBeHidden() returns (ss: seq<System>, steps: seq<Step>)
    ensures IsRun(ss, steps) && steps == [Set(1, 5, 7), Collect([1], -5)]
    ensures ss[2].sched.AsleepUntimed? && 1 in ss[2].alarms && ss[2].alarms[1].armed && !SleepOk(ss[2])
  {
    SetBeforeEpoch();
    ScannedBeforeEpoch();
    ss := [STARTED.(clock := -5), SET_BEFORE_EPOCH, SET_BEFORE_EPOCH.(sched := AsleepUntimed)];
    steps := [Set(1, 5, 7), Collect([1], -5)];
  }
}
