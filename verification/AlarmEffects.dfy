/** What each call on an alarm, and each turn of the scheduler, does to the alarms: told alarm by
    alarm, and by the call that made an arming. */
module AlarmEffects {
  import opened Machine
  import opened Ticks
  import opened AlarmModel
  import opened AlarmProperties

  // ---- the clients ----

  /** All alarms but `a` have the records they had. */
  ghost predicate OthersSame(s: System, r: System, a: AlarmId) {
    forall b: AlarmId :: b != a ==> r.Get(b) == s.Get(b)
  }

  /** The clock, the logs and the deliveries are untouched. */
  predicate SameHistory(s: System, r: System) {
    r.clock == s.clock && r.armings == s.armings && r.current == s.current && r.collected == s.collected && r.delivered == s.delivered
  }

  predicate Asleep(sched: Scheduler) { sched.AsleepUntimed? || sched.AsleepUntil? }

  /** OSSetAlarm makes one arming, for one time, and leaves the alarm armed with exactly its terms;
      what the alarm belongs to and carries stays, and so do all other alarms. */
  lemma SetArmsOnce(s: System, a: AlarmId, time: int, callback: nat)
    requires |s.fates| == |s.armings| && Enabled(s, Set(a, time, callback))
    ensures var r := Next(s, Set(a, time, callback));
            && r.armings == s.armings + [Arming(a, s.clock, time, 0, callback)]
            && r.alarms.Keys == s.alarms.Keys + {a} && OthersSame(s, r, a)
            && r.alarms[a] == HostAlarm(s.clock + time, 0, callback, s.Get(a).userData, s.Get(a).group, true)
            && r.clock == s.clock && r.collected == s.collected && r.delivered == s.delivered
            && !Asleep(r.sched) && (!Asleep(s.sched) ==> r.sched == s.sched)
            && r.Holds(|s.armings|) && r.fates[|s.armings|].InForce?
  {
  }

  /** OSSetPeriodicAlarm does the same with its own start and interval. */
  lemma SetPeriodicArms(s: System, a: AlarmId, start: int, interval: int, callback: nat)
    requires |s.fates| == |s.armings| && Enabled(s, SetPeriodic(a, start, interval, callback))
    ensures var r := Next(s, SetPeriodic(a, start, interval, callback));
            && r.armings == s.armings + [Arming(a, s.clock, start, interval, callback)]
            && r.alarms.Keys == s.alarms.Keys + {a} && OthersSame(s, r, a)
            && r.alarms[a] == HostAlarm(s.clock + start, interval, callback, s.Get(a).userData, s.Get(a).group, true)
            && r.clock == s.clock && r.collected == s.collected && r.delivered == s.delivered
            && !Asleep(r.sched) && (!Asleep(s.sched) ==> r.sched == s.sched)
            && r.Holds(|s.armings|) && r.fates[|s.armings|].InForce?
  {
  }

  /** Cancelling disarms that alarm and does nothing else to it or to any other; every arming of
      another alarm keeps its fate. */
  lemma CancelDisarmsOne(s: System, a: AlarmId, k: nat)
    requires Inv(s) && k < |s.armings|
    ensures var r := Next(s, Cancel(a));
            && r.alarms.Keys == s.alarms.Keys && OthersSame(s, r, a) && SameHistory(s, r)
            && r.Get(a) == s.Get(a).(armed := false)
            && !Asleep(r.sched) && (!Asleep(s.sched) ==> r.sched == s.sched)
            && (s.armings[k].alarm != a ==> r.fates[k] == s.fates[k])
  {
    assert FateOk(s, k);
  }

  /** Cancelling a group does that to exactly the alarms of the group. */
  lemma CancelGroupDisarms(s: System, group: nat, b: AlarmId)
    requires |s.fates| == |s.armings| && b in s.alarms
    ensures var r := Next(s, CancelGroup(group));
            && r.alarms.Keys == s.alarms.Keys && SameHistory(s, r)
            && r.alarms[b] == s.alarms[b].(armed := s.alarms[b].armed && s.alarms[b].group != group)
            && !Asleep(r.sched) && (!Asleep(s.sched) ==> r.sched == s.sched)
  {
  }

  /** OSCancelAlarm answers 1 if and only if an arming of that alarm is in force, and 0 otherwise. */
  lemma CancelAnswersWhetherInForce(s: System, a: AlarmId)
    requires Inv(s)
    ensures CancelResult(s, a) == 1 <==> exists k :: 0 <= k < |s.armings| && s.armings[k].alarm == a && s.fates[k].InForce?
    ensures CancelResult(s, a) == 0 || CancelResult(s, a) == 1
  {
    if k :| 0 <= k < |s.armings| && s.armings[k].alarm == a && s.fates[k].InForce? { assert FateOk(s, k); }
    if s.Get(a).armed {
      assert AlarmOk(s, a);
      assert FateOk(s, s.current[a]);
    }
  }

  /** Creating an alarm blanks its record; setting a tag or user data changes that field alone.
      None of them disturbs another alarm or the scheduler. */
  lemma RecordsAreEdited(s: System, a: AlarmId, x: nat)
    requires |s.fates| == |s.armings|
    ensures var r := Next(s, Create(a));
            r.Get(a) == HostAlarm(0, 0, 0, 0, 0, false) && a in r.alarms && OthersSame(s, r, a) && SameHistory(s, r) && r.sched == s.sched
    ensures var r := Next(s, SetTag(a, x));
            r.Get(a) == s.Get(a).(group := x) && a in r.alarms && OthersSame(s, r, a) && SameHistory(s, r) && r.sched == s.sched
    ensures var r := Next(s, SetUserData(a, x));
            r.Get(a) == s.Get(a).(userData := x) && a in r.alarms && OthersSame(s, r, a) && SameHistory(s, r) && r.sched == s.sched
  {
  }

  // ---- the scheduler ----

  /** What a turn makes of an alarm: one that is not due stays as it is; one that is due is disarmed,
      or, if it repeats, armed for one interval after the reading of the clock. */
  lemma TurnMovesDue(s: System, order: seq<AlarmId>, later: int, b: AlarmId)
    requires Inv(s) && Enabled(s, Collect(order, later)) && b in s.alarms
    ensures var r, h := Next(s, Collect(order, later)), s.alarms[b];
            && r.alarms.Keys == s.alarms.Keys && r.current == s.current && r.armings == s.armings && r.delivered == s.delivered
            && r.alarms[b] == if !h.armed || h.due > s.clock then h
                              else if h.interval > 0 then h.(due := s.clock + h.interval)
                              else h.(armed := false)
  {
    if DueIn(s.alarms, order, s.clock) == [] { NothingDue(s, order); }
  }

  /** An alarm that is armed and due at a turn is collected in it, with its callback and for the
      arming in force, and the scheduler goes on to deliver. */
  lemma DueIsCollected(s: System, order: seq<AlarmId>, later: int, b: AlarmId)
    requires Inv(s) && Enabled(s, Collect(order, later)) && b in s.alarms && s.alarms[b].armed && s.alarms[b].due <= s.clock
    ensures b in s.current
    ensures var r := Next(s, Collect(order, later));
            && r.sched.Delivering?
            && exists m :: |s.collected| <= m < |r.collected|
                           && r.collected[m] == Collection(b, s.alarms[b].callback, s.current[b], s.clock)
  {
    DueInMeaning(s.alarms, order, s.clock);
    assert AlarmOk(s, b);
    var due := DueIn(s.alarms, order, s.clock);
    var i :| 0 <= i < |due| && due[i] == b;
    var r := Next(s, Collect(order, later));
    assert r.collected[|s.collected| + i] == CollectionOf(s, b);
  }

  lemma NanosAreExact(t: nat)
    ensures NanosOfTicks(t) == t * 32000 / 1989 <==> t * 32000 < TWO_64
  {
    if t * 32000 >= TWO_64 { assert U64(t * 32000) <= t * 32000 - TWO_64; }
  }

  /** With nothing due, and no alarm hidden, the scheduler sleeps without a timeout if and only if no
      alarm is armed; otherwise it aims at the least due time, with the ticks from the second
      reading of the clock as nanoseconds, rounded down, exactly when their product fits. */
  lemma SleepAimsAtNearest(s: System, order: seq<AlarmId>, later: int)
    requires Inv(s) && Enabled(s, Collect(order, later)) && DueIn(s.alarms, order, s.clock) == [] && !HidesZero(s.alarms, order)
    ensures var r := Next(s, Collect(order, later));
            && r.clock == later && r.collected == s.collected && Asleep(r.sched)
            && (r.sched.AsleepUntimed? <==> forall a :: a in s.alarms ==> !s.alarms[a].armed)
            && (r.sched.AsleepUntil? ==>
                  var aim := r.sched.nearest;
                  && r.sched.since == later
                  && (exists a :: a in s.alarms && s.alarms[a].armed && s.alarms[a].due == aim)
                  && (forall a :: a in s.alarms && s.alarms[a].armed ==> aim <= s.alarms[a].due)
                  && (aim <= later ==> r.sched.nanos == 0)
                  && (aim > later ==> (r.sched.nanos == (aim - later) * 32000 / 1989 <==> (aim - later) * 32000 < TWO_64)))
  {
    NothingDue(s, order);
    NearestIsMinimum(s.alarms, order);
    var n := Nearest(s.alarms, order);
    if n > later { NanosAreExact(n - later); }
  }

  /** Time passing, a sleep ending and a delivery each change one thing: the clock, the scheduler's
      sleep, and the next callback in turn or, after the last one, the end of delivering. */
  lemma OneThingAtATime(s: System, now: int)
    requires |s.fates| == |s.armings|
    ensures Enabled(s, Tick(now)) ==> Next(s, Tick(now)) == s.(clock := now)
    ensures Enabled(s, Wake) ==> Asleep(s.sched) && Next(s, Wake) == s.(sched := Ready)
    ensures Enabled(s, Deliver) ==>
              Next(s, Deliver) == if s.delivered >= |s.collected| then s.(sched := Ready) else s.(delivered := s.delivered + 1)
  {
  }

  // ---- what a caller of OSSetAlarm can expect ----

  lemma ArmingStays(ss: seq<System>, steps: seq<Step>, i: nat, j: nat, a: AlarmId, time: int, interval: int, callback: nat)
    requires IsRun(ss, steps) && i < j < |ss|
    requires (steps[i] == Set(a, time, callback) && interval == 0) || steps[i] == SetPeriodic(a, time, interval, callback)
    ensures |ss[j].armings| > |ss[i].armings| && ss[j].armings[|ss[i].armings|] == Arming(a, ss[i].clock, time, interval, callback)
  {
    if steps[i].Set? { SetArmsOnce(ss[i], a, time, callback); } else { SetPeriodicArms(ss[i], a, time, interval, callback); }
    RunGrows(ss, steps, i + 1, j);
  }

  /** Step `j` runs a callback for the arming that the call in step `i` made. */
  predicate FiresFor(ss: seq<System>, steps: seq<Step>, i: nat, j: nat)
    requires i < |steps| && j < |steps| && |ss| == |steps| + 1
  {
    Fires(ss, steps, j, |ss[i].armings|)
  }

  /** In every run a call of OSSetAlarm runs its callback, for its alarm, at most once, and not
      before the time it was called plus the time it was given. */
  lemma SetFiresAtMostOnce(ss: seq<System>, steps: seq<Step>, i: nat, j: nat, a: AlarmId, time: int, callback: nat)
    requires IsRun(ss, steps) && i < j < |steps| && steps[i] == Set(a, time, callback) && FiresFor(ss, steps, i, j)
    ensures ss[j].clock >= ss[i].clock + time
    ensures var c := ss[j].collected[ss[j].delivered]; c.alarm == a && c.callback == callback && c.at >= ss[i].clock + time
    ensures forall k :: j < k < |steps| ==> !FiresFor(ss, steps, i, k)
  {
    ArmingStays(ss, steps, i, j, a, time, 0, callback);
    OneShotFiresAtMostOnce(ss, steps, j, |ss[i].armings|);
    CollectionsAreSound(ss, steps, j, ss[j].delivered, ss[j].delivered);
  }

  /** A call of OSSetPeriodicAlarm with a positive interval runs its callback for collections at
      least one interval apart, the first not before its start; any other fires at most once. */
  lemma SetPeriodicFiresSpaced(ss: seq<System>, steps: seq<Step>, i: nat, j: nat, k: nat, a: AlarmId, start: int, interval: int, callback: nat)
    requires IsRun(ss, steps) && i < j < k < |steps| && steps[i] == SetPeriodic(a, start, interval, callback)
    requires FiresFor(ss, steps, i, j) && FiresFor(ss, steps, i, k)
    ensures var c, d := ss[j].collected[ss[j].delivered], ss[k].collected[ss[k].delivered];
            && c.alarm == d.alarm == a && c.callback == d.callback == callback
            && ss[i].clock + start <= c.at && interval > 0 && c.at + interval <= d.at
  {
    ArmingStays(ss, steps, i, j, a, start, interval, callback);
    ArmingStays(ss, steps, i, k, a, start, interval, callback);
    RunGrows(ss, steps, j + 1, k);
    CollectionsAreSound(ss, steps, j, ss[j].delivered, ss[j].delivered);
    assert ss[k].collected[ss[j].delivered] == ss[j].collected[ss[j].delivered];
    CollectionsAreSound(ss, steps, k, ss[j].delivered, ss[k].delivered);
    CollectionsAreSound(ss, steps, k, ss[k].delivered, ss[k].delivered);
  }
}
