/** The table of alarms, updated in place under its lock by the scheduler and its clients.  The
    clock readings of a call are its parameters. */
module Alarm {
  import opened Machine
  import opened Wrappers
  import M = AlarmModel

  /** A due alarm and the callback to run for it. */
  datatype Due = Due(alarm: M.AlarmId, callback: nat)

  /** The collections without their callback yet are those of the due list, in its order. */
  ghost predicate Awaits(s: M.System, due: seq<Due>) {
    && |s.collected| == s.delivered + |due|
    && forall i :: 0 <= i < |due| ==>
         due[i] == Due(s.collected[s.delivered + i].alarm, s.collected[s.delivered + i].callback)
  }

  /** The due list names these alarms in this order, each with its own callback. */
  predicate Names(due: seq<Due>, ids: seq<M.AlarmId>, alarms: map<M.AlarmId, M.HostAlarm>) {
    |due| == |ids| && forall i :: 0 <= i < |ids| ==> ids[i] in alarms && due[i] == Due(ids[i], alarms[ids[i]].callback)
  }

  function WithDue(due: seq<Due>, a: M.AlarmId, h: M.HostAlarm, now: int): seq<Due> {
    if M.IsDue(h, now) then due + [Due(a, h.callback)] else due
  }

  function Sooner(nearest: int, h: M.HostAlarm): int { if h.armed && (nearest == 0 || h.due < nearest) then h.due else nearest }

  /** The scan has visited `order`; the alarms in `rest` are still to come. */
  ghost predicate SoFar(was: map<M.AlarmId, M.HostAlarm>, now: int, order: seq<M.AlarmId>, rest: set<M.AlarmId>,
                        alarms: map<M.AlarmId, M.HostAlarm>, due: seq<Due>, nearest: int)
  {
    && M.Enumerates(order, was.Keys - rest) && rest <= was.Keys == alarms.Keys
    && (forall a :: a in was ==> alarms[a] == if a in rest then was[a] else M.Scanned(was[a], now))
    && Names(due, M.DueIn(was, order, now), was)
    && nearest == M.Nearest(M.ScanAll(was, now), order)
  }

  lemma OneMore(was: map<M.AlarmId, M.HostAlarm>, now: int, order: seq<M.AlarmId>, rest: set<M.AlarmId>, a: M.AlarmId,
                alarms: map<M.AlarmId, M.HostAlarm>, due: seq<Due>, nearest: int)
    requires SoFar(was, now, order, rest, alarms, due, nearest) && a in rest
    ensures a in alarms
    ensures SoFar(was, now, order + [a], rest - {a}, alarms[a := M.Scanned(alarms[a], now)],
                  WithDue(due, a, alarms[a], now), Sooner(nearest, M.Scanned(alarms[a], now)))
  {
    assert (order + [a])[..|order|] == order;
  }

  lemma AllVisited(was: map<M.AlarmId, M.HostAlarm>, now: int, order: seq<M.AlarmId>,
                   alarms: map<M.AlarmId, M.HostAlarm>, due: seq<Due>, nearest: int)
    requires SoFar(was, now, order, {}, alarms, due, nearest)
    ensures M.Enumerates(order, was.Keys) && alarms == M.ScanAll(was, now)
  {
  }

  class AlarmTable {
    var alarms: map<M.AlarmId, M.HostAlarm>
    var sched: M.Scheduler
    ghost var history: M.System  // the clock and the logs; its own alarms and scheduler are not used

    ghost function Model(): M.System
      reads this
    {
      history.(alarms := alarms, sched := sched)
    }

    ghost predicate Valid()
      reads this
    {
      M.Inv(Model())
    }

    constructor ()
      ensures Valid() && Model() == M.STARTED
    {
      alarms, sched, history := map[], M.Ready, M.STARTED;
    }

    // ---- the clients ----

    method Create(a: M.AlarmId)
      requires Valid()
      modifies this
      ensures Valid() && Model() == M.Next(old(Model()), M.Create(a))
    {
      M.NextKeepsInv(Model(), M.Create(a));
      history := M.Next(Model(), M.Create(a));
      alarms := alarms[a := M.HostAlarm(0, 0, 0, 0, 0, false)];
    }

    method Set(a: M.AlarmId, now: int, time: int, callback: nat) returns (result: int)
      requires Valid() && now == history.clock && M.Enabled(Model(), M.Set(a, time, callback))
      modifies this
      ensures Valid() && Model() == M.Next(old(Model()), M.Set(a, time, callback)) && result == 1
    {
      M.NextKeepsInv(Model(), M.Set(a, time, callback));
      history := M.Next(Model(), M.Set(a, time, callback));
      Arm(a, now + time, 0, callback);
      return 1;
    }

    method SetPeriodic(a: M.AlarmId, now: int, start: int, interval: int, callback: nat) returns (result: int)
      requires Valid() && now == history.clock && M.Enabled(Model(), M.SetPeriodic(a, start, interval, callback))
      modifies this
      ensures Valid() && Model() == M.Next(old(Model()), M.SetPeriodic(a, start, interval, callback)) && result == 1
    {
      M.NextKeepsInv(Model(), M.SetPeriodic(a, start, interval, callback));
      history := M.Next(Model(), M.SetPeriodic(a, start, interval, callback));
      Arm(a, now + start, interval, callback);
      return 1;
    }

    /** Arms the alarm, making a blank record first if there is none, and wakes the scheduler. */
    method Arm(a: M.AlarmId, due: int, interval: int, callback: nat)
      modifies this`alarms, this`sched
      ensures alarms == old(alarms)[a := old(Model().Get(a)).(due := due, interval := interval, callback := callback, armed := true)]
      ensures sched == M.Woken(old(sched))
    {
      if a !in alarms { alarms := alarms[a := M.BLANK]; }
      var h := alarms[a];
      alarms := alarms[a := h.(due := due, interval := interval, callback := callback, armed := true)];
      WakeAll();
    }

    method WakeAll()
      modifies this`sched
      ensures sched == M.Woken(old(sched))
    {
      if sched.AsleepUntimed? || sched.AsleepUntil? { sched := M.Ready; }
    }

    method Cancel(a: M.AlarmId) returns (result: int)
      requires Valid()
      modifies this
      ensures Valid() && Model() == M.Next(old(Model()), M.Cancel(a)) && result == M.CancelResult(old(Model()), a)
    {
      M.NextKeepsInv(Model(), M.Cancel(a));
      history := M.Next(Model(), M.Cancel(a));
      var was := a in alarms && alarms[a].armed;
      if a in alarms { alarms := alarms[a := alarms[a].(armed := false)]; }
      WakeAll();
      return if was then 1 else 0;
    }

    method CancelGroup(group: nat)
      requires Valid()
      modifies this
      ensures Valid() && Model() == M.Next(old(Model()), M.CancelGroup(group))
    {
      M.NextKeepsInv(Model(), M.CancelGroup(group));
      history := M.Next(Model(), M.CancelGroup(group));
      DisarmGroup(group);
      WakeAll();
    }

    method DisarmGroup(group: nat)
      modifies this`alarms
      ensures alarms == M.WithoutGroup(old(alarms), group)
    {
      ghost var was := alarms;
      var rest := alarms.Keys;
      while rest != {}
        invariant rest <= alarms.Keys == was.Keys
        invariant forall a :: a in was ==>
          alarms[a] == if a !in rest && was[a].group == group then was[a].(armed := false) else was[a]
        decreases |rest|
      {
        var a :| a in rest;
        rest := rest - {a};
        if alarms[a].group == group { alarms := alarms[a := alarms[a].(armed := false)]; }
      }
    }

    method SetTag(a: M.AlarmId, group: nat)
      requires Valid()
      modifies this
      ensures Valid() && Model() == M.Next(old(Model()), M.SetTag(a, group))
    {
      M.NextKeepsInv(Model(), M.SetTag(a, group));
      history := M.Next(Model(), M.SetTag(a, group));
      if a !in alarms { alarms := alarms[a := M.BLANK]; }
      alarms := alarms[a := alarms[a].(group := group)];
      assert alarms == history.alarms;
    }

    method SetUserData(a: M.AlarmId, data: nat)
      requires Valid()
      modifies this
      ensures Valid() && Model() == M.Next(old(Model()), M.SetUserData(a, data))
    {
      M.NextKeepsInv(Model(), M.SetUserData(a, data));
      history := M.Next(Model(), M.SetUserData(a, data));
      if a !in alarms { alarms := alarms[a := M.BLANK]; }
      alarms := alarms[a := alarms[a].(userData := data)];
      assert alarms == history.alarms;
    }

    // ---- the scheduler ----

    /** The scan: collects the due alarms with their callbacks, moves or disarms them, and finds
        the nearest due time.  The order of the table is arbitrary. */
    method Scan(now: int) returns (due: seq<Due>, nearest: int, ghost order: seq<M.AlarmId>)
      modifies this`alarms
      ensures M.Enumerates(order, old(alarms.Keys)) && alarms == M.ScanAll(old(alarms), now)
      ensures nearest == M.Nearest(alarms, order)
      ensures Names(due, M.DueIn(old(alarms), order, now), old(alarms))
    {
      ghost var was := alarms;
      due, nearest, order := [], 0, [];
      var rest := alarms.Keys;
      while rest != {}
        invariant SoFar(was, now, order, rest, alarms, due, nearest)
        decreases |rest|
      {
        var a :| a in rest;
        OneMore(was, now, order, rest, a, alarms, due, nearest);
        due, nearest := Visit(a, now, due, nearest);
        rest, order := rest - {a}, order + [a];
      }
      AllVisited(was, now, order, alarms, due, nearest);
    }

    /** The body of the scan. */
    method Visit(a: M.AlarmId, now: int, due: seq<Due>, nearest: int) returns (due': seq<Due>, nearest': int)
      requires a in alarms
      modifies this`alarms
      ensures alarms == old(alarms[a := M.Scanned(alarms[a], now)])
      ensures due' == WithDue(due, a, old(alarms[a]), now) && nearest' == Sooner(nearest, M.Scanned(old(alarms[a]), now))
    {
      due', nearest' := due, nearest;
      var h := alarms[a];
      if h.armed && h.due <= now {
        due' := due + [Due(a, h.callback)];
        if h.interval > 0 { h := h.(due := now + h.interval); } else { h := h.(armed := false); }
      }
      alarms := alarms[a := h];
      if h.armed && (nearest == 0 || h.due < nearest) { nearest' := h.due; }
    }

    /** Until when to sleep, with the clock at `later`. */
    method Sleep(nearest: int, later: int)
      modifies this`sched
      ensures sched == if nearest == 0 then M.AsleepUntimed else M.AsleepUntil(nearest, later, M.SleepNanos(nearest, later))
    {
      if nearest == 0 {
        sched := M.AsleepUntimed;
      } else {
        var delta := nearest - later;
        var nanos := if delta > 0 then U64(delta * 32000) / 1989 else 0;
        sched := M.AsleepUntil(nearest, later, nanos);
      }
    }

    /** One turn of the scheduler's loop; the clock is read at `now`, and again at `later` before sleeping. */
    method Turn(now: int, later: int) returns (due: seq<Due>, ghost order: seq<M.AlarmId>)
      requires Valid() && sched.Ready? && now == history.clock && now <= later
      requires forall a :: a in alarms && M.IsDue(alarms[a], now) && alarms[a].interval > 0 ==> FitsI64(now + alarms[a].interval)
      modifies this
      ensures M.Enabled(old(Model()), M.Collect(order, later))
      ensures Valid() && Model() == M.Next(old(Model()), M.Collect(order, later))
      ensures Names(due, M.DueIn(old(alarms), order, now), old(alarms))
      ensures if due != [] then sched.Delivering? && Awaits(Model(), due) else sched.AsleepUntimed? || sched.AsleepUntil?
    {
      var nearest;
      due, nearest, order := Scan(now);
      ghost var step := M.Collect(order, later);
      assert M.Enabled(old(Model()), step);
      M.NextKeepsInv(old(Model()), step);
      history := M.Next(old(Model()), step);
      if due != [] {
        sched := M.Delivering;
      } else {
        Sleep(nearest, later);
      }
    }

    /** One round of the delivery loop: the next callback to run, or, after the last one, back to
        the scan.  A null callback is passed over. */
    method Deliver(due: seq<Due>) returns (call: Option<Due>, rest: seq<Due>)
      requires Valid() && sched.Delivering? && Awaits(Model(), due)
      modifies this
      ensures Valid() && Model() == M.Next(old(Model()), M.Deliver)
      ensures if due == [] then sched.Ready? && call == None
              else sched.Delivering? && rest == due[1..] && Awaits(Model(), rest)
                   && call == if due[0].callback != 0 then Some(due[0]) else None
    {
      M.NextKeepsInv(Model(), M.Deliver);
      history := M.Next(Model(), M.Deliver);
      call, rest := None, due;
      if due == [] {
        sched := M.Ready;
      } else {
        if due[0].callback != 0 { call := Some(due[0]); }
        rest := due[1..];
      }
    }

    /** A sleep ends: woken, timed out, or for no reason. */
    method Wake()
      requires Valid() && M.Enabled(Model(), M.Wake)
      modifies this
      ensures Valid() && Model() == M.Next(old(Model()), M.Wake) && sched.Ready?
    {
      M.NextKeepsInv(Model(), M.Wake);
      sched := M.Ready;
    }
  }
}
