/** Tick counts: conversion to and from calendar fields, and the ratios between the two clocks. */
module Ticks {
  import opened Machine
  import opened Calendar

  const TIMER_HZ: int := 62156250
  const UNIX_TO_CAFE_EPOCH: int := 946684800

  /** The fields of OSCalendarTime; months count from 0, and Sunday is day 0 of the week. */
  datatype Fields = Fields(sec: int, min: int, hour: int, mday: int, mon: int, year: int,
                           wday: int, yday: int, msec: int, usec: int)

  /** Quotient and remainder by truncation, corrected so that the remainder is not negative. */
  function FloorSplit(a: int, b: int): (int, int)
    requires b > 0
  {
    var q, r := TruncDiv(a, b), TruncMod(a, b);
    if r < 0 then (q - 1, r + b) else (q, r)
  }

  function FieldsFrom(y: int, m: int, d: int, days: int, newYear: int, sod: int, rem: int): Fields {
    var micros := U64(U64(rem) * 1000000) / TIMER_HZ;
    Fields(I32(sod % 60), I32(sod % 3600 / 60), I32(sod / 3600), d, I32(m - 1), y,
           I32(TruncMod(TruncMod(days, 7) + 11, 7)), I32(days - newYear), I32(micros / 1000), I32(micros % 1000))
  }

  function FieldsAt(days: int, sod: int, rem: int): Fields {
    var t := CivilFromDays(days);
    var y := I32(t.year);
    FieldsFrom(y, I32(t.month), I32(t.day), days, DaysFromCivil(y, 1, 1), sod, rem)
  }

  function FieldsOf(time: int): Fields {
    var (secs, rem) := FloorSplit(time, TIMER_HZ);
    var (days, sod) := FloorSplit(secs + UNIX_TO_CAFE_EPOCH, 86400);
    FieldsAt(days, sod, rem)
  }

  function SecondsOf(f: Fields): int {
    DaysFromCivil(f.year, U32(f.mon + 1), U32(f.mday)) * 86400 + f.hour * 3600 + f.min * 60 + f.sec - UNIX_TO_CAFE_EPOCH
  }

  function TicksOf(f: Fields): int {
    SecondsOf(f) * TIMER_HZ + TruncDiv((f.msec * 1000 + f.usec) * TIMER_HZ, 1000000)
  }

  /** Fields that name a moment: a real date, and every smaller unit in its range. */
  predicate Normal(f: Fields) {
    && ValidDate(Date(f.year, f.mon + 1, f.mday))
    && 0 <= f.hour < 24 && 0 <= f.min < 60 && 0 <= f.sec < 60 && 0 <= f.msec < 1000 && 0 <= f.usec < 1000
  }

  // ---- reading the conversions ----

  lemma SplitTicks(a: int)
    ensures FloorSplit(a, TIMER_HZ) == (a / TIMER_HZ, a % TIMER_HZ)
  {
  }

  lemma SplitSeconds(a: int)
    ensures FloorSplit(a, 86400) == (a / 86400, a % 86400)
  {
  }

  lemma SplitWeek(days: int)
    ensures TruncMod(TruncMod(days, 7) + 11, 7) == (days + 4) % 7
  {
  }

  /** Dates within two million days of the epoch have four-digit years. */
  lemma YearRange(t: Date)
    requires ValidDate(t) && -2_000_000 <= DaysFromCivil(t.year, t.month, t.day) <= 2_000_000
    ensures -9999 <= t.year <= 9999
  {
  }

  /** `f` names the moment `sod` seconds and `rem` ticks into day number `days`: the date and
      time of day, the weekday counted from a Thursday, the naive day of the year, and the
      whole microseconds of the rest. */
  predicate Reads(f: Fields, days: int, sod: int, rem: int) {
    && Normal(f)
    && DaysFromCivil(f.year, f.mon + 1, f.mday) == days
    && f.hour * 3600 + f.min * 60 + f.sec == sod
    && f.msec * 1000 + f.usec == rem * 32 / 1989
    && f.wday == (days + 4) % 7
    && f.yday == DaysToMonth(f.year, f.mon + 1) + f.mday - 1
  }

  lemma TimeOfDay(sod: int)
    requires 0 <= sod < 86400
    ensures 0 <= sod / 3600 < 24 && 0 <= sod % 3600 / 60 < 60 && 0 <= sod % 60 < 60
    ensures sod / 3600 * 3600 + sod % 3600 / 60 * 60 + sod % 60 == sod
  {
  }

  /** Microseconds of a tick remainder and back again: 1000000 / 62156250 is 32 / 1989. */
  lemma SubSecond(rem: int)
    requires 0 <= rem < TIMER_HZ
    ensures U64(U64(rem) * 1000000) / TIMER_HZ == rem * 32 / 1989 < 1000000
  {
  }

  lemma FieldsFromMeaning(t: Date, days: int, newYear: int, sod: int, rem: int)
    requires ValidDate(t) && -9999 <= t.year <= 9999 && 0 <= days - newYear <= 365
    requires 0 <= sod < 86400 && 0 <= rem < TIMER_HZ
    ensures var f := FieldsFrom(I32(t.year), I32(t.month), I32(t.day), days, newYear, sod, rem);
            && Date(f.year, f.mon + 1, f.mday) == t && Normal(f)
            && f.hour * 3600 + f.min * 60 + f.sec == sod && f.msec * 1000 + f.usec == rem * 32 / 1989
            && f.wday == (days + 4) % 7 && f.yday == days - newYear
  {
    SplitWeek(days);
    SubSecond(rem);
    TimeOfDay(sod);
  }

  lemma YearDay(t: Date)
    requires ValidDate(t)
    ensures var n := DaysFromCivil(t.year, t.month, t.day) - DaysFromCivil(t.year, 1, 1);
            n == DaysToMonth(t.year, t.month) + t.day - 1 && 0 <= n <= 365
  {
    DaysFromCivilCounts(t);
    DaysFromCivilCounts(Date(t.year, 1, 1));
    DaysToMonthTable(t.year, t.month);
  }

  lemma DateFitsI32(t: Date)
    requires ValidDate(t) && -9999 <= t.year <= 9999
    ensures I32(t.year) == t.year && I32(t.month) == t.month && I32(t.day) == t.day
  {
  }

  lemma FieldsAtDate(t: Date, days: int, sod: int, rem: int)
    requires ValidDate(t) && DaysFromCivil(t.year, t.month, t.day) == days && -2_000_000 <= days <= 2_000_000
    requires 0 <= sod < 86400 && 0 <= rem < TIMER_HZ
    ensures Reads(FieldsFrom(I32(t.year), I32(t.month), I32(t.day), days, DaysFromCivil(I32(t.year), 1, 1), sod, rem), days, sod, rem)
  {
    YearRange(t);
    DateFitsI32(t);
    YearDay(t);
    FieldsFromMeaning(t, days, DaysFromCivil(t.year, 1, 1), sod, rem);
  }

  lemma FieldsAtMeaning(days: int, sod: int, rem: int)
    requires -2_000_000 <= days <= 2_000_000 && 0 <= sod < 86400 && 0 <= rem < TIMER_HZ
    ensures Reads(FieldsAt(days, sod, rem), days, sod, rem)
  {
    DaysOfCivil(days);
    FieldsAtDate(CivilFromDays(days), days, sod, rem);
  }

  lemma MicrosToTicks(u: int)
    requires 0 <= u < 1000000
    ensures TruncDiv(u * TIMER_HZ, 1000000) == u * 1989 / 32 < TIMER_HZ
  {
  }

  lemma SecondsOfNormal(f: Fields)
    requires Normal(f)
    ensures SecondsOf(f) == DaysFromCivil(f.year, f.mon + 1, f.mday) * 86400 + (f.hour * 3600 + f.min * 60 + f.sec) - UNIX_TO_CAFE_EPOCH
  {
  }

  lemma DaysOfTicks(time: int)
    requires FitsI64(time)
    ensures -2_000_000 <= (time / TIMER_HZ + UNIX_TO_CAFE_EPOCH) / 86400 <= 2_000_000
  {
  }

  // ---- round trips ----

  function UnixSeconds(time: int): int { time / TIMER_HZ + UNIX_TO_CAFE_EPOCH }

  lemma FieldsOfSplit(time: int)
    ensures FieldsOf(time) == FieldsAt(UnixSeconds(time) / 86400, UnixSeconds(time) % 86400, time % TIMER_HZ)
  {
    SplitTicks(time);
    SplitSeconds(UnixSeconds(time));
  }

  /** The conversion reads every 64-bit time as the moment it is. */
  lemma FieldsOfMeaning(time: int)
    requires FitsI64(time)
    ensures Reads(FieldsOf(time), UnixSeconds(time) / 86400, UnixSeconds(time) % 86400, time % TIMER_HZ)
  {
    FieldsOfSplit(time);
    DaysOfTicks(time);
    FieldsAtMeaning(UnixSeconds(time) / 86400, UnixSeconds(time) % 86400, time % TIMER_HZ);
  }

  lemma ReadsBack(f: Fields, days: int, sod: int, rem: int)
    requires Reads(f, days, sod, rem) && 0 <= rem < TIMER_HZ
    ensures SecondsOf(f) == days * 86400 + sod - UNIX_TO_CAFE_EPOCH
    ensures TicksOf(f) == SecondsOf(f) * TIMER_HZ + rem * 32 / 1989 * 1989 / 32
  {
  }

  lemma RemainderRoundTrip(rem: int)
    requires 0 <= rem < TIMER_HZ
    ensures var u := rem * 32 / 1989; 0 <= u < 1000000 && rem - 63 <= u * 1989 / 32 <= rem
  {
  }

  /** Ticks to fields and back keeps the second and turns the ticks within it into whole
      microseconds' worth: it never moves forward and loses at most 63 ticks. */
  lemma TicksRoundTrip(time: int)
    requires FitsI64(time)
    ensures Normal(FieldsOf(time)) && SecondsOf(FieldsOf(time)) == time / TIMER_HZ
    ensures TicksOf(FieldsOf(time)) == time / TIMER_HZ * TIMER_HZ + time % TIMER_HZ * 32 / 1989 * 1989 / 32
    ensures time - 63 <= TicksOf(FieldsOf(time)) <= time
  {
    FieldsOfMeaning(time);
    ReadsBack(FieldsOf(time), UnixSeconds(time) / 86400, UnixSeconds(time) % 86400, time % TIMER_HZ);
    RemainderRoundTrip(time % TIMER_HZ);
  }

  lemma SharpLoss(time: int, back: int)
    requires back == time / TIMER_HZ * TIMER_HZ + time % TIMER_HZ * 32 / 1989 * 1989 / 32
    ensures time % TIMER_HZ == 0 ==> back == time
    ensures time % TIMER_HZ == 808 ==> back == time - 63
  {
  }

  /** Both ends of that bound are reached, in every second. */
  lemma TicksRoundTripIsSharp(time: int)
    requires FitsI64(time)
    ensures time % TIMER_HZ == 0 ==> TicksOf(FieldsOf(time)) == time
    ensures time % TIMER_HZ == 808 ==> TicksOf(FieldsOf(time)) == time - 63
  {
    TicksRoundTrip(time);
    SharpLoss(time, TicksOf(FieldsOf(time)));
  }

  /** The least multiple of TIMER_HZ that fits in 64 bits. */
  const FIRST_WHOLE_SECOND: int := -9223372036830656250

  lemma WholeSecondFits(time: int)
    requires FitsI64(time)
    ensures FitsI64(time / TIMER_HZ * TIMER_HZ) <==> time >= FIRST_WHOLE_SECOND
  {
  }

  /** The product inside the backward conversion stays in 64 bits for every time but those of
      the last incomplete second at the negative end. */
  lemma TicksRoundTripOverflowsExactly(time: int)
    requires FitsI64(time)
    ensures FitsI64(SecondsOf(FieldsOf(time)) * TIMER_HZ) <==> time >= FIRST_WHOLE_SECOND
  {
    TicksRoundTrip(time);
    WholeSecondFits(time);
  }

  lemma SameMoment(f: Fields, g: Fields)
    requires Normal(f) && Normal(g)
    requires DaysFromCivil(f.year, f.mon + 1, f.mday) == DaysFromCivil(g.year, g.mon + 1, g.mday)
    requires f.hour * 3600 + f.min * 60 + f.sec == g.hour * 3600 + g.min * 60 + g.sec
    ensures g.year == f.year && g.mon == f.mon && g.mday == f.mday && g.hour == f.hour && g.min == f.min && g.sec == f.sec
  {
    CivilOfDays(Date(f.year, f.mon + 1, f.mday));
    CivilOfDays(Date(g.year, g.mon + 1, g.mday));
  }

  lemma MicrosRoundTrip(u: int)
    requires 0 <= u < 1000000
    ensures u * 1989 / 32 * 32 / 1989 == if u % 32 == 0 then u else u - 1
  {
  }

  lemma ReadBack(f: Fields, g: Fields)
    requires Normal(f)
    requires Reads(g, DaysFromCivil(f.year, f.mon + 1, f.mday), f.hour * 3600 + f.min * 60 + f.sec, (f.msec * 1000 + f.usec) * 1989 / 32)
    ensures g.year == f.year && g.mon == f.mon && g.mday == f.mday && g.hour == f.hour && g.min == f.min && g.sec == f.sec
    ensures var u := f.msec * 1000 + f.usec; g.msec * 1000 + g.usec == if u % 32 == 0 then u else u - 1
  {
    MicrosRoundTrip(f.msec * 1000 + f.usec);
    SameMoment(f, g);
  }

  lemma WholeAndPart(secs: int, rem: int)
    requires 0 <= rem < TIMER_HZ
    ensures (secs * TIMER_HZ + rem) / TIMER_HZ == secs && (secs * TIMER_HZ + rem) % TIMER_HZ == rem
  {
  }

  lemma DayAndSecond(days: int, sod: int)
    requires 0 <= sod < 86400
    ensures (days * 86400 + sod) / 86400 == days && (days * 86400 + sod) % 86400 == sod
  {
  }

  lemma FieldsOfMoment(time: int, days: int, sod: int, rem: int)
    requires FitsI64(time) && 0 <= sod < 86400 && 0 <= rem < TIMER_HZ
    requires time == (days * 86400 + sod - UNIX_TO_CAFE_EPOCH) * TIMER_HZ + rem
    ensures Reads(FieldsOf(time), days, sod, rem)
  {
    WholeAndPart(days * 86400 + sod - UNIX_TO_CAFE_EPOCH, rem);
    DayAndSecond(days, sod);
    assert UnixSeconds(time) / 86400 == days && UnixSeconds(time) % 86400 == sod;
    FieldsOfMeaning(time);
  }

  lemma NamedMoment(f: Fields)
    requires Normal(f) && FitsI64(TicksOf(f))
    ensures Reads(FieldsOf(TicksOf(f)), DaysFromCivil(f.year, f.mon + 1, f.mday), f.hour * 3600 + f.min * 60 + f.sec,
                  (f.msec * 1000 + f.usec) * 1989 / 32)
  {
    var u := f.msec * 1000 + f.usec;
    MicrosToTicks(u);
    SecondsOfNormal(f);
    FieldsOfMoment(TicksOf(f), DaysFromCivil(f.year, f.mon + 1, f.mday), f.hour * 3600 + f.min * 60 + f.sec, u * 1989 / 32);
  }

  /** Fields to ticks and back is exact from the year to the second; the microseconds come back
      unchanged when divisible by 32 and one smaller otherwise. */
  lemma FieldsRoundTrip(f: Fields)
    requires Normal(f) && FitsI64(TicksOf(f))
    ensures var g := FieldsOf(TicksOf(f));
            var u := f.msec * 1000 + f.usec;
            && g.year == f.year && g.mon == f.mon && g.mday == f.mday
            && g.hour == f.hour && g.min == f.min && g.sec == f.sec
            && g.msec * 1000 + g.usec == if u % 32 == 0 then u else u - 1
  {
    NamedMoment(f);
    ReadBack(f, FieldsOf(TicksOf(f)));
  }

  // ---- where the ticks start ----

  /** The epoch of the ticks is the first of January 2000, counted in seconds from 1970. */
  lemma EpochIsNewYear2000()
    ensures UNIX_TO_CAFE_EPOCH == DaysToYear(2000) * 86400
  {
    DaysToYearClosed(2000);
  }

  lemma DayOfNewYear2000(t: Date)
    requires t.year == 2000 && t.month == 1 && t.day == 1
    ensures ValidDate(t) && DaysFromCivil(t.year, t.month, t.day) == 10957 && DaysToMonth(t.year, t.month) == 0
  {
    ClosedForm(t);
  }

  lemma ReadsAsDate(f: Fields, t: Date, days: int)
    requires Reads(f, days, 0, 0) && ValidDate(t) && DaysFromCivil(t.year, t.month, t.day) == days
    ensures f.year == t.year && f.mon == t.month - 1 && f.mday == t.day && f.wday == (days + 4) % 7
    ensures f.yday == DaysToMonth(t.year, t.month) + t.day - 1
    ensures f.hour == 0 && f.min == 0 && f.sec == 0 && f.msec == 0 && f.usec == 0
  {
    CivilOfDays(t);
    CivilOfDays(Date(f.year, f.mon + 1, f.mday));
  }

  /** Tick 0 reads as the first moment of the year 2000, a Saturday. */
  lemma TickZero(time: int, t: Date)
    requires time == 0 && t.year == 2000 && t.month == 1 && t.day == 1
    ensures FieldsOf(time) == Fields(0, 0, 0, 1, 0, 2000, 6, 0, 0, 0)
  {
    DayOfNewYear2000(t);
    FieldsOfMeaning(time);
    ReadsAsDate(FieldsOf(time), t, 10957);
  }

  /** The backward conversion takes any time of day and any sub-second counts, in range or not, as
      amounts to add to the date; the sub-second ticks are truncated toward zero. */
  lemma TicksOfAnyTime(f: Fields)
    requires ValidDate(Date(f.year, f.mon + 1, f.mday))
    ensures TicksOf(f) ==
            ((DayNumber(Date(f.year, f.mon + 1, f.mday)) - DaysToYear(2000)) * 86400 + f.hour * 3600 + f.min * 60 + f.sec) * TIMER_HZ
            + TruncDiv((f.msec * 1000 + f.usec) * TIMER_HZ, 1000000)
  {
    EpochIsNewYear2000();
    DaysFromCivilCounts(Date(f.year, f.mon + 1, f.mday));
    assert U32(f.mon + 1) == f.mon + 1 && U32(f.mday) == f.mday;
  }

  // ---- the two clocks ----

  /** The host counts at 19.2 MHz; 62156250 / 19200000 is 3315 / 1024. */
  function SystemTimeTicks(arm: nat): nat { U64(arm * 3315) / 1024 }

  /** 10^9 / 62156250 is 32000 / 1989. */
  function NanosOfTicks(t: nat): nat { U64(t * 32000) / 1989 }

  /** The event's timeout in host ticks, by way of nanoseconds. */
  function EventTimeoutTicks(t: int): nat { U64(NanosOfTicks(if t > 0 then t else 0) * 192) / 10000 }

  /** The spinlock's timeout in host ticks, in one step. */
  function SpinTimeoutTicks(t: int): nat { U64((if t > 0 then t else 0) * 1024) / 3315 }

  /** The clock is the exact ratio, rounded down, as long as the product fits in 64 bits and no longer. */
  lemma SystemTimeIsExactRatio(arm: nat)
    requires arm < TWO_64
    ensures SystemTimeTicks(arm) == arm * 3315 / 1024 <==> arm * 3315 < TWO_64
  {
  }

  /** A wrapped product only makes a wait shorter: never more nanoseconds than the ticks last. */
  lemma NanosNeverLonger(t: nat)
    ensures NanosOfTicks(t) * 1989 <= t * 32000
  {
  }

  /** Going through nanoseconds loses at most one host tick against the exact ratio, and so
      against the spinlock's conversion, exactly as long as the first product does not wrap. */
  lemma TimeoutsAgreeExactly(t: int)
    requires FitsI64(t)
    ensures var exact := (if t > 0 then t else 0) * 1024 / 3315;
            (SpinTimeoutTicks(t) == exact && exact - 1 <= EventTimeoutTicks(t) <= exact) <==> t * 32000 < TWO_64
  {
  }

  /** A deadline computed from `t` ticks, wrapped product or not, is reached no later than `t`
      ticks after the start. */
  lemma DeadlineIsNotLate(arm: nat, t: nat)
    requires (arm + EventTimeoutTicks(t)) * 3315 < TWO_64
    ensures SystemTimeTicks(arm) <= SystemTimeTicks(arm + EventTimeoutTicks(t)) <= SystemTimeTicks(arm) + t
  {
  }
}
