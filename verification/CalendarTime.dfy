/** The calendar structure that the game hands in, filled and read in place. */
module CalendarTime {
  import opened Machine
  import opened Calendar
  import opened Ticks

  class OSCalendarTime {
    var sec: int
    var min: int
    var hour: int
    var mday: int
    var mon: int
    var year: int
    var wday: int
    var yday: int
    var msec: int
    var usec: int

    ghost function Value(): Fields
      reads this
    {
      Fields(sec, min, hour, mday, mon, year, wday, yday, msec, usec)
    }
  }

  method CivilFromDaysInto(days: int) returns (y: int, m: int, d: int)
    ensures var t := CivilFromDays(days); y == I32(t.year) && m == I32(t.month) && d == I32(t.day)
    ensures -2_000_000 <= days <= 2_000_000 ==> ValidDate(Date(y, m, d)) && DaysFromCivil(y, m, d) == days
  {
    DaysOfCivil(days);
    var t := CivilFromDays(days);
    if -2_000_000 <= days <= 2_000_000 { YearRange(t); }
    y, m, d := I32(t.year), I32(t.month), I32(t.day);
  }

  method FillIn(ct: OSCalendarTime, y: int, m: int, d: int, days: int, newYear: int, sod: int, rem: int)
    modifies ct
    ensures ct.Value() == FieldsFrom(y, m, d, days, newYear, sod, rem)
  {
    ct.year := y;
    ct.mon := I32(m - 1);
    ct.mday := d;
    ct.hour := I32(sod / 3600);
    ct.min := I32(sod % 3600 / 60);
    ct.sec := I32(sod % 60);
    ct.wday := I32(TruncMod(TruncMod(days, 7) + 11, 7));
    ct.yday := I32(days - newYear);
    var micros := U64(U64(rem) * 1000000) / TIMER_HZ;
    ct.msec := I32(micros / 1000);
    ct.usec := I32(micros % 1000);
  }

  /** A null pointer is ignored; otherwise every field is overwritten. */
  method OSTicksToCalendarTime(time: int, ct: OSCalendarTime?)
    requires FitsI64(time)
    modifies ct
    ensures ct != null ==> ct.Value() == FieldsOf(time)
    ensures ct != null ==> Reads(ct.Value(), UnixSeconds(time) / 86400, UnixSeconds(time) % 86400, time % TIMER_HZ)
  {
    if ct == null { return; }
    var (secs, rem) := FloorSplit(time, TIMER_HZ);
    var (days, sod) := FloorSplit(secs + UNIX_TO_CAFE_EPOCH, 86400);
    assert FieldsOf(time) == FieldsAt(days, sod, rem);
    var y, m, d := CivilFromDaysInto(days);
    FillIn(ct, y, m, d, days, DaysFromCivil(y, 1, 1), sod, rem);
    FieldsOfMeaning(time);
  }

  method OSCalendarTimeToTicks(ct: OSCalendarTime?) returns (ticks: int)
    ensures ticks == if ct == null then 0 else TicksOf(ct.Value())
  {
    if ct == null { return 0; }
    var days := DaysFromCivil(ct.year, U32(ct.mon + 1), U32(ct.mday));
    var unixSecs := days * 86400 + ct.hour * 3600 + ct.min * 60 + ct.sec;
    var cafeSecs := unixSecs - UNIX_TO_CAFE_EPOCH;
    ticks := cafeSecs * TIMER_HZ;
    ticks := ticks + TruncDiv((ct.msec * 1000 + ct.usec) * TIMER_HZ, 1000000);
  }
}
