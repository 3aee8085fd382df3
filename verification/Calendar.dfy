/** Civil dates and day numbers in the proleptic Gregorian calendar (section 3.2.1 of ISO 8601:2004). */
module Calendar {
  import opened Machine

  datatype Date = Date(year: int, month: int, day: int)

  // ---- the code: closed forms on eras of 400 years ----

  /** Day of the year that starts in March. */
  function YearDayOf(m: nat, d: nat): nat { U32(U32(153 * U32(m + (if m > 2 then -3 else 9)) + 2) / 5 + d - 1) }

  function EraDayOf(yoe: nat, doy: nat): nat { U32(yoe * 365 + yoe / 4 - yoe / 100 + doy) }

  function DaysFromCivil(year: int, m: nat, d: nat): int {
    var y := if m <= 2 then year - 1 else year;
    var era := TruncDiv(if y >= 0 then y else y - 399, 400);
    era * 146097 + EraDayOf(U32(y - era * 400), YearDayOf(m, d)) - 719468
  }

  function EraYearOf(doe: nat): nat { U32(doe - doe / 1460 + doe / 36524 - doe / 146096) / 365 }

  function EraDate(era: int, yoe: nat, doy: nat): Date {
    var mp := (5 * doy + 2) / 153;
    var d := U32(doy - (153 * mp + 2) / 5 + 1);
    var m := U32(mp + if mp < 10 then 3 else U32(-9));
    Date(if m <= 2 then yoe + era * 400 + 1 else yoe + era * 400, m, d)
  }

  function EraDateAt(era: int, doe: nat): Date {
    var yoe := EraYearOf(doe);
    EraDate(era, yoe, U32(doe - (365 * yoe + yoe / 4 - yoe / 100)))
  }

  function CivilFromDays(days: int): Date {
    var z := days + 719468;
    var era := TruncDiv(if z >= 0 then z else z - 146096, 146097);
    var doe := U32(z - era * 146097);
    EraDateAt(era, doe)
  }

  // ---- the meaning: counting days ----

  predicate Leap(y: int) { y % 4 == 0 && (y % 100 != 0 || y % 400 == 0) }

  function YearLength(y: int): nat { if Leap(y) then 366 else 365 }

  function MonthLength(y: int, m: int): nat {
    if m == 2 then (if Leap(y) then 29 else 28)
    else if m == 4 || m == 6 || m == 9 || m == 11 then 30
    else 31
  }

  predicate ValidDate(t: Date) { 1 <= t.month <= 12 && 1 <= t.day <= MonthLength(t.year, t.month) }

  /** Days from the first of January 1970 to the first of January of a year, one year at a time. */
  function DaysToYear(y: int): int
    decreases if y >= 1970 then y - 1970 else 1970 - y
  {
    if y == 1970 then 0
    else if y > 1970 then DaysToYear(y - 1) + YearLength(y - 1)
    else DaysToYear(y + 1) - YearLength(y)
  }

  /** Days from the first of January to the first of a month, one month at a time. */
  function DaysToMonth(y: int, m: nat): nat {
    if m <= 1 then 0 else DaysToMonth(y, m - 1) + MonthLength(y, m - 1)
  }

  function DayNumber(t: Date): int
    requires t.month >= 1
  {
    DaysToYear(t.year) + DaysToMonth(t.year, t.month) + t.day - 1
  }

  // ---- DaysFromCivil counts days ----

  /** Leap days up to the end of year `y`, plus 365 days a year. */
  function YearsEnd(y: int): int { 365 * y + y / 4 - y / 100 + y / 400 }

  lemma EraOfYear(y: int)
    ensures TruncDiv(if y >= 0 then y else y - 399, 400) == y / 400
  {
  }

  lemma EraSum(y: int)
    ensures var yoe := y % 400; y / 400 * 146097 + (yoe * 365 + yoe / 4 - yoe / 100) == YearsEnd(y)
  {
    var e, r := y / 400, y % 400;
    assert y == 400 * e + r;
    assert y / 4 == 100 * e + r / 4;
    assert y / 100 == 4 * e + r / 100;
  }

  /** Days before the month in a year that starts in March. */
  function MonthOffset(m: int): int { (153 * (if m > 2 then m - 3 else m + 9) + 2) / 5 }

  lemma YearDayRange(m: nat, d: nat)
    requires 1 <= m <= 12 && 1 <= d <= 31
    ensures YearDayOf(m, d) == MonthOffset(m) + d - 1 <= 367
  {
  }

  function EraDay(yoe: int, doy: int): int { 365 * yoe + yoe / 4 - yoe / 100 + doy }

  lemma EraDayRange(yoe: nat, doy: nat)
    requires yoe < 400 && doy <= 367
    ensures EraDayOf(yoe, doy) == EraDay(yoe, doy)
  {
  }

  lemma ClosedForm(t: Date)
    requires ValidDate(t)
    ensures DaysFromCivil(t.year, t.month, t.day) ==
            YearsEnd(if t.month <= 2 then t.year - 1 else t.year) + MonthOffset(t.month) + t.day - 1 - 719468
  {
    var y := if t.month <= 2 then t.year - 1 else t.year;
    EraOfYear(y);
    EraSum(y);
    YearDayRange(t.month, t.day);
    var doy := YearDayOf(t.month, t.day);
    assert U32(y - y / 400 * 400) == y % 400;
    EraDayRange(y % 400, doy);
  }

  lemma FourSteps(y: int)
    ensures y / 4 == (y - 1) / 4 + if y % 4 == 0 then 1 else 0
  {
  }

  lemma CenturySteps(y: int)
    ensures y / 100 == (y - 1) / 100 + if y % 100 == 0 then 1 else 0
    ensures y % 100 == 0 ==> y % 4 == 0
  {
  }

  lemma EraSteps(y: int)
    ensures y / 400 == (y - 1) / 400 + if y % 400 == 0 then 1 else 0
    ensures y % 400 == 0 ==> y % 100 == 0
  {
  }

  lemma YearGrows(y: int)
    ensures YearsEnd(y) == YearsEnd(y - 1) + YearLength(y)
  {
    FourSteps(y);
    CenturySteps(y);
    EraSteps(y);
  }

  lemma {:induction false} DaysToYearClosed(y: int)
    ensures DaysToYear(y) == YearsEnd(y - 1) - 719162
    decreases if y >= 1970 then y - 1970 else 1970 - y
  {
    if y > 1970 {
      DaysToYearClosed(y - 1);
      YearGrows(y - 1);
    } else if y < 1970 {
      DaysToYearClosed(y + 1);
      YearGrows(y);
    }
  }

  lemma DaysToMonthTable(y: int, m: nat)
    requires 1 <= m <= 12
    ensures DaysToMonth(y, m) + 306 == MonthOffset(m) + (if m <= 2 then 0 else YearLength(y))
  {
    var feb := MonthLength(y, 2);
    assert DaysToMonth(y, 2) == 31;
    assert DaysToMonth(y, 3) == 31 + feb;
    assert DaysToMonth(y, 4) == 62 + feb;
    assert DaysToMonth(y, 5) == 92 + feb;
    assert DaysToMonth(y, 6) == 123 + feb;
    assert DaysToMonth(y, 7) == 153 + feb;
    assert DaysToMonth(y, 8) == 184 + feb;
    assert DaysToMonth(y, 9) == 215 + feb;
    assert DaysToMonth(y, 10) == 245 + feb;
    assert DaysToMonth(y, 11) == 276 + feb;
    assert DaysToMonth(y, 12) == 306 + feb;
  }

  /** The closed form is the naive count, for every year before or after the epoch. */
  lemma DaysFromCivilCounts(t: Date)
    requires ValidDate(t)
    ensures DaysFromCivil(t.year, t.month, t.day) == DayNumber(t)
  {
    ClosedForm(t);
    DaysToYearClosed(t.year);
    DaysToMonthTable(t.year, t.month);
    YearGrows(t.year);
  }

  // ---- CivilFromDays inverts it ----

  /** A day of the era, as year of the era (from March) and day of that year. */
  predicate ValidEraDay(yoe: int, doy: int) {
    0 <= yoe < 400 && 0 <= doy < if Leap(yoe + 1) then 366 else 365
  }

  lemma EraParts(yoe: int)
    requires 0 <= yoe < 400
    ensures var c, q, r := yoe / 100, yoe % 100 / 4, yoe % 4;
            && yoe == 100 * c + 4 * q + r && 0 <= c <= 3 && 0 <= q <= 24 && 0 <= r <= 3
            && yoe / 4 == 25 * c + q
  {
  }

  lemma CenturyPart(c: int, q: int, r: int, doy: int)
    requires 0 <= c <= 3 && 0 <= q <= 24 && 0 <= r <= 3 && 0 <= doy <= 365
    requires doy == 365 ==> r == 3 && (q == 24 ==> c == 3)
    ensures var doe := 36524 * c + 1461 * q + 365 * r + doy;
            0 <= doe < 146097 && doe / 36524 - doe / 146096 == c
  {
  }

  lemma CyclePart(c: int, q: int, r: int, doy: int)
    requires 0 <= c <= 3 && 0 <= q <= 24 && 0 <= r <= 3 && 0 <= doy <= 365 && (doy == 365 ==> r == 3)
    ensures var doe := 36524 * c + 1461 * q + 365 * r + doy;
            (doe - doe / 1460 + c) / 365 == 100 * c + 4 * q + r
  {
  }

  /** The 366th day exists only at the end of a four-year cycle, and in the last one of a
      century only in the last century. */
  lemma LastDayOfYear(c: int, q: int, r: int, doy: int)
    requires 0 <= c <= 3 && 0 <= q <= 24 && 0 <= r <= 3 && ValidEraDay(100 * c + 4 * q + r, doy)
    ensures doy == 365 ==> r == 3 && (q == 24 ==> c == 3)
  {
  }

  /** The year of the era comes out of the day of the era. */
  lemma YearOfEra(yoe: int, doy: int)
    requires ValidEraDay(yoe, doy)
    ensures var doe := EraDay(yoe, doy);
            0 <= doe < 146097 && (doe - doe / 1460 + doe / 36524 - doe / 146096) / 365 == yoe
  {
    var c, q, r := yoe / 100, yoe % 100 / 4, yoe % 4;
    EraParts(yoe);
    LastDayOfYear(c, q, r, doy);
    CenturyPart(c, q, r, doy);
    CyclePart(c, q, r, doy);
  }

  /** The day of a month that starts `(153 * mp + 2) / 5` days into the year. */
  predicate ValidMonthDay(mp: int, day: int) {
    && 0 <= mp <= 11 && 1 <= day
    && (153 * mp + 2) / 5 + day - 1 < if mp == 11 then 366 else (153 * (mp + 1) + 2) / 5
  }

  lemma MonthOfYear(mp: int, day: int)
    requires ValidMonthDay(mp, day)
    ensures (5 * ((153 * mp + 2) / 5 + day - 1) + 2) / 153 == mp
  {
  }

  lemma EraDateMeaning(era: int, yoe: nat, mp: int, day: int)
    requires ValidMonthDay(mp, day)
    ensures EraDate(era, yoe, (153 * mp + 2) / 5 + day - 1) ==
            var y := era * 400 + yoe; if mp < 10 then Date(y, mp + 3, day) else Date(y + 1, mp - 9, day)
  {
    MonthOfYear(mp, day);
  }

  lemma EraOfDay(z: int, era: int, doe: int)
    requires z == era * 146097 + doe && 0 <= doe < 146097
    ensures TruncDiv(if z >= 0 then z else z - 146096, 146097) == era
  {
  }

  lemma CivilFromDaysAt(n: int, era: int, doe: nat)
    requires doe < 146097 && n + 719468 == era * 146097 + doe
    ensures CivilFromDays(n) == EraDateAt(era, doe)
  {
    EraOfDay(n + 719468, era, doe);
  }

  lemma EraYearRange(doe: nat)
    requires doe < 146097
    ensures EraYearOf(doe) == (doe - doe / 1460 + doe / 36524 - doe / 146096) / 365
  {
  }

  lemma EraDateAtYear(era: int, doe: nat, yoe: nat, doy: nat)
    requires doe < 146097 && doe == EraDay(yoe, doy) && doy <= 366
    requires (doe - doe / 1460 + doe / 36524 - doe / 146096) / 365 == yoe
    ensures EraDateAt(era, doe) == EraDate(era, yoe, doy)
  {
    EraYearRange(doe);
  }

  lemma CivilFromEraDay(n: int, era: int, yoe: nat, doy: nat)
    requires ValidEraDay(yoe, doy) && n + 719468 == era * 146097 + EraDay(yoe, doy)
    ensures CivilFromDays(n) == EraDate(era, yoe, doy)
  {
    YearOfEra(yoe, doy);
    EraDateAtYear(era, EraDay(yoe, doy), yoe, doy);
    CivilFromDaysAt(n, era, EraDay(yoe, doy));
  }

  lemma MonthDayFits(t: Date, mp: int)
    requires ValidDate(t) && mp == if t.month <= 2 then t.month + 9 else t.month - 3
    ensures ValidMonthDay(mp, t.day) && MonthOffset(t.month) == (153 * mp + 2) / 5
    ensures 0 <= MonthOffset(t.month) + t.day - 1 < if t.month == 2 && Leap(t.year) then 366 else 365
  {
  }

  lemma SameMod4(e: int, r: int)
    ensures (400 * e + r) % 4 == r % 4
  {
    assert 400 * e + r == 4 * (100 * e + r / 4) + r % 4;
  }

  lemma SameMod100(e: int, r: int)
    ensures (400 * e + r) % 100 == r % 100
  {
  }

  lemma SameMod400(e: int, r: int)
    ensures (400 * e + r) % 400 == r % 400
  {
  }

  lemma EraLeap(y: int)
    ensures Leap(y % 400 + 1) == Leap(y + 1)
  {
    var e, r := y / 400, y % 400 + 1;
    assert y + 1 == 400 * e + r;
    SameMod4(e, r);
    SameMod100(e, r);
    SameMod400(e, r);
  }

  lemma DateParts(t: Date) returns (era: int, yoe: nat, mp: nat)
    requires ValidDate(t)
    ensures ValidMonthDay(mp, t.day) && ValidEraDay(yoe, (153 * mp + 2) / 5 + t.day - 1)
    ensures t == var y := era * 400 + yoe; if mp < 10 then Date(y, mp + 3, t.day) else Date(y + 1, mp - 9, t.day)
    ensures DaysFromCivil(t.year, t.month, t.day) == era * 146097 + EraDay(yoe, (153 * mp + 2) / 5 + t.day - 1) - 719468
  {
    var y := if t.month <= 2 then t.year - 1 else t.year;
    mp := if t.month <= 2 then t.month + 9 else t.month - 3;
    era, yoe := y / 400, y % 400;
    ClosedForm(t);
    EraSum(y);
    EraLeap(y);
    MonthDayFits(t, mp);
  }

  lemma CivilOfParts(n: int, era: int, yoe: nat, mp: nat, day: int)
    requires ValidMonthDay(mp, day) && ValidEraDay(yoe, (153 * mp + 2) / 5 + day - 1)
    requires n == era * 146097 + EraDay(yoe, (153 * mp + 2) / 5 + day - 1) - 719468
    ensures CivilFromDays(n) == var y := era * 400 + yoe; if mp < 10 then Date(y, mp + 3, day) else Date(y + 1, mp - 9, day)
  {
    CivilFromEraDay(n, era, yoe, (153 * mp + 2) / 5 + day - 1);
    EraDateMeaning(era, yoe, mp, day);
  }

  /** Converting a valid date to a day number and back gives the date. */
  lemma CivilOfDays(t: Date)
    requires ValidDate(t)
    ensures CivilFromDays(DaysFromCivil(t.year, t.month, t.day)) == t
  {
    var era, yoe, mp := DateParts(t);
    CivilOfParts(DaysFromCivil(t.year, t.month, t.day), era, yoe, mp, t.day);
  }

  lemma DayOfMonth(doy: int)
    requires 0 <= doy < 366
    ensures var mp := (5 * doy + 2) / 153;
            var day := doy - (153 * mp + 2) / 5 + 1;
            ValidMonthDay(mp, day)
  {
  }

  lemma DateOfYearDay(y: int, doy: int) returns (t: Date)
    requires 0 <= doy < if Leap(y + 1) then 366 else 365
    ensures ValidDate(t) && y == (if t.month <= 2 then t.year - 1 else t.year)
    ensures MonthOffset(t.month) + t.day - 1 == doy
  {
    DayOfMonth(doy);
    var mp := (5 * doy + 2) / 153;
    var day := doy - (153 * mp + 2) / 5 + 1;
    t := if mp < 10 then Date(y, mp + 3, day) else Date(y + 1, mp - 9, day);
  }

  lemma DateOfEraDay(era: int, yoe: int, doy: int) returns (t: Date)
    requires ValidEraDay(yoe, doy)
    ensures ValidDate(t) && DaysFromCivil(t.year, t.month, t.day) == era * 146097 + EraDay(yoe, doy) - 719468
  {
    var y := era * 400 + yoe;
    assert y / 400 == era && y % 400 == yoe;
    EraLeap(y);
    t := DateOfYearDay(y, doy);
    ClosedForm(t);
    EraSum(y);
  }

  lemma SplitEraDay(doe: int) returns (yoe: int, doy: int)
    requires 0 <= doe < 146097
    ensures ValidEraDay(yoe, doy) && EraDay(yoe, doy) == doe
  {
    var c := if doe == 146096 then 3 else doe / 36524;
    var inCentury := doe - 36524 * c;
    var q := inCentury / 1461;
    var inCycle := inCentury - 1461 * q;
    var r := if inCycle == 1460 then 3 else inCycle / 365;
    yoe, doy := 100 * c + 4 * q + r, inCycle - 365 * r;
    assert yoe / 4 == 25 * c + q && yoe / 100 == c;
    var y := yoe + 1;
    if doy == 365 {
      assert r == 3 && y == 100 * c + 4 * (q + 1);
      assert q == 24 ==> c == 3;
      assert q < 24 ==> y % 100 == 4 * (q + 1);
    }
  }

  /** Every integer is the day number of a valid date, and `CivilFromDays` finds it. */
  lemma DaysOfCivil(z: int)
    ensures var t := CivilFromDays(z); ValidDate(t) && DaysFromCivil(t.year, t.month, t.day) == z
  {
    var n := z + 719468;
    var yoe, doy := SplitEraDay(n % 146097);
    var t := DateOfEraDay(n / 146097, yoe, doy);
    CivilOfDays(t);
  }
}
