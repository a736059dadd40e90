/** The civil calendar of kernel/exceptions/timer.c: day numbers counted from 1970-01-01,
    dates of the Gregorian calendar, and the conversions between them. */
module Calendar {
  datatype Date = Date(y: int, m: nat, d: nat)

  // The calendar itself

  predicate Leap(y: int) { y % 4 == 0 && (y % 100 != 0 || y % 400 == 0) }

  function DaysIn(y: int, m: nat): nat {
    if m == 2 then (if Leap(y) then 29 else 28)
    else if m == 4 || m == 6 || m == 9 || m == 11 then 30 else 31
  }

  predicate ValidDate(t: Date) { 1 <= t.m <= 12 && 1 <= t.d <= DaysIn(t.y, t.m) }

  function NextDay(t: Date): Date {
    if t.d < DaysIn(t.y, t.m) then t.(d := t.d + 1)
    else if t.m < 12 then Date(t.y, t.m + 1, 1)
    else Date(t.y + 1, 1, 1)
  }

  // The two conversions

  /** C division. */
  function Quot(a: int, b: int): int
    requires b > 0
  {
    if a >= 0 then a / b else -((-a) / b)
  }

  function DayOfEra(yoe: int, doy: int): int { yoe * 365 + yoe / 4 - yoe / 100 + yoe / 400 + doy }

  function YearOfEra(doe: int): int { (doe - doe / 1460 + doe / 36524 - doe / 146096) / 365 }

  /** Days from 1 March to the first day of the month mp months later. */
  function MonthStart(mp: int): int { (153 * mp + 2) / 5 }

  function MonthOf(mp: int): int { if mp < 10 then mp + 3 else mp - 9 }

  function MarchMonth(m: int): int { if m > 2 then m - 3 else m + 9 }

  /** days_from_civil */
  function Days(t: Date): int {
    var y := t.y - if t.m <= 2 then 1 else 0;
    var era := Quot(if y >= 0 then y else y - 399, 400);
    var yoe := y - era * 400;
    var doy := MonthStart(MarchMonth(t.m)) + t.d - 1;
    era * 146097 + DayOfEra(yoe, doy) - 719468
  }

  /** The date of day doy of the March year yoe of an era. */
  function FromMarch(era: int, yoe: int, doy: int): (int, int, int) {
    var mp := (5 * doy + 2) / 153;
    var dd := doy - MonthStart(mp) + 1;
    var mm := MonthOf(mp);
    (yoe + era * 400 + (if mm <= 2 then 1 else 0), mm, dd)
  }

  /** civil_from_days, as year, month and day. */
  function CivilParts(n: int): (int, int, int) {
    var z := n + 719468;
    var era := Quot(if z >= 0 then z else z - 146096, 146097);
    var doe := z - era * 146097;
    var yoe := YearOfEra(doe);
    FromMarch(era, yoe, doe - DayOfEra(yoe, 0))
  }

  function Civil(n: int): (t: Date)
    ensures ValidDate(t) && Days(t) == n
  {
    CivilIsValid(n);
    var (y, m, d) := CivilParts(n);
    Date(y, m, d)
  }

  // Proofs

  lemma Divide(x: int, d: int, k: int, r: int)
    requires d > 0 && x == k * d + r && 0 <= r < d
    ensures x / d == k && x % d == r
  {
    var a := x / d - k;
    assert a * d == r - x % d;
    assert (a >= 1 ==> a * d >= d) && (a <= -1 ==> a * d <= -d);
  }

  /** Adding before a C division rounds down. */
  lemma EraIs(z: int, days: int)
    requires days > 0
    ensures Quot(if z >= 0 then z else z - (days - 1), days) == z / days
  {
    if z < 0 {
      var k, r := z / days, z % days;
      var x := -(z - (days - 1));
      assert x == (-k) * days + (days - 1 - r);
      Divide(x, days, -k, days - 1 - r);
    }
  }

  /** Years and days of a 400-year era, counted from 1 March of a year 0. */
  lemma YearBack(c: int, q: int, r: int, doy: int)
    requires 0 <= c <= 3 && 0 <= q <= 24 && 0 <= r <= 3 && 0 <= doy <= 365
    requires doy == 365 ==> r == 3 && (q < 24 || c == 3)
    ensures DayOfEra(100 * c + 4 * q + r, doy) == 36524 * c + 1461 * q + 365 * r + doy
    ensures YearOfEra(36524 * c + 1461 * q + 365 * r + doy) == 100 * c + 4 * q + r
  {
    var doe := 36524 * c + 1461 * q + 365 * r + doy;
    var y := 100 * c + 4 * q + r;
    Divide(y, 4, 25 * c + q, r);
    Divide(y, 100, c, 4 * q + r);
    Divide(y, 400, 0, y);
    var e := 24 * c + q + 365 * r + doy;
    var t := if e >= 1460 then 1 else 0;
    Divide(doe, 1460, 25 * c + q + t, e - 1460 * t);
    if q == 24 && r == 3 && doy == 365 {
      assert doe == 146096;
    } else {
      Divide(doe, 36524, c, 1461 * q + 365 * r + doy);
      Divide(doe, 146096, 0, doe);
    }
    Divide(doe - doe / 1460 + doe / 36524 - doe / 146096, 365, y, doy - t);
  }

  /** The last day of a March year exists when the next year is a leap year. */
  predicate HasDay(yoe: int, doy: int) { 0 <= yoe < 400 && 0 <= doy <= 365 && (doy == 365 ==> Leap(yoe + 1)) }

  lemma YearOfDay(yoe: int, doy: int)
    requires HasDay(yoe, doy)
    ensures 0 <= DayOfEra(yoe, doy) < 146097 && YearOfEra(DayOfEra(yoe, doy)) == yoe
  {
    hide DayOfEra, YearOfEra;
    var c, q, r := yoe / 100, yoe % 100 / 4, yoe % 4;
    assert yoe == 100 * c + 4 * q + r;
    YearBack(c, q, r, doy);
  }

  /** Centuries, groups of four years, years and days of an era. */
  lemma SplitEra(doe: int) returns (c: int, q: int, r: int, doy: int)
    requires 0 <= doe < 146097
    ensures 0 <= c <= 3 && 0 <= q <= 24 && 0 <= r <= 3 && 0 <= doy <= 365
    ensures doe == 36524 * c + 1461 * q + 365 * r + doy && (doy == 365 ==> r == 3 && (q < 24 || c == 3))
  {
    c := if doe / 36524 > 3 then 3 else doe / 36524;
    var x := doe - 36524 * c;
    assert 0 <= x <= 36524 && (x == 36524 ==> c == 3);
    q := if x / 1461 > 24 then 24 else x / 1461;
    var w := x - 1461 * q;
    assert 0 <= w <= 1460;
    r := if w / 365 > 3 then 3 else w / 365;
    doy := w - 365 * r;
  }

  lemma LeapAfter(c: int, q: int)
    requires 0 <= c <= 3 && 0 <= q <= 24 && (q < 24 || c == 3)
    ensures Leap(100 * c + 4 * q + 4)
  {
    var y := 100 * c + 4 * q + 4;
    Divide(y, 4, 25 * c + q + 1, 0);
    if q < 24 { Divide(y, 100, c, 4 * q + 4); }
  }

  lemma DayOfEraAdds(yoe: int, doy: int)
    ensures DayOfEra(yoe, doy) == DayOfEra(yoe, 0) + doy
  {
  }

  lemma DayOfYear(doe: int)
    requires 0 <= doe < 146097
    ensures HasDay(YearOfEra(doe), doe - DayOfEra(YearOfEra(doe), 0))
  {
    hide DayOfEra, YearOfEra, Leap;
    var c, q, r, doy := SplitEra(doe);
    YearBack(c, q, r, doy);
    DayOfEraAdds(100 * c + 4 * q + r, doy);
    if doy == 365 { LeapAfter(c, q); }
  }

  lemma MonthBack(mp: int, k: int)
    requires 0 <= mp <= 11 && 0 <= k < MonthStart(mp + 1) - MonthStart(mp)
    ensures (5 * (MonthStart(mp) + k) + 2) / 153 == mp
  {
    var x := 5 * (MonthStart(mp) + k) + 2;
    Divide(x, 153, mp, x - 153 * mp);
  }

  lemma MonthLength(y: int, mp: int)
    requires 0 <= mp <= 11
    ensures mp < 11 ==> DaysIn(y, MonthOf(mp)) == MonthStart(mp + 1) - MonthStart(mp)
    ensures mp == 11 ==> MonthOf(mp) == 2 && MonthStart(11) == 337 && MonthStart(12) == 367
    ensures MarchMonth(MonthOf(mp)) == mp && 1 <= MonthOf(mp) <= 12
  {
  }

  lemma LeapShift(y: int, era: int)
    ensures Leap(y + 400 * era) == Leap(y)
  {
    var x := y + 400 * era;
    Divide(x, 400, y / 400 + era, y % 400);
    Divide(x, 100, y / 100 + 4 * era, y % 100);
    Divide(x, 4, y / 4 + 100 * era, y % 4);
  }

  /** The conversion of a day number, given the era, year and day it falls into. */
  lemma PartsOf(n: int, era: int, yoe: int, doy: int)
    requires HasDay(yoe, doy) && n + 719468 == era * 146097 + DayOfEra(yoe, doy)
    ensures CivilParts(n) == FromMarch(era, yoe, doy)
  {
    hide YearOfEra, MonthStart, FromMarch, HasDay, DayOfEra, Quot;
    YearOfDay(yoe, doy);
    DayOfEraAdds(yoe, doy);
    var z, doe := n + 719468, DayOfEra(yoe, doy);
    EraIs(z, 146097);
    Divide(z, 146097, era, doe);
  }

  lemma InEra(n: int) returns (era: int, yoe: int, doy: int)
    ensures HasDay(yoe, doy) && n + 719468 == era * 146097 + DayOfEra(yoe, doy)
  {
    hide YearOfEra, HasDay, DayOfEra;
    var z := n + 719468;
    era := z / 146097;
    var doe := z % 146097;
    DayOfYear(doe);
    yoe := YearOfEra(doe);
    doy := doe - DayOfEra(yoe, 0);
    DayOfEraAdds(yoe, doy);
  }

  /** A day of a March year is a valid date. */
  lemma FromMarchValid(era: int, yoe: int, doy: int)
    requires HasDay(yoe, doy)
    ensures var (y, m, d) := FromMarch(era, yoe, doy);
            && 1 <= m <= 12 && d >= 1 && ValidDate(Date(y, m, d))
            && MonthStart(MarchMonth(m)) + d - 1 == doy && y - (if m <= 2 then 1 else 0) == yoe + era * 400
  {
    hide Leap;
    var mp := (5 * doy + 2) / 153;
    assert 0 <= mp <= 11 && MonthStart(mp) <= doy < MonthStart(mp + 1);
    var (y, m, d) := FromMarch(era, yoe, doy);
    MonthLength(y, mp);
    LeapShift(yoe + 1, era);
  }

  lemma DaysFromMarch(t: Date, era: int, yoe: int, doy: int)
    requires t.y - (if t.m <= 2 then 1 else 0) == yoe + era * 400 && MonthStart(MarchMonth(t.m)) + t.d - 1 == doy
    requires 0 <= yoe < 400
    ensures Days(t) + 719468 == era * 146097 + DayOfEra(yoe, doy)
  {
    hide MonthStart, DayOfEra;
    var march := yoe + era * 400;
    EraIs(march, 400);
    Divide(march, 400, era, yoe);
  }

  /** Every day number is the number of a valid date. */
  lemma CivilIsValid(n: int)
    ensures var (y, m, d) := CivilParts(n); m >= 0 && d >= 0 && ValidDate(Date(y, m, d)) && Days(Date(y, m, d)) == n
  {
    hide CivilParts, FromMarch, Days, ValidDate, DayOfEra, MonthStart;
    var era, yoe, doy := InEra(n);
    PartsOf(n, era, yoe, doy);
    FromMarchValid(era, yoe, doy);
    var (y, m, d) := CivilParts(n);
    DaysFromMarch(Date(y, m, d), era, yoe, doy);
  }

  /** And every valid date is the date of its day number. */
  lemma CivilOfDays(t: Date)
    requires ValidDate(t)
    ensures Civil(Days(t)) == t
  {
    hide Days, CivilParts, DayOfEra, Leap;
    var march := t.y - if t.m <= 2 then 1 else 0;
    var mp, era, yoe := MarchMonth(t.m), march / 400, march % 400;
    var doy := MonthStart(mp) + t.d - 1;
    MonthLength(t.y, mp);
    LeapShift(yoe + 1, era);
    DaysFromMarch(t, era, yoe, doy);
    PartsOf(Days(t), era, yoe, doy);
    MonthBack(mp, t.d - 1);
  }

  /** Consecutive dates have consecutive numbers, and the first of 1970 has number 0. */
  lemma DaysOfNext(t: Date)
    requires ValidDate(t)
    ensures ValidDate(NextDay(t)) && Days(NextDay(t)) == Days(t) + 1
  {
    hide Days, MarchDays, Leap;
    var march := t.y - if t.m <= 2 then 1 else 0;
    MonthLength(t.y, MarchMonth(t.m));
    DaysAre(t);
    DaysAre(NextDay(t));
    MarchYearLength(march);
  }

  /** Days from 1 March of year 0 to 1 March of year y. */
  function MarchDays(y: int): int { 365 * y + y / 4 - y / 100 + y / 400 }

  lemma DaysAre(t: Date)
    ensures Days(t) == MarchDays(t.y - if t.m <= 2 then 1 else 0) + MonthStart(MarchMonth(t.m)) + t.d - 1 - 719468
  {
    var y := t.y - if t.m <= 2 then 1 else 0;
    EraIs(y, 400);
    var era, yoe := y / 400, y % 400;
    Divide(y, 4, 100 * era + yoe / 4, yoe % 4);
    Divide(y, 100, 4 * era + yoe / 100, yoe % 100);
  }

  lemma MarchYearLength(y: int)
    ensures MarchDays(y + 1) - MarchDays(y) == 365 + if Leap(y + 1) then 1 else 0
  {
    StepQuotient(y, 4);
    StepQuotient(y, 100);
    StepQuotient(y, 400);
  }

  lemma StepQuotient(y: int, d: int)
    requires d > 1
    ensures (y + 1) / d - y / d == if (y + 1) % d == 0 then 1 else 0
  {
    var k, r := y / d, y % d;
    if r == d - 1 {
      Divide(y + 1, d, k + 1, 0);
    } else {
      Divide(y + 1, d, k, r + 1);
    }
  }

  lemma EpochIsZero()
    ensures Days(Date(1970, 1, 1)) == 0 && Civil(0) == Date(1970, 1, 1)
  {
    hide Civil;
    CivilOfDays(Date(1970, 1, 1));
  }

  /** So Civil counts days as the calendar does. */
  lemma CivilCounts(n: int)
    ensures Civil(n + 1) == NextDay(Civil(n))
  {
    hide Days, CivilParts, NextDay;
    DaysOfNext(Civil(n));
    CivilOfDays(NextDay(Civil(n)));
  }

  // Date and time

  datatype DateTime = DateTime(year: nat, month: nat, day: nat, hour: nat, minute: nat, second: nat)

  /** The offset of local time, in minutes, as a 32-bit integer. */
  type Offset = tz: int | -0x8000_0000 <= tz < 0x8000_0000

  function Shift(local: bool, tz: Offset): int { if local then tz * 60 * 1000 else 0 }

  function Clip(ms: int): nat { if ms < 0 then 0 else ms }

  /** The date and time of a number of seconds; the year is kept in 16 bits. */
  function AtSecond(sec: nat): DateTime {
    var sod := sec % 86400;
    var t := Civil(sec / 86400);
    DateTime(t.y % 65536, t.m, t.d, sod / 3600, sod % 3600 / 60, sod % 60)
  }

  /** timer_unix_ms_to_datetime */
  function ToDateTime(unixMs: nat, local: bool, tz: Offset): DateTime {
    var ms := Clip(unixMs + Shift(local, tz));
    AtSecond(ms / 1000)
  }

  /** timer_datetime_to_unix_ms */
  function ToUnixMs(t: DateTime, local: bool, tz: Offset): nat {
    var y := if t.year < 1970 then 1970 else t.year;
    var m := if 1 <= t.month <= 12 then t.month else 1;
    var d := if 1 <= t.day <= 31 then t.day else 1;
    var h := if t.hour <= 23 then t.hour else 0;
    var min := if t.minute <= 59 then t.minute else 0;
    var s := if t.second <= 59 then t.second else 0;
    var days := Days(Date(y, m, d));
    var sec := (if days >= 0 then days else 0) * 86400 + h * 3600 + min * 60 + s;
    Clip(sec * 1000 - Shift(local, tz))
  }

  /** A field out of range counts as its least value, a year before 1970 as 1970. */
  lemma DateMended(t: DateTime, local: bool, tz: Offset)
    ensures t.year < 1970 ==> ToUnixMs(t, local, tz) == ToUnixMs(t.(year := 1970), local, tz)
    ensures t.month !in {1, 2, 3, 4, 5, 6, 7, 8, 9, 10, 11, 12} ==>
              ToUnixMs(t, local, tz) == ToUnixMs(t.(month := 1), local, tz)
    ensures t.day == 0 || t.day > 31 ==> ToUnixMs(t, local, tz) == ToUnixMs(t.(day := 1), local, tz)
  {
    hide Days, Shift, Clip;
  }

  lemma TimeMended(t: DateTime, local: bool, tz: Offset)
    ensures t.hour > 23 ==> ToUnixMs(t, local, tz) == ToUnixMs(t.(hour := 0), local, tz)
    ensures t.minute > 59 ==> ToUnixMs(t, local, tz) == ToUnixMs(t.(minute := 0), local, tz)
    ensures t.second > 59 ==> ToUnixMs(t, local, tz) == ToUnixMs(t.(second := 0), local, tz)
  {
    hide Days, Shift, Clip;
  }

  /** A day past the end of its month runs on into the next. */
  lemma DaysRunOn(y: int, m: nat, d: nat)
    requires 1 <= m <= 12 && 1 <= d <= 31
    ensures Days(Date(y, m, d)) == Days(Date(y, m, 1)) + d - 1
  {
  }

  lemma {:induction false} DaysIncrease(y: int, z: int, m: nat, d: nat)
    requires y < z
    ensures Days(Date(y, m, d)) < Days(Date(z, m, d))
    decreases z - y
  {
    if y + 1 < z { DaysIncrease(y + 1, z, m, d); }
    DaysAre(Date(y, m, d));
    DaysAre(Date(y + 1, m, d));
    MarchYearLength(y - if m <= 2 then 1 else 0);
  }

  /** No date before 1970 has a day number of 0 or more. */
  lemma YearFrom1970(n: nat)
    ensures Civil(n).y >= 1970
  {
    hide CivilParts, Days;
    var t := Civil(n);
    if t.y < 1970 { BeforeEpoch(t); }
  }

  lemma BeforeEpoch(t: Date)
    requires ValidDate(t) && t.y < 1970
    ensures Days(t) < 0
  {
    hide Days, Leap;
    EpochIsZero();
    DaysAre(t);
    DaysAre(Date(t.y + 1, 1, 1));
    if t.y + 1 < 1970 { DaysIncrease(t.y + 1, 1970, 1, 1); }
    MarchYearLength(t.y - 1);
    MonthLength(t.y, MarchMonth(t.m));
  }

  lemma SecondsBack(sod: nat)
    requires sod < 86400
    ensures sod / 3600 <= 23 && sod % 3600 / 60 <= 59 && sod % 60 <= 59
    ensures sod / 3600 * 3600 + sod % 3600 / 60 * 60 + sod % 60 == sod
  {
  }

  /** Converting to a date and back loses the milliseconds and nothing else, exactly when
      the local time is not before the epoch, where it is clipped, and its year fits the
      field. */
  lemma DateTimeRoundTrip(unixMs: nat, local: bool, tz: Offset)
    ensures ToUnixMs(ToDateTime(unixMs, local, tz), local, tz) == unixMs / 1000 * 1000 <==>
            && unixMs + Shift(local, tz) >= 0
            && Civil((unixMs + Shift(local, tz)) / 1000 / 86400).y <= 65535
  {
    hide Civil, Days, Shift, AtSecond, ToUnixMs;
    var shift := Shift(local, tz);
    ShiftWhole(unixMs, local, tz);
    if unixMs + shift < 0 {
      ClippedDate(unixMs, local, tz);
    } else {
      var sec := (unixMs + shift) / 1000;
      if Civil(sec / 86400).y <= 65535 { FitsBack(sec, local, tz); } else { WrapsBack(sec, local, tz); }
    }
  }

  lemma FitsBack(sec: nat, local: bool, tz: Offset)
    requires Civil(sec / 86400).y <= 65535
    ensures ToUnixMs(AtSecond(sec), local, tz) == Clip(sec * 1000 - Shift(local, tz))
  {
    hide Civil, Days, Shift, Clip;
    SecondsBack(sec % 86400);
    YearFrom1970(sec / 86400);
    DateLimits(sec / 86400);
  }

  /** A year past the field comes back as an earlier one. */
  lemma WrapsBack(sec: nat, local: bool, tz: Offset)
    requires Civil(sec / 86400).y > 65535
    ensures ToUnixMs(AtSecond(sec), local, tz) <= Clip((sec - 86400) * 1000 - Shift(local, tz))
    ensures sec / 86400 > 1491310
  {
    hide Civil, Days, Shift;
    SecondsBack(sec % 86400);
    DateLimits(sec / 86400);
    var t := Civil(sec / 86400);
    var y := if t.y % 65536 < 1970 then 1970 else t.y % 65536;
    DaysIncrease(y, t.y, t.m, t.d);
    AfterEpoch(Date(y, t.m, t.d));
    FarAhead(t);
  }

  /** The offset is a whole number of seconds, of less than 4084 years. */
  lemma ShiftWhole(unixMs: nat, local: bool, tz: Offset)
    ensures var shift := Shift(local, tz);
            && (unixMs + shift) / 1000 * 1000 - shift == unixMs / 1000 * 1000
            && shift % 1000 == 0 && shift / 1000 / 86400 < 1491309 && (shift + 999) / 1000 == shift / 1000
  {
    var k := if local then tz * 60 else 0;
    assert Shift(local, tz) == k * 1000;
    Divide(unixMs + k * 1000, 1000, unixMs / 1000 + k, unixMs % 1000);
  }

  lemma ClippedDate(unixMs: nat, local: bool, tz: Offset)
    requires unixMs + Shift(local, tz) < 0
    ensures ToUnixMs(ToDateTime(unixMs, local, tz), local, tz) == -Shift(local, tz) > unixMs
  {
    hide Civil, Days, Shift;
    EpochIsZero();
  }

  /** No offset reaches a year past the field. */
  lemma FarAhead(t: Date)
    requires t.y > 65535 && 1 <= t.m <= 12 && t.d >= 1
    ensures Days(t) > 1491310
  {
    hide Days;
    DaysIncrease(6100, t.y, t.m, t.d);
    DaysAre(Date(6100, t.m, t.d));
    assert MarchDays(6099) == 2227614 && MarchDays(6100) == 2227979;
  }

  /** One hour behind, the epoch comes back as one hour past it. */
  lemma ClippedExample()
    ensures ToUnixMs(ToDateTime(0, true, -60), true, -60) == 3600000
  {
    ClippedDate(0, true, -60);
  }

  lemma AfterEpoch(t: Date)
    requires t.y >= 1970 && 1 <= t.m <= 12 && t.d >= 1
    ensures Days(t) >= 0
  {
    hide Days;
    DaysAre(Date(1970, t.m, t.d));
    assert MarchDays(1969) == 719162 && MarchDays(1970) == 719527 && MonthStart(10) == 306 && MonthStart(11) == 337;
    if t.y > 1970 { DaysIncrease(1970, t.y, t.m, t.d); }
  }

  lemma DateLimits(n: int)
    ensures var t := Civil(n); 1 <= t.m <= 12 && 1 <= t.d <= 31 && t == Date(t.y, t.m, t.d) && Days(t) == n
  {
    hide CivilParts, Days;
  }

  function Seconds(t: DateTime): int {
    Days(Date(t.year, t.month, t.day)) * 86400 + t.hour * 3600 + t.minute * 60 + t.second
  }

  ghost predicate ValidTime(t: DateTime) {
    && 1970 <= t.year <= 65535 && ValidDate(Date(t.year, t.month, t.day))
    && t.hour <= 23 && t.minute <= 59 && t.second <= 59
  }

  lemma SecondsOf(t: DateTime)
    requires ValidTime(t)
    ensures Seconds(t) >= 0 && AtSecond(Seconds(t)) == t
  {
    hide Civil, Days, Leap;
    var date := Date(t.year, t.month, t.day);
    var sod := t.hour * 3600 + t.minute * 60 + t.second;
    AfterEpoch(date);
    CivilOfDays(date);
    Divide(Days(date) * 86400 + sod, 86400, Days(date), sod);
    Divide(sod, 3600, t.hour, t.minute * 60 + t.second);
    Divide(sod, 60, t.hour * 60 + t.minute, t.second);
    Divide(t.minute * 60 + t.second, 60, t.minute, t.second);
  }

  lemma SecondOf(sec: nat)
    requires Civil(sec / 86400).y <= 65535
    ensures Seconds(AtSecond(sec)) == sec
  {
    hide Civil, Days;
    SecondsBack(sec % 86400);
    YearFrom1970(sec / 86400);
    DateLimits(sec / 86400);
  }

  /** A valid date and time of the years 1970 to 65535 comes back as it was exactly when
      it is not before the epoch in universal time, where it is clipped. */
  lemma UnixMsRoundTrip(t: DateTime, local: bool, tz: Offset)
    requires ValidTime(t)
    ensures ToDateTime(ToUnixMs(t, local, tz), local, tz) == t <==> Seconds(t) * 1000 - Shift(local, tz) >= 0
  {
    hide Civil, Days, Leap, Shift, AtSecond, Seconds;
    var shift := Shift(local, tz);
    SecondsOf(t);
    UnixMsIs(t, local, tz);
    if Seconds(t) * 1000 - shift < 0 {
      ShiftWhole(0, local, tz);
      DateLimits(shift / 1000 / 86400);
      if Civil(shift / 1000 / 86400).y > 65535 { FarAhead(Civil(shift / 1000 / 86400)); }
      SecondOf(shift / 1000);
      DateTimeIs(0, local, tz);
    } else {
      DateTimeIs(Seconds(t) * 1000 - shift, local, tz);
    }
  }

  lemma UnixMsIs(t: DateTime, local: bool, tz: Offset)
    requires ValidTime(t)
    ensures ToUnixMs(t, local, tz) == Clip(Seconds(t) * 1000 - Shift(local, tz))
  {
    hide Days, Leap, Shift;
    AfterEpoch(Date(t.year, t.month, t.day));
  }

  lemma DateTimeIs(unixMs: nat, local: bool, tz: Offset)
    requires unixMs + Shift(local, tz) >= 0
    ensures ToDateTime(unixMs, local, tz) == AtSecond((unixMs + Shift(local, tz)) / 1000)
  {
    hide Civil, Shift;
  }

  /** One hour ahead, the first midnight comes back as one o'clock. */
  lemma ClippedTimeExample()
    ensures ToDateTime(ToUnixMs(DateTime(1970, 1, 1, 0, 0, 0), true, 60), true, 60) == DateTime(1970, 1, 1, 1, 0, 0)
  {
    hide Civil, Days;
    EpochIsZero();
  }
}
