/** The Vana'diel calendar: fields of an instant, each a finer total modulo a coarser one, and the earth clock. */
module VanaTime {
  import opened Words

  // Vana'diel milliseconds since the epoch, and the calendar's units in them.
  const SECOND: int := 1000
  const MINUTE: int := 60_000
  const HOUR: int := 3_600_000
  const DAY: int := 86_400_000
  const WEEK: int := 691_200_000
  const MONTH: int := 2_592_000_000
  const YEAR: int := 31_104_000_000

  // ---- Durations -----------------------------------------------------------------------------------------

  /** Whole units in a duration, rounded down. */
  function Floor(t: int, unit: int): (n: int)
    requires unit > 0
    ensures n * unit <= t < (n + 1) * unit
  {
    t / unit
  }

  /** Whole units in a duration, rounded up. */
  function Ceil(t: int, unit: int): (n: int)
    requires unit > 0
    ensures (n - 1) * unit < t <= n * unit
  {
    if t % unit == 0 then t / unit else t / unit + 1
  }

  /** C++ division and remainder, which truncate toward zero. */
  function Quot(a: int, b: int): int
    requires b != 0
  {
    if a >= 0 then a / b else -((-a) / b)
  }

  function Rem(a: int, b: int): int
    requires b != 0
  {
    a - b * Quot(a, b)
  }

  function ToUint32(n: int): (r: int)
    ensures 0 <= r < 0x1_0000_0000
  {
    n % 0x1_0000_0000
  }

  /** Durations since the epoch count up to a signed 64-bit number of milliseconds. */
  predicate Instant(t: int) {
    -0x8000_0000_0000_0000 <= t < 0x8000_0000_0000_0000
  }

  // ---- Fields of an instant ------------------------------------------------------------------------------

  // Each divides by a total that is zero in the first of its coarser units.

  function GetSecond(t: int): int
    requires Floor(t, MINUTE) != 0
  {
    ToUint32(Rem(Floor(t, SECOND), 60 * Floor(t, MINUTE)))
  }

  function GetMinute(t: int): int
    requires Floor(t, HOUR) != 0
  {
    ToUint32(Rem(Floor(t, MINUTE), 60 * Floor(t, HOUR)))
  }

  function GetHour(t: int): int
    requires Floor(t, DAY) != 0
  {
    ToUint32(Rem(Floor(t, HOUR), 24 * Floor(t, DAY)))
  }

  function GetMonthday(t: int): int
    requires Floor(t, MONTH) != 0
  {
    ToUint32(Rem(Ceil(t, DAY), 30 * Floor(t, MONTH)))
  }

  function GetMonth(t: int): int
    requires Floor(t, YEAR) != 0
  {
    ToUint32(Rem(Ceil(t, MONTH), 12 * Floor(t, YEAR)))
  }

  function GetYear(t: int): int {
    var y := Floor(t, YEAR) % 0x1_0000_0000;
    if y >= 0x8000_0000 then y - 0x1_0000_0000 else y
  }

  function GetWeekday(t: int): int
    requires Floor(t, WEEK) != 0
  {
    ToUint32(Rem(Floor(t, DAY), 8 * Floor(t, WEEK)))
  }

  function GetYearday(t: int): int
    requires Floor(t, YEAR) != 0
  {
    ToUint32(Rem(Floor(t, DAY), 360 * Floor(t, YEAR)))
  }

  // ---- What the fields are -------------------------------------------------------------------------------

  /** A finer total reaches at most one coarser unit past the coarser total: the remainder is what is past it. */
  lemma RemPast(a: int, b: int)
    requires 0 < b <= a <= 2 * b
    ensures Rem(a, b) == if a == 2 * b then 0 else a - b
  {
    if a == 2 * b {
      DivisionUnique(a, b, 2, 0);
    } else {
      DivisionUnique(a, b, 1, a - b);
    }
  }

  /** Before the epoch the coarser total is the larger one by amount, and the remainder is the finer total itself. */
  lemma RemBefore(a: int, b: int)
    requires b <= a <= 0 && b < 0
    ensures Rem(a, b) == if a == b then 0 else a
  {
    DivisionUnique(-a, -b, if a == b then 1 else 0, if a == b then 0 else -a);
    assert (-a) / b == -((-a) / (-b));
  }

  // Past the first of its coarser units a field is the calendar's, but for the totals rounded up.  Before the epoch
  // it is the finer total in 32 bits, except in the first finer unit of each coarser one.

  lemma SecondIs(t: int)
    requires Floor(t, MINUTE) != 0
    ensures GetSecond(t) ==
            if t >= 0 || t % MINUTE / SECOND == 0 then t % MINUTE / SECOND else ToUint32(Floor(t, SECOND))
  {
    var fine, coarse := Floor(t, SECOND), Floor(t, MINUTE);
    if t >= 0 {
      RemPast(fine, 60 * coarse);
    } else {
      RemBefore(fine, 60 * coarse);
    }
  }

  lemma MinuteIs(t: int)
    requires Floor(t, HOUR) != 0
    ensures GetMinute(t) == if t >= 0 || t % HOUR / MINUTE == 0 then t % HOUR / MINUTE else ToUint32(Floor(t, MINUTE))
  {
    var fine, coarse := Floor(t, MINUTE), Floor(t, HOUR);
    if t >= 0 {
      RemPast(fine, 60 * coarse);
    } else {
      RemBefore(fine, 60 * coarse);
    }
  }

  lemma HourIs(t: int)
    requires Floor(t, DAY) != 0
    ensures GetHour(t) == if t >= 0 || t % DAY / HOUR == 0 then t % DAY / HOUR else ToUint32(Floor(t, HOUR))
  {
    var fine, coarse := Floor(t, HOUR), Floor(t, DAY);
    if t >= 0 {
      RemPast(fine, 24 * coarse);
    } else {
      RemBefore(fine, 24 * coarse);
    }
  }

  lemma WeekdayIs(t: int)
    requires Floor(t, WEEK) != 0
    ensures GetWeekday(t) == if t >= 0 || t % WEEK / DAY == 0 then t % WEEK / DAY else ToUint32(Floor(t, DAY))
  {
    var fine, coarse := Floor(t, DAY), Floor(t, WEEK);
    if t >= 0 {
      RemPast(fine, 8 * coarse);
    } else {
      RemBefore(fine, 8 * coarse);
    }
  }

  lemma YeardayIs(t: int)
    requires Floor(t, YEAR) != 0
    ensures GetYearday(t) == if t >= 0 || t % YEAR / DAY == 0 then t % YEAR / DAY else ToUint32(Floor(t, DAY))
  {
    var fine, coarse := Floor(t, DAY), Floor(t, YEAR);
    if t >= 0 {
      RemPast(fine, 360 * coarse);
    } else {
      RemBefore(fine, 360 * coarse);
    }
  }

  /**
   * Days of the month count from 1, but a day's first instant reads as the day before, and day 30 of the second
   * month as 0.  Before the epoch a month's first instant reads as 0 and any other as the day total.
   */
  lemma MonthdayIs(t: int)
    requires Floor(t, MONTH) != 0
    ensures GetMonthday(t) ==
            if t < 0 then (if t % MONTH == 0 then 0 else ToUint32(Ceil(t, DAY)))
            else if t / MONTH == 1 && t % MONTH / DAY == 29 && t % DAY != 0 then 0
            else t % MONTH / DAY + (if t % DAY == 0 then 0 else 1)
  {
    var fine, coarse := Ceil(t, DAY), Floor(t, MONTH);
    if t >= 0 {
      RemPast(fine, 30 * coarse);
    } else {
      RemBefore(fine, 30 * coarse);
    }
  }

  /** Likewise for months: a month's first instant reads as the month before, and the last month of year 1 as 0. */
  lemma MonthIs(t: int)
    requires Floor(t, YEAR) != 0
    ensures GetMonth(t) ==
            if t < 0 then (if t % YEAR == 0 then 0 else ToUint32(Ceil(t, MONTH)))
            else if t / YEAR == 1 && t % YEAR / MONTH == 11 && t % MONTH != 0 then 0
            else t % YEAR / MONTH + (if t % MONTH == 0 then 0 else 1)
  {
    var fine, coarse := Ceil(t, MONTH), Floor(t, YEAR);
    if t >= 0 {
      RemPast(fine, 12 * coarse);
    } else {
      RemBefore(fine, 12 * coarse);
    }
  }

  lemma YearIs(t: int)
    requires Instant(t)
    ensures GetYear(t) == Floor(t, YEAR)
  {
  }

  // ---- Putting the fields together again -----------------------------------------------------------------

  /** The second a calendar date and time of day name, months and their days counting from 1. */
  function Recompose(year: int, month: int, monthday: int, hour: int, minute: int, second: int): int {
    ((((year * 12 + (month - 1)) * 30 + (monthday - 1)) * 24 + hour) * 60 + minute) * 60 + second
  }

  /** No field divides by zero: the instant is before the epoch or past the first year. */
  predicate HasFields(t: int) {
    t < 0 || YEAR <= t
  }

  lemma FieldsDefined(t: int)
    ensures HasFields(t) <==> Floor(t, YEAR) != 0
    ensures HasFields(t) ==> Floor(t, MONTH) != 0 && Floor(t, DAY) != 0 && Floor(t, HOUR) != 0 && Floor(t, MINUTE) != 0
  {
  }

  function RecomposedFields(t: int): int
    requires HasFields(t)
  {
    FieldsDefined(t);
    Recompose(GetYear(t), GetMonth(t), GetMonthday(t), GetHour(t), GetMinute(t), GetSecond(t))
  }

  predicate LastMonthOfYearOne(t: int) {
    2 * YEAR - MONTH < t < 2 * YEAR
  }

  /** Calendar arithmetic: an instant's second, from its place in the year, month, day, hour and minute. */
  lemma MixedRadix(t: int)
    ensures Floor(t, SECOND) ==
            Recompose(t / YEAR, t % YEAR / MONTH + 1, t % MONTH / DAY + 1,
                      t % DAY / HOUR, t % HOUR / MINUTE, t % MINUTE / SECOND)
  {
    assert t / SECOND == t / MINUTE * 60 + t % MINUTE / SECOND;
    assert t / MINUTE == t / HOUR * 60 + t % HOUR / MINUTE;
    assert t / HOUR == t / DAY * 24 + t % DAY / HOUR;
    assert t / DAY == t / MONTH * 30 + t % MONTH / DAY;
    assert t / MONTH == t / YEAR * 12 + t % YEAR / MONTH;
  }

  /** How far the day and the month read from the calendar's. */
  lemma FieldErrors(t: int)
    requires YEAR <= t
    ensures GetMonthday(t) - (t % MONTH / DAY + 1) == if t % DAY == 0 then -1 else 0
    ensures GetMonth(t) - (t % YEAR / MONTH + 1) ==
            if LastMonthOfYearOne(t) then -12 else if t % MONTH == 0 then -1 else 0
    ensures t % MONTH == 0 ==> t % DAY == 0
  {
    MonthIs(t);
    MonthdayIs(t);
    TwelfthMonth(t);
    hide GetMonth, GetMonthday, LastMonthOfYearOne;
  }

  lemma TwelfthMonth(t: int)
    ensures LastMonthOfYearOne(t) <==> t / YEAR == 1 && t % YEAR / MONTH == 11 && t % MONTH != 0
  {
  }

  lemma TimeOfDay(t: int)
    requires YEAR <= t
    ensures GetHour(t) == t % DAY / HOUR && GetMinute(t) == t % HOUR / MINUTE && GetSecond(t) == t % MINUTE / SECOND
  {
    HourIs(t);
    MinuteIs(t);
    SecondIs(t);
  }

  /** A wrong month or day is not made good by any other field. */
  lemma ErrorsDoNotCancel(year: int, month: int, monthday: int, hour: int, minute: int, second: int, m: int, d: int)
    requires m in {0, -1, -12} && d in {0, -1}
    ensures m == 0 && d == 0 <==> Recompose(year, month + m, monthday + d, hour, minute, second) ==
                                  Recompose(year, month, monthday, hour, minute, second)
  {
  }

  lemma RecomposesFromYearOne(t: int)
    requires YEAR <= t && Instant(t)
    ensures RecomposedFields(t) == Floor(t, SECOND) <==> t % DAY != 0 && !LastMonthOfYearOne(t)
  {
    MixedRadix(t);
    YearIs(t);
    TimeOfDay(t);
    FieldErrors(t);
    hide GetYear, GetMonth, GetMonthday, GetHour, GetMinute, GetSecond, Recompose, LastMonthOfYearOne;
    var month, day := t % YEAR / MONTH + 1, t % MONTH / DAY + 1;
    ErrorsDoNotCancel(t / YEAR, month, day, GetHour(t), GetMinute(t), GetSecond(t),
                      GetMonth(t) - month, GetMonthday(t) - day);
  }

  /** Before the last month before the epoch, a month other than a year's first instant reads far too high. */
  lemma MonthFarOff(t: int)
    requires Instant(t) && t <= -MONTH && t % YEAR != 0
    ensures Floor(t, YEAR) != 0 && 12 * GetYear(t) + GetMonth(t) - 1 > t / MONTH + 1
  {
    FieldsDefined(t);
    MonthTotals(t);
    hide ToUint32, GetYear, GetMonth;
    YearIs(t);
    MonthIs(t);
    Wrapped(Ceil(t, MONTH));
    hide Ceil, Floor;
  }

  lemma Wrapped(n: int)
    requires -0x1_0000_0000 <= n < 0
    ensures ToUint32(n) == n + 0x1_0000_0000
  {
  }

  lemma MonthTotals(t: int)
    requires Instant(t) && t <= -MONTH
    ensures -4_000_000_000 <= Ceil(t, MONTH) < 0 && t / MONTH <= Ceil(t, MONTH) <= 12 * Floor(t, YEAR) + 12
  {
    var year, month := Floor(t, YEAR), Floor(t, MONTH);
    assert month == 12 * year + t % YEAR / MONTH;
    assert -4_000_000_000 <= month <= -1 && Ceil(t, MONTH) <= month + 1;
    assert month == -1 ==> t == -MONTH;
  }

  /** With as many months too many, no day or time of day brings the sum back to the instant. */
  lemma TooHigh(t: int, year: int, month: int, monthday: int, hour: int, minute: int, second: int)
    requires 12 * year + month - 1 > t / MONTH + 1
    requires monthday >= 0 && hour >= 0 && minute >= 0 && second >= 0
    ensures Recompose(year, month, monthday, hour, minute, second) != Floor(t, SECOND)
  {
    var months, seconds := t / MONTH, t / SECOND;
    assert seconds < (months + 1) * 2_592_000;
    assert Floor(t, SECOND) == seconds;
    hide *;
    var days := (12 * year + month - 1) * 30 + (monthday - 1);
    assert days >= (months + 2) * 30 - 1;
    Longer(year, month, monthday, hour, minute, second);
    assert Recompose(year, month, monthday, hour, minute, second) >= days * 86400;
  }

  /** A year's first instant before the epoch: every field but the year reads as 0. */
  lemma YearStart(t: int)
    requires Instant(t) && t < 0 && t % YEAR == 0
    ensures RecomposedFields(t) != Floor(t, SECOND)
  {
    FieldsDefined(t);
    WholeYears(t);
    YearIs(t);
    MonthIs(t);
    MonthdayIs(t);
    HourIs(t);
    MinuteIs(t);
    SecondIs(t);
    hide GetYear, GetMonth, GetMonthday, GetHour, GetMinute, GetSecond, Floor, Ceil, ToUint32;
  }

  lemma WholeYears(t: int)
    requires t % YEAR == 0
    ensures t % MONTH == 0 && t % DAY == 0 && t % HOUR == 0 && t % MINUTE == 0
    ensures Floor(t, SECOND) == 31_104_000 * Floor(t, YEAR)
  {
    var y := t / YEAR;
    assert t == YEAR * y;
    assert t == MONTH * (12 * y) == DAY * (360 * y) == HOUR * (8640 * y);
    assert t == MINUTE * (518_400 * y) == SECOND * (31_104_000 * y);
  }

  /** A time of day is never negative. */
  lemma Longer(year: int, month: int, monthday: int, hour: int, minute: int, second: int)
    requires hour >= 0 && minute >= 0 && second >= 0
    ensures Recompose(year, month, monthday, hour, minute, second) >=
            ((12 * year + month - 1) * 30 + (monthday - 1)) * 86400
  {
  }

  /** A field that reads the total of a coarser one: the calendar's, or far larger. */
  predicate WithinOrHuge(field: int, limit: int) {
    0 <= field < limit || field > 0x8000_0000
  }

  lemma LastMonthTimes(t: int)
    requires -MONTH < t < 0
    ensures HasFields(t) && Floor(t, YEAR) != 0 && Floor(t, MONTH) != 0 && Floor(t, DAY) != 0
    ensures Floor(t, HOUR) != 0 && Floor(t, MINUTE) != 0
    ensures WithinOrHuge(GetHour(t), 24) && WithinOrHuge(GetMinute(t), 60) && WithinOrHuge(GetSecond(t), 60)
  {
    FieldsDefined(t);
    HourIs(t);
    MinuteIs(t);
    SecondIs(t);
    hide GetHour, GetMinute, GetSecond, ToUint32;
    NegativeTotal(t, SECOND);
    NegativeTotal(t, MINUTE);
    NegativeTotal(t, HOUR);
    hide Floor;
  }

  /** A negative total of the last month before the epoch in 32 bits. */
  lemma NegativeTotal(t: int, unit: int)
    requires -MONTH < t < 0 && unit in {SECOND, MINUTE, HOUR}
    ensures ToUint32(Floor(t, unit)) > 0x8000_0000
  {
    var n := Floor(t, unit);
    assert -2_592_000 <= n < 0;
    hide Floor;
  }

  lemma LastMonthDates(t: int)
    requires -MONTH < t < 0
    ensures HasFields(t) && Floor(t, YEAR) != 0 && Floor(t, MONTH) != 0
    ensures GetYear(t) == -1 && GetMonth(t) == 0 && WithinOrHuge(GetMonthday(t), 1)
  {
    FieldsDefined(t);
    YearIs(t);
    MonthIs(t);
    MonthdayIs(t);
    hide GetYear, GetMonth, GetMonthday;
  }

  /**
   * The month before the epoch reads as month 0 of year -1; a day or a time of day is 0 too, or too large to fit
   * it.
   */
  lemma LastMonth(t: int)
    requires -MONTH < t < 0
    ensures RecomposedFields(t) != Floor(t, SECOND)
  {
    LastMonthTimes(t);
    LastMonthDates(t);
    hide GetYear, GetMonth, GetMonthday, GetHour, GetMinute, GetSecond;
    assert -2_592_000 <= Floor(t, SECOND) < 0;
    hide Floor;
  }

  /** No instant before the epoch is named by its fields. */
  lemma NeverBeforeEpoch(t: int)
    requires Instant(t) && t < 0
    ensures RecomposedFields(t) != Floor(t, SECOND)
  {
    FieldsDefined(t);
    YearIs(t);
    if t % YEAR == 0 {
      YearStart(t);
    } else if t <= -MONTH {
      MonthFarOff(t);
      TooHigh(t, GetYear(t), GetMonth(t), GetMonthday(t), GetHour(t), GetMinute(t), GetSecond(t));
    } else {
      LastMonth(t);
    }
  }

  /**
   * Wherever no field divides by zero, the fields name the instant's second if and only if the instant is past the
   * first year, not a day's very first and not inside the twelfth month of year 1.
   */
  lemma RecomposesIff(t: int)
    requires Instant(t) && HasFields(t)
    ensures RecomposedFields(t) == Floor(t, SECOND) <==> YEAR <= t && t % DAY != 0 && !LastMonthOfYearOne(t)
  {
    hide RecomposedFields, Floor, LastMonthOfYearOne;
    if t < 0 {
      NeverBeforeEpoch(t);
    } else {
      RecomposesFromYearOne(t);
    }
  }

  // ---- The earth clock -------------------------------------------------------------------------------------

  /** Earth time is in nanoseconds since 1970, in 64 bits; a Vana'diel millisecond is a 25000th of a second. */
  const TICK: int := 40_000
  const VANADIEL_EPOCH: int := 1009810800 * 1_000_000_000

  function ToEarthTime(v: int): int {
    v * TICK + VANADIEL_EPOCH
  }

  /** Neither the conversion nor the sum leaves 64 bits. */
  predicate OnEarthClock(v: int) {
    Instant(v * TICK) && Instant(ToEarthTime(v))
  }

  /** The conversion truncates toward zero, on both sides of the epoch. */
  function FromEarthTime(e: int): int {
    Quot(e - VANADIEL_EPOCH, TICK)
  }

  /** The instants the earth clock holds: about 292 years before the epoch and 260 after it. */
  lemma OnEarthClockIff(v: int)
    ensures OnEarthClock(v) <==> -230_584_300_921_369 <= v <= 205_339_030_921_369
  {
  }

  /** Exactly those come back from the earth clock, unchanged. */
  lemma EarthRoundTrip(v: int)
    requires OnEarthClock(v)
    ensures FromEarthTime(ToEarthTime(v)) == v
  {
  }

  /** Back on the earth clock, an instant is cut to a whole tick, toward the epoch, and stays on the clock. */
  lemma VanadielRoundTrip(e: int)
    requires Instant(e) && Instant(e - VANADIEL_EPOCH)
    ensures OnEarthClock(FromEarthTime(e))
    ensures var back, past := ToEarthTime(FromEarthTime(e)), e - VANADIEL_EPOCH;
            && (if past >= 0 then e - TICK < back <= e else e <= back < e + TICK)
            && (back == e <==> past % TICK == 0)
  {
  }
}
