/** Cron schedules: when one fires, the search for the next firing, and the
    reason the search always ends. Instants are seconds since the Unix epoch,
    held in 64 bits; the engine's sub-second part never reaches the search. */
module Cron {
  import opened Text
  import opened Bits
  import opened Calendar
  import opened CronField

  const MINUTES_PER_DAY := 1_440
  const SEARCH_DAYS := 146_097
  const TWO_TO_THE_64 := 0x1_0000_0000_0000_0000

  datatype Schedule = Schedule(
    minutes: nat, hours: nat, daysOfMonth: nat, months: nat, daysOfWeek: nat,
    eitherDay: bool, expression: string)

  /* ----- What a schedule means ----- */

  /** Day number `day` is admitted. */
  predicate DayFires(s: Schedule, day: nat) {
    var date := FromDays(day);
    && Bit(s.months, date.month)
    && (if s.eitherDay
        then Bit(s.daysOfMonth, date.day) || Bit(s.daysOfWeek, Weekday(day))
        else Bit(s.daysOfMonth, date.day) && Bit(s.daysOfWeek, Weekday(day)))
  }

  predicate MinuteOfDayFires(s: Schedule, m: nat) {
    Bit(s.hours, m / 60) && Bit(s.minutes, m % 60)
  }

  /** The schedule fires at `minute`, counted from the epoch. */
  predicate Fires(s: Schedule, minute: nat) {
    DayFires(s, minute / MINUTES_PER_DAY) && MinuteOfDayFires(s, minute % MINUTES_PER_DAY)
  }

  ghost predicate Holds(field: Field, mask: nat) {
    HasBit(mask) && forall v: nat :: Bit(mask, v) ==> Legal(field, v)
  }

  /** Some month of the schedule is long enough for some day of it. */
  ghost predicate Dated(s: Schedule) {
    exists m: nat, d: nat :: 1 <= m <= 12 && Bit(s.months, m) && d <= LongestMonth(m) && Bit(s.daysOfMonth, d)
  }

  ghost predicate Masked(s: Schedule) {
    && Holds(Minute, s.minutes)
    && Holds(Hour, s.hours)
    && Holds(DayOfMonth, s.daysOfMonth)
    && Holds(Month, s.months)
    && Holds(DayOfWeek, s.daysOfWeek)
  }

  ghost predicate Accepted(s: Schedule) {
    Masked(s) && (s.eitherDay || Dated(s))
  }

  /* ----- The search ----- */

  predicate DayMatches(s: Schedule, dayOfMonth: nat, weekday: nat) {
    var byDate := And(s.daysOfMonth, Pow2(dayOfMonth)) != 0;
    var byWeekday := And(s.daysOfWeek, Pow2(weekday)) != 0;
    if s.eitherDay then byDate || byWeekday else byDate && byWeekday
  }

  /** The first matching minute of a day, from `hour` on; `start` is where the
      first hour starts. */
  function MinuteInHours(s: Schedule, hour: nat, start: nat): Option<nat>
    decreases 24 - hour
  {
    if hour >= 24 then None
    else if And(s.hours, Pow2(hour)) == 0 then MinuteInHours(s, hour + 1, 0)
    else
      var remaining := ShiftRight(s.minutes, start);
      if remaining != 0 then Some(hour * 60 + start + TrailingZeros(remaining))
      else MinuteInHours(s, hour + 1, 0)
  }

  /** The least minute of the day, not before `from`, that the time fields admit. */
  function MinuteOfDayFrom(s: Schedule, from: nat): Option<nat> {
    MinuteInHours(s, from / 60, from % 60)
  }

  /** `r` is the least firing after the instant `after`, or there is none that
      64 bits of seconds can hold. */
  ghost predicate IsNext(s: Schedule, after: nat, r: Option<nat>) {
    match r
    case Some(at) =>
      && after < at < TWO_TO_THE_64 && at % 60 == 0 && Fires(s, at / 60)
      && forall m: nat :: after < 60 * m < at ==> !Fires(s, m)
    case None =>
      forall m: nat :: after < 60 * m < TWO_TO_THE_64 ==> !Fires(s, m)
  }

  /* ----- The search within a day ----- */

  lemma DayMatchesIsDayFires(s: Schedule, day: nat)
    ensures DayFires(s, day)
       <==> And(s.months, Pow2(FromDays(day).month)) != 0 && DayMatches(s, FromDays(day).day, Weekday(day))
  {
    hide FromDays, Weekday;
    TestBit(s.months, FromDays(day).month);
    TestBit(s.daysOfMonth, FromDays(day).day);
    TestBit(s.daysOfWeek, Weekday(day));
  }

  /** The bit scan of one hour finds its first minute from `start`, if any. */
  lemma ScanHour(s: Schedule, start: nat)
    requires Holds(Minute, s.minutes)
    ensures
      var remaining := ShiftRight(s.minutes, start);
      if remaining != 0
      then
        var m := start + TrailingZeros(remaining);
        m < 60 && Bit(s.minutes, m) && forall i: nat :: start <= i < m ==> !Bit(s.minutes, i)
      else forall i: nat :: start <= i ==> !Bit(s.minutes, i)
  {
    var remaining := ShiftRight(s.minutes, start);
    forall i: nat | start <= i
      ensures Bit(s.minutes, i) == Bit(remaining, i - start)
    {
      BitOfShiftRight(s.minutes, start, i - start);
    }
    NonZeroHasBit(remaining);
    if remaining != 0 {
      TrailingZerosIsLowest(remaining);
      assert Legal(Minute, start + TrailingZeros(remaining));
    }
  }

  lemma {:induction false} MinuteInHoursIsLeast(s: Schedule, hour: nat, start: nat)
    requires Holds(Minute, s.minutes) && start < 60
    ensures
      match MinuteInHours(s, hour, start)
      case Some(m) =>
        && hour * 60 + start <= m < MINUTES_PER_DAY && MinuteOfDayFires(s, m)
        && forall i: nat :: hour * 60 + start <= i < m ==> !MinuteOfDayFires(s, i)
      case None =>
        forall i: nat :: hour * 60 + start <= i < MINUTES_PER_DAY ==> !MinuteOfDayFires(s, i)
    decreases 24 - hour
  {
    if hour < 24 {
      TestBit(s.hours, hour);
      ScanHour(s, start);
      MinuteInHoursIsLeast(s, hour + 1, 0);
      forall i: nat | hour * 60 <= i < hour * 60 + 60
        ensures MinuteOfDayFires(s, i) <==> Bit(s.hours, hour) && Bit(s.minutes, i - hour * 60)
      {
        assert i / 60 == hour && i % 60 == i - hour * 60;
      }
    }
  }

  lemma MinuteOfDayFromIsLeast(s: Schedule, from: nat)
    requires Holds(Minute, s.minutes)
    ensures
      match MinuteOfDayFrom(s, from)
      case Some(m) =>
        && from <= m < MINUTES_PER_DAY && MinuteOfDayFires(s, m)
        && forall i: nat :: from <= i < m ==> !MinuteOfDayFires(s, i)
      case None =>
        forall i: nat :: from <= i < MINUTES_PER_DAY ==> !MinuteOfDayFires(s, i)
  {
    MinuteInHoursIsLeast(s, from / 60, from % 60);
  }

  /* ----- A Gregorian cycle is enough ----- */

  lemma DayFiresRepeats(s: Schedule, day: nat)
    ensures DayFires(s, day + DAYS_PER_CYCLE) == DayFires(s, day)
  {
    hide FromDays, Weekday;
    CycleRepeats(day);
  }

  /** A firing day, moved by whole cycles into the cycle that starts at `start`. */
  lemma {:induction false} IntoWindow(s: Schedule, day: nat, start: nat) returns (d: nat)
    requires DayFires(s, day)
    ensures start <= d < start + DAYS_PER_CYCLE && DayFires(s, d)
    decreases if day < start then start - day else day - start
  {
    hide DayFires;
    if day < start {
      DayFiresRepeats(s, day);
      d := day + DAYS_PER_CYCLE;
      if d < start { d := IntoWindow(s, d, start); }
    } else if day < start + DAYS_PER_CYCLE {
      d := day;
    } else {
      DayFiresRepeats(s, day - DAYS_PER_CYCLE);
      d := IntoWindow(s, day - DAYS_PER_CYCLE, start);
    }
  }

  /** The dates of one month and day in 1972, 1976, ... 1996 lie 1461 days apart. */
  lemma LeapYearDate(m: nat, d: nat, k: nat) returns (day: nat)
    requires 1 <= m <= 12 && 1 <= d <= LongestMonth(m) && k <= 6
    ensures ValidDate(Date(1972, m, d)) && ValidDate(Date(1972 + 4 * k, m, d))
    ensures day == ToDays(Date(1972, m, d)) + 1_461 * k
    ensures FromDays(day) == Date(1972 + 4 * k, m, d)
    ensures day < DAYS_PER_CYCLE
  {
    hide FromDays, ToDays;
    LeapYearDayNumber(m, d, 0);
    LeapYearDayNumber(m, d, k);
    day := ToDays(Date(1972 + 4 * k, m, d));
    FromDaysOfToDays(Date(1972 + 4 * k, m, d));
  }

  lemma LeapYearDayNumber(m: nat, d: nat, k: nat)
    requires 1 <= m <= 12 && 1 <= d <= LongestMonth(m) && k <= 6
    ensures ValidDate(Date(1972 + 4 * k, m, d))
    ensures ToDays(Date(1972 + 4 * k, m, d))
         == YearStart(if m > 2 then 372 else 371) + 1_461 * k
            + MonthStart(if m > 2 then m - 3 else m + 9) + d - 1 + 4 * DAYS_PER_CYCLE - EPOCH_SHIFT
         < DAYS_PER_CYCLE
  {
    assert ValidDate(Date(1972 + 4 * k, m, d)) by { assert IsLeap(1972 + 4 * k); }
    YearsApart(if m > 2 then 372 else 371, k);
    MonthStartBound(if m > 2 then m - 3 else m + 9);
    assert d <= 31;
    hide IsLeap, YearStart, MonthStart, LongestMonth, DaysIn;
  }

  lemma YearsApart(y: nat, k: nat)
    requires 371 <= y <= 372 && k <= 6
    ensures (y + 1_600 + 4 * k) / 400 == 4 && (y + 1_600 + 4 * k) % 400 == y + 4 * k
    ensures YearStart(y + 4 * k) == YearStart(y) + 1_461 * k <= 144_700
  {
  }

  lemma MonthStartBound(m: nat)
    requires m <= 11
    ensures 0 <= MonthStart(m) <= 337
  {
  }

  /** Every month, day and weekday that can meet do meet: 1461 is 5 modulo 7, so
      seven leap years in a row run through all the weekdays. */
  lemma DateMeetsWeekday(m: nat, d: nat, w: nat) returns (day: nat)
    requires 1 <= m <= 12 && 1 <= d <= LongestMonth(m) && w < 7
    ensures day < DAYS_PER_CYCLE
    ensures FromDays(day).month == m && FromDays(day).day == d && Weekday(day) == w
  {
    hide FromDays, ToDays;
    var base := LeapYearDate(m, d, 0);
    var k := FiveGenerates(Weekday(base), w);
    WeekdaysLater(base, k);
    day := LeapYearDate(m, d, k);
  }

  lemma FiveGenerates(v: nat, w: nat) returns (k: nat)
    requires v < 7 && w < 7
    ensures k <= 6 && (v + 5 * k) % 7 == w
  {
    k := 3 * (w + 7 - v) % 7;
  }

  lemma WeekdaysLater(day: nat, k: nat)
    ensures Weekday(day + 1_461 * k) == (Weekday(day) + 5 * k) % 7
  {
    var q := (day + 4) / 7;
    assert day + 1_461 * k + 4 == 7 * (q + 208 * k) + (Weekday(day) + 5 * k);
    WholeWeeks(q + 208 * k, Weekday(day) + 5 * k);
  }

  lemma WholeWeeks(weeks: nat, days: nat)
    ensures (7 * weeks + days) % 7 == days % 7
  {
  }

  /** An accepted schedule fires on some day of every Gregorian cycle. */
  lemma AcceptedFiresEveryCycle(s: Schedule, start: nat) returns (day: nat)
    requires Accepted(s)
    ensures start <= day < start + DAYS_PER_CYCLE && DayFires(s, day)
  {
    var w: nat :| Bit(s.daysOfWeek, w);
    assert Legal(DayOfWeek, w);
    var m: nat, d: nat := 0, 1;
    if s.eitherDay {
      m :| Bit(s.months, m);
    } else {
      m, d :| 1 <= m <= 12 && Bit(s.months, m) && d <= LongestMonth(m) && Bit(s.daysOfMonth, d);
      assert Legal(DayOfMonth, d);
    }
    assert Legal(Month, m);
    var first := DateMeetsWeekday(m, d, w);
    hide FromDays, Weekday;
    day := IntoWindow(s, first, start);
  }

  /** With good masks, a schedule is refused exactly when no day of the
      calendar, ever, matches it. */
  lemma RefusalIsExact(s: Schedule)
    requires Masked(s)
    ensures Accepted(s) <==> exists day: nat :: DayFires(s, day)
  {
    if Accepted(s) {
      var day := AcceptedFiresEveryCycle(s, 0);
    }
    forall day: nat | DayFires(s, day)
      ensures Accepted(s)
    {
      hide FromDays;
      FromDaysIsTheCalendar(day);
      var date := FromDays(day);
      assert date.day <= LongestMonth(date.month);
    }
  }

  /* ----- The search over days ----- */

  /** The least firing later than `after`. Neither `after / 60 + 1`
      nor the arithmetic on days can overflow; the last multiplication can. */
  method NextAfter(s: Schedule, after: nat) returns (r: Option<nat>)
    requires Masked(s) && after < TWO_TO_THE_64
    ensures IsNext(s, after, r)
    ensures Accepted(s) && after + 60 * (SEARCH_DAYS + 2) * MINUTES_PER_DAY < TWO_TO_THE_64 ==> r.Some?
  {
    hide FromDays, FirstOfNextMonth, DayMatches, MinuteOfDayFrom, Bit, And;
    hide IsNext, NoneBetween, DayFires, Fires, Accepted;
    var firstMinute := after / 60 + 1;
    var day := firstMinute / MINUTES_PER_DAY;
    var minuteOfDay := firstMinute % MINUTES_PER_DAY;
    var lastDay := day + SEARCH_DAYS;
    NothingBetween(s, firstMinute);
    while day <= lastDay
      invariant 0 <= minuteOfDay < MINUTES_PER_DAY
      invariant firstMinute <= day * MINUTES_PER_DAY + minuteOfDay
      invariant NoneBetween(s, firstMinute, day * MINUTES_PER_DAY + minuteOfDay)
      decreases lastDay - day
    {
      var date := FromDays(day);
      DayMatchesIsDayFires(s, day);
      if And(s.months, Pow2(date.month)) == 0 {
        SkipMonth(s, firstMinute, day, minuteOfDay);
        day := FirstOfNextMonth(date);
        minuteOfDay := 0;
        continue;
      }
      MinuteOfDayFromIsLeast(s, minuteOfDay);
      if DayMatches(s, date.day, Weekday(day)) && MinuteOfDayFrom(s, minuteOfDay).Some? {
        var minutes := day * MINUTES_PER_DAY + MinuteOfDayFrom(s, minuteOfDay).value;
        assert minutes < TWO_TO_THE_64;
        FoundIsNext(s, after, day, minuteOfDay);
        r := if 60 * minutes < TWO_TO_THE_64 then Some(60 * minutes) else None;
        NoneOnlyOnOverflow(s, after, r);
        return;
      }
      SkipDay(s, firstMinute, day, minuteOfDay);
      day := day + 1;
      minuteOfDay := 0;
    }
    NoneAfterWindow(s, after, day * MINUTES_PER_DAY + minuteOfDay);
    r := None;
    NoneOnlyOnOverflow(s, after, r);
  }

  ghost predicate NoneBetween(s: Schedule, from: nat, to: nat) {
    forall m: nat :: from <= m < to ==> !Fires(s, m)
  }

  lemma NothingBetween(s: Schedule, from: nat)
    ensures NoneBetween(s, from, from)
  {
  }

  lemma DayAndMinute(day: nat, minute: nat)
    requires minute < MINUTES_PER_DAY
    ensures (day * MINUTES_PER_DAY + minute) / MINUTES_PER_DAY == day
    ensures (day * MINUTES_PER_DAY + minute) % MINUTES_PER_DAY == minute
  {
  }

  lemma SkipMonth(s: Schedule, from: nat, day: nat, minuteOfDay: nat)
    requires And(s.months, Pow2(FromDays(day).month)) == 0
    requires NoneBetween(s, from, day * MINUTES_PER_DAY + minuteOfDay)
    ensures ValidDate(FromDays(day)) && FromDays(day).year >= 1970
    ensures day < FirstOfNextMonth(FromDays(day))
    ensures NoneBetween(s, from, FirstOfNextMonth(FromDays(day)) * MINUTES_PER_DAY)
  {
    hide FromDays, FirstOfNextMonth;
    FirstOfNextMonthIsLeast(day);
    TestBit(s.months, FromDays(day).month);
    var next := FirstOfNextMonth(FromDays(day));
    forall m: nat | from <= m < next * MINUTES_PER_DAY
      ensures !Fires(s, m)
    {
      if day * MINUTES_PER_DAY <= m { assert day <= m / MINUTES_PER_DAY < next; }
    }
  }

  lemma SkipDay(s: Schedule, from: nat, day: nat, minuteOfDay: nat)
    requires Holds(Minute, s.minutes) && minuteOfDay < MINUTES_PER_DAY
    requires NoneBetween(s, from, day * MINUTES_PER_DAY + minuteOfDay)
    requires !DayFires(s, day) || MinuteOfDayFrom(s, minuteOfDay).None?
    ensures NoneBetween(s, from, (day + 1) * MINUTES_PER_DAY)
  {
    hide DayFires, MinuteOfDayFrom, MinuteOfDayFires;
    MinuteOfDayFromIsLeast(s, minuteOfDay);
    forall m: nat | from <= m < (day + 1) * MINUTES_PER_DAY
      ensures !Fires(s, m)
    {
      if day * MINUTES_PER_DAY + minuteOfDay <= m {
        DayAndMinute(day, m - day * MINUTES_PER_DAY);
      }
    }
  }

  lemma FoundIsNext(s: Schedule, after: nat, day: nat, minuteOfDay: nat)
    requires Holds(Minute, s.minutes) && minuteOfDay < MINUTES_PER_DAY
    requires after / 60 + 1 <= day * MINUTES_PER_DAY + minuteOfDay
    requires NoneBetween(s, after / 60 + 1, day * MINUTES_PER_DAY + minuteOfDay)
    requires DayFires(s, day) && MinuteOfDayFrom(s, minuteOfDay).Some?
    ensures
      var at := 60 * (day * MINUTES_PER_DAY + MinuteOfDayFrom(s, minuteOfDay).value);
      IsNext(s, after, if at < TWO_TO_THE_64 then Some(at) else None)
  {
    hide DayFires, MinuteOfDayFrom, MinuteOfDayFires, NoneBetween;
    MinuteOfDayFromIsLeast(s, minuteOfDay);
    var minute := MinuteOfDayFrom(s, minuteOfDay).value;
    var found := day * MINUTES_PER_DAY + minute;
    DayAndMinute(day, minute);
    assert Fires(s, found);
    forall i: nat | day * MINUTES_PER_DAY + minuteOfDay <= i < found
      ensures !Fires(s, i)
    {
      DayAndMinute(day, i - day * MINUTES_PER_DAY);
    }
    hide Fires;
    NextOfMinutes(s, after, day * MINUTES_PER_DAY + minuteOfDay, found);
  }

  /** From minutes to instants. */
  lemma NextOfMinutes(s: Schedule, after: nat, from: nat, found: nat)
    requires after / 60 + 1 <= from <= found && Fires(s, found) && NoneBetween(s, after / 60 + 1, from)
    requires forall i: nat :: from <= i < found ==> !Fires(s, i)
    ensures IsNext(s, after, if 60 * found < TWO_TO_THE_64 then Some(60 * found) else None)
  {
    hide Fires;
    assert 60 * found % 60 == 0 && 60 * found / 60 == found;
    forall m: nat | after < 60 * m < 60 * found
      ensures !Fires(s, m)
    {
      assert after / 60 + 1 <= m < found;
    }
  }

  /** A firing comes back in every cycle of days. */
  lemma FiringReturns(s: Schedule, m: nat, start: nat) returns (again: nat)
    requires Fires(s, m)
    ensures start * MINUTES_PER_DAY <= again < (start + DAYS_PER_CYCLE) * MINUTES_PER_DAY && Fires(s, again)
  {
    hide DayFires;
    var d := IntoWindow(s, m / MINUTES_PER_DAY, start);
    again := d * MINUTES_PER_DAY + m % MINUTES_PER_DAY;
    DayAndMinute(d, m % MINUTES_PER_DAY);
  }

  /** A whole cycle without a firing means there is none at all. */
  lemma NoneAfterWindow(s: Schedule, after: nat, to: nat)
    requires to >= ((after / 60 + 1) / MINUTES_PER_DAY + SEARCH_DAYS + 1) * MINUTES_PER_DAY
    requires NoneBetween(s, after / 60 + 1, to)
    ensures IsNext(s, after, None)
  {
    hide Fires;
    var first := (after / 60 + 1) / MINUTES_PER_DAY;
    forall m: nat
      ensures !Fires(s, m)
    {
      if Fires(s, m) {
        var again := FiringReturns(s, m, first + 1);
      }
    }
  }

  lemma NoneOnlyOnOverflow(s: Schedule, after: nat, r: Option<nat>)
    requires Masked(s) && IsNext(s, after, r)
    ensures Accepted(s) && after + 60 * (SEARCH_DAYS + 2) * MINUTES_PER_DAY < TWO_TO_THE_64 ==> r.Some?
  {
    hide DayFires;
    if Accepted(s) && r.None? {
      var start := (after / 60 + 1) / MINUTES_PER_DAY + 1;
      var day := AcceptedFiresEveryCycle(s, start);
      var minute := SomeMinuteFires(s);
      var m := day * MINUTES_PER_DAY + minute;
      DayAndMinute(day, minute);
      assert Fires(s, m);
    }
  }

  /** For every accepted schedule and instant there is a least later firing, and
      the search returns nothing exactly when 64 bits of seconds cannot hold it. */
  lemma NothingExactlyOnOverflow(s: Schedule, after: nat) returns (least: nat)
    requires Accepted(s)
    ensures after < 60 * least && Fires(s, least) && forall m: nat :: after < 60 * m < 60 * least ==> !Fires(s, m)
    ensures IsNext(s, after, None) <==> 60 * least >= TWO_TO_THE_64
  {
    hide DayFires;
    var from := after / 60 + 1;
    var day := AcceptedFiresEveryCycle(s, from / MINUTES_PER_DAY + 1);
    var minute := SomeMinuteFires(s);
    DayAndMinute(day, minute);
    assert Fires(s, day * MINUTES_PER_DAY + minute);
    hide Fires;
    least := LeastFiring(s, from, day * MINUTES_PER_DAY + minute);
    NextOfMinutes(s, after, from, least);
  }

  lemma {:induction false} LeastFiring(s: Schedule, from: nat, m: nat) returns (least: nat)
    requires from <= m && Fires(s, m)
    ensures from <= least && Fires(s, least) && forall i: nat :: from <= i < least ==> !Fires(s, i)
    decreases m - from
  {
    hide Fires;
    least := from;
    if !Fires(s, from) { least := LeastFiring(s, from + 1, m); }
  }

  /** So after the last second of 64 bits the search returns nothing, although
      firings go on. */
  lemma LastSecondHasNone(s: Schedule) returns (m: nat)
    requires Accepted(s)
    ensures IsNext(s, 18_446_744_073_709_551_615, None) && Fires(s, m) && m >= 307_445_734_561_825_861
  {
    hide Fires, Accepted;
    m := NothingExactlyOnOverflow(s, TWO_TO_THE_64 - 1);
  }

  lemma SomeMinuteFires(s: Schedule) returns (m: nat)
    requires Masked(s)
    ensures m < MINUTES_PER_DAY && MinuteOfDayFires(s, m)
  {
    var h: nat :| Bit(s.hours, h);
    var i: nat :| Bit(s.minutes, i);
    assert Legal(Hour, h) && Legal(Minute, i);
    m := 60 * h + i;
    assert m / 60 == h && m % 60 == i;
  }

  /* ----- Whole runs ----- */

  /** `fires` are the instants got by calling the search again and again. */
  ghost predicate Run(s: Schedule, after: nat, fires: seq<nat>)
    decreases |fires|
  {
    fires == [] || (IsNext(s, after, Some(fires[0])) && Run(s, fires[0], fires[1..]))
  }

  /** Iterating the search lists every firing once, in order, and nothing else. */
  lemma {:induction false} RunIsEveryFiring(s: Schedule, after: nat, fires: seq<nat>)
    requires Run(s, after, fires) && fires != []
    ensures forall i, j :: 0 <= i < j < |fires| ==> fires[i] < fires[j]
    ensures forall m: nat :: 60 * m in fires <==> after < 60 * m <= fires[|fires| - 1] && Fires(s, m)
    ensures forall i :: 0 <= i < |fires| ==> after < fires[i] && fires[i] % 60 == 0
    decreases |fires|
  {
    hide Fires;
    if |fires| > 1 {
      RunIsEveryFiring(s, fires[0], fires[1..]);
      assert fires == [fires[0]] + fires[1..];
      assert fires[0] < fires[1..][0] <= fires[|fires| - 1];
    } else {
      assert fires == [fires[0]];
    }
  }

  /* ----- Firings on the wall calendar ----- */

  /** A minute fires exactly when the page turned to on that day, and the weekday
      on it, are admitted by the day fields, and its time of day by the others. */
  lemma FiresByTheCalendar(s: Schedule, minute: nat)
    ensures
      var day := minute / 1_440;
      var date, weekday := PagesTurned(day), WeekdayTurned(day);
      Fires(s, minute) <==>
        && Bit(s.months, date.month)
        && (if s.eitherDay
            then Bit(s.daysOfMonth, date.day) || Bit(s.daysOfWeek, weekday)
            else Bit(s.daysOfMonth, date.day) && Bit(s.daysOfWeek, weekday))
        && Bit(s.hours, minute % 1_440 / 60) && Bit(s.minutes, minute % 60)
  {
    hide FromDays, Weekday, Bit, PagesTurned, WeekdayTurned;
    FromDaysIsTheCalendar(minute / 1_440);
    WeekdayIsTheCalendar(minute / 1_440);
    assert minute % 1_440 % 60 == minute % 60;
  }

  /** Midnight every Friday: after Sunday 1 September 2024, the next is the 6th. */
  lemma NextFriday(s: Schedule)
    requires s.minutes == 1 && s.hours == 1 && s.daysOfWeek == 32 && !s.eitherDay
    requires Bit(s.months, 9) && Bit(s.daysOfMonth, 6)
    ensures IsNext(s, 86_400 * ToDays(Date(2024, 9, 1)), Some(86_400 * ToDays(Date(2024, 9, 6))))
  {
    hide FromDays, ToDays, Bit, Fires;
    DatedWeekdays();
    var found: nat := 19_972 * 1_440;
    assert Fires(s, found) by { FridayMidnight(s); }
    forall m: nat | 86_400 * 19_967 < 60 * m < 60 * found
      ensures !Fires(s, m)
    {
      assert 19_967 <= m / 1_440 <= 19_971;
      OnlyOnFridays(s, m);
    }
    assert 60 * found / 60 == found;
  }

  lemma FridayMidnight(s: Schedule)
    requires s.minutes == 1 && s.hours == 1 && s.daysOfWeek == 32 && !s.eitherDay
    requires Bit(s.months, 9) && Bit(s.daysOfMonth, 6)
    ensures Fires(s, 19_972 * 1_440)
  {
    assert Bit(1, 0);
    OnlyFriday();
    hide FromDays, ToDays, Bit;
    DatedWeekdays();
    FromDaysOfToDays(Date(2024, 9, 6));
  }

  lemma OnlyOnFridays(s: Schedule, m: nat)
    requires s.daysOfWeek == 32 && !s.eitherDay
    ensures Weekday(m / 1_440) < 5 ==> !Fires(s, m)
  {
    hide FromDays, Weekday, Bit;
    OnlyFriday();
  }

  lemma OnlyFriday()
    ensures Bit(32, 5) && forall w: nat :: w < 5 ==> !Bit(32, w)
  {
    assert Bit(1, 0) && Bit(2, 1) && Bit(4, 2) && Bit(8, 3) && Bit(16, 4);
    assert !Bit(32, 0) && !Bit(32, 1) && !Bit(32, 2);
    assert !Bit(8, 0) && !Bit(8, 1) && !Bit(8, 2);
    assert !Bit(16, 2) && !Bit(32, 3) && !Bit(16, 3) && !Bit(32, 4);
  }
}
