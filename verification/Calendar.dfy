/** Proleptic Gregorian dates by the 400-year era decomposition, and the
    calendar they are measured against: the 4/100/400 leap rule and the rule
    for the day after a given day. */
module Calendar {

  datatype Date = Date(year: nat, month: nat, day: nat)

  // One Gregorian cycle.
  const DAYS_PER_CYCLE := 146_097
  // The epoch, counted from the first of March of year 0, where eras begin.
  const EPOCH_SHIFT := 719_468

  /* ----- The calendar, as it is written down ----- */

  predicate IsLeap(year: nat) {
    year % 4 == 0 && (year % 100 != 0 || year % 400 == 0)
  }

  /** The most days that `month` has in any year. */
  function LongestMonth(month: nat): nat {
    match month
    case 2 => 29
    case 4 | 6 | 9 | 11 => 30
    case _ => 31
  }

  function DaysIn(year: nat, month: nat): nat {
    if month == 2 && !IsLeap(year) then 28 else LongestMonth(month)
  }

  predicate ValidDate(date: Date) {
    1 <= date.month <= 12 && 1 <= date.day <= DaysIn(date.year, date.month)
  }

  /** The calendar day after `date`. */
  function NextDay(date: Date): Date {
    if date.day < DaysIn(date.year, date.month) then date.(day := date.day + 1)
    else if date.month < 12 then Date(date.year, date.month + 1, 1)
    else Date(date.year + 1, 1, 1)
  }

  /** The date reached from 1970-01-01 by turning `days` pages. */
  function PagesTurned(days: nat): Date {
    if days == 0 then Date(1970, 1, 1) else NextDay(PagesTurned(days - 1))
  }

  /** The weekday reached from Thursday, 1970-01-01, by turning `days` pages;
      Sunday is 0 and Saturday 6. */
  function WeekdayTurned(days: nat): nat {
    if days == 0 then 4
    else if WeekdayTurned(days - 1) == 6 then 0
    else WeekdayTurned(days - 1) + 1
  }

  /* ----- The conversions the engine runs ----- */

  function YearOfEra(dayOfEra: nat): int {
    (dayOfEra - dayOfEra / 1_460 + dayOfEra / 36_524 - dayOfEra / 146_096) / 365
  }

  // Days before the 1 March that starts year `yearOfEra` of an era.
  function YearStart(yearOfEra: int): int {
    365 * yearOfEra + yearOfEra / 4 - yearOfEra / 100
  }

  // Days before month `shifted` of a year that starts on 1 March.
  function MonthStart(shifted: int): int {
    (153 * shifted + 2) / 5
  }

  function FromDays(days: nat): Date {
    var shifted := days + EPOCH_SHIFT;
    DateInEra(shifted / DAYS_PER_CYCLE, shifted % DAYS_PER_CYCLE)
  }

  function DateInEra(era: nat, dayOfEra: nat): Date
    requires dayOfEra < DAYS_PER_CYCLE
  {
    YearOfEraInRange(dayOfEra);
    var yearOfEra := YearOfEra(dayOfEra);
    var dayOfYear := dayOfEra - YearStart(yearOfEra);
    var shiftedMonth := (5 * dayOfYear + 2) / 153;
    var day := dayOfYear - MonthStart(shiftedMonth) + 1;
    var month := if shiftedMonth < 10 then shiftedMonth + 3 else shiftedMonth - 9;
    var year := yearOfEra + era * 400 + (if month <= 2 then 1 else 0);
    Date(year, month, day)
  }

  function ToDays(date: Date): nat
    requires ValidDate(date) && date.year >= 1970
  {
    var year := date.year - (if date.month <= 2 then 1 else 0);
    var era := year / 400;
    var yearOfEra := year % 400;
    var shiftedMonth := if date.month > 2 then date.month - 3 else date.month + 9;
    var dayOfYear := MonthStart(shiftedMonth) + date.day - 1;
    var dayOfEra := YearStart(yearOfEra) + dayOfYear;
    era * DAYS_PER_CYCLE + dayOfEra - EPOCH_SHIFT
  }

  function FirstOfNextMonth(date: Date): nat
    requires ValidDate(date) && date.year >= 1970
  {
    ToDays(if date.month == 12 then Date(date.year + 1, 1, 1) else Date(date.year, date.month + 1, 1))
  }

  /** Counted from Sunday as 0; day 0 is a Thursday. */
  function Weekday(days: nat): nat {
    (days + 4) % 7
  }

  /* ----- The era decomposition ----- */

  /** Day `dayOfYear` of year 100c + 4q + s of an era is read back as that
      year; the 366th day exists only in the last year of a four-year block,
      and in the last block of a century only when the century ends the era. */
  lemma YearOfEraExact(c: nat, q: nat, s: nat, dayOfYear: nat)
    requires c <= 3 && q <= 24 && s <= 3 && dayOfYear <= 365
    requires dayOfYear == 365 ==> s == 3 && (q < 24 || c == 3)
    ensures YearStart(100 * c + 4 * q + s) == 36_524 * c + 1_461 * q + 365 * s
    ensures YearOfEra(YearStart(100 * c + 4 * q + s) + dayOfYear) == 100 * c + 4 * q + s
  {
    var y := 100 * c + 4 * q + s;
    assert y / 4 == 25 * c + q && y / 100 == c;
    var d := 36_524 * c + 1_461 * q + 365 * s + dayOfYear;
    assert d == YearStart(y) + dayOfYear;
    var carry := if 24 * c + q + 365 * s + dayOfYear >= 1_460 then 1 else 0;
    assert d / 1_460 == 25 * c + q + carry;
    var last := if d == 146_096 then 1 else 0;
    assert d / 36_524 == c + last;
    assert d / 146_096 == last;
  }

  /** Every day of an era splits that way. */
  lemma SplitDayOfEra(dayOfEra: nat) returns (c: nat, q: nat, s: nat, dayOfYear: nat)
    requires dayOfEra < DAYS_PER_CYCLE
    ensures c <= 3 && q <= 24 && s <= 3 && dayOfYear <= 365
    ensures dayOfYear == 365 ==> s == 3 && (q < 24 || c == 3)
    ensures dayOfEra == 36_524 * c + 1_461 * q + 365 * s + dayOfYear
  {
    c := if dayOfEra / 36_524 < 3 then dayOfEra / 36_524 else 3;
    var r := dayOfEra - 36_524 * c;
    q := r / 1_461;
    var r' := r - 1_461 * q;
    s := if r' / 365 < 3 then r' / 365 else 3;
    dayOfYear := r' - 365 * s;
  }

  lemma YearOfEraInRange(dayOfEra: nat)
    requires dayOfEra < DAYS_PER_CYCLE
    ensures 0 <= YearOfEra(dayOfEra) <= 399
    ensures 0 <= dayOfEra - YearStart(YearOfEra(dayOfEra)) <= 365
  {
    var c, q, s, d := SplitDayOfEra(dayOfEra);
    YearOfEraExact(c, q, s, d);
  }

  // Days before the March year `year`, over all eras at once.
  function DaysBefore(year: nat): int {
    365 * year + year / 4 - year / 100 + year / 400
  }

  lemma EraIsLeapCount(year: nat)
    ensures year / 400 * DAYS_PER_CYCLE + YearStart(year % 400) == DaysBefore(year)
  {
    var e, y := year / 400, year % 400;
    assert year == 400 * e + y;
    assert year / 4 == 100 * e + y / 4;
    assert year / 100 == 4 * e + y / 100;
  }

  lemma LeapDay(year: nat)
    ensures DaysBefore(year + 1) - DaysBefore(year) == if IsLeap(year + 1) then 366 else 365
  {
    Steps4(year);
    Steps100(year);
    Steps400(year);
  }

  lemma Steps4(y: nat)
    ensures (y + 1) / 4 - y / 4 == if (y + 1) % 4 == 0 then 1 else 0
  {
  }

  lemma Steps100(y: nat)
    ensures (y + 1) / 100 - y / 100 == if (y + 1) % 100 == 0 then 1 else 0
    ensures (y + 1) % 100 == 0 ==> (y + 1) % 4 == 0
  {
  }

  lemma Steps400(y: nat)
    ensures (y + 1) / 400 - y / 400 == if (y + 1) % 400 == 0 then 1 else 0
    ensures (y + 1) % 400 == 0 ==> (y + 1) % 100 == 0
  {
  }

  /* ----- Main results ----- */

  /** Turning one page moves the day number by one. */
  lemma NextDayAddsOne(date: Date)
    requires ValidDate(date) && date.year >= 1970
    ensures ValidDate(NextDay(date))
    ensures ToDays(NextDay(date)) == ToDays(date) + 1
  {
    hide MonthStart, YearStart, DaysBefore, IsLeap;
    var y := date.year - (if date.month <= 2 then 1 else 0);
    EraIsLeapCount(y);
    if date.day == DaysIn(date.year, date.month) {
      if date.month == 2 {
        EraIsLeapCount(y + 1);
        LeapDay(y);
        MarchStart();
      } else {
        MonthLengths(date.month);
      }
    }
  }

  lemma MarchStart()
    ensures MonthStart(0) == 0 && MonthStart(11) == 337
  {
  }

  lemma MonthLengths(month: nat)
    requires 1 <= month <= 12 && month != 2
    ensures
      var m := if month > 2 then month - 3 else month + 9;
      MonthStart(m + 1) - MonthStart(m) == LongestMonth(month)
  {
  }

  /** The month formula reads back the month a day of the year was built from. */
  lemma MonthOfDay(m: nat, day: nat)
    requires m <= 11 && 1 <= day <= if m == 11 then 29 else MonthStart(m + 1) - MonthStart(m)
    ensures (5 * (MonthStart(m) + day - 1) + 2) / 153 == m
    ensures 0 <= MonthStart(m) + day - 1 <= 365
    ensures MonthStart(m) + day - 1 == 365 ==> m == 11 && day == 29
  {
  }

  /** The year of a valid date, split as the era decomposition splits it. */
  lemma SplitYear(y: nat, dayOfYear: nat) returns (c: nat, q: nat, s: nat)
    requires dayOfYear <= 365 && (dayOfYear == 365 ==> IsLeap(y + 1))
    ensures y % 400 == 100 * c + 4 * q + s && c <= 3 && q <= 24 && s <= 3
    ensures dayOfYear == 365 ==> s == 3 && (q < 24 || c == 3)
  {
    var era, yoe := y / 400, y % 400;
    c, q, s := yoe / 100, yoe % 100 / 4, yoe % 4;
    assert y + 1 == 400 * era + 100 * c + 4 * q + s + 1;
    if dayOfYear == 365 {
      NextIsLeap(era, c, q, s);
    }
  }

  /** The year after year 100c + 4q + s of an era, if it is a leap year. */
  lemma NextIsLeap(era: nat, c: nat, q: nat, s: nat)
    requires c <= 3 && q <= 24 && s <= 3 && IsLeap(400 * era + 100 * c + 4 * q + s + 1)
    ensures s == 3 && (q < 24 || c == 3)
  {
    Mod4(100 * era + 25 * c + q, s + 1);
    if q == 24 && s == 3 {
      Mod100(4 * era + c + 1);
      Mod400(era, 100 * (c + 1));
    }
  }

  lemma Mod4(a: nat, r: nat)
    ensures (4 * a + r) % 4 == r % 4
  {
  }

  lemma Mod100(a: nat)
    ensures 100 * a % 100 == 0
  {
  }

  lemma Mod400(a: nat, r: nat)
    ensures (400 * a + r) % 400 == r % 400
  {
  }

  lemma FromDaysOfToDays(date: Date)
    requires ValidDate(date) && date.year >= 1970
    ensures FromDays(ToDays(date)) == date
  {
    hide IsLeap, YearStart, YearOfEra, MonthStart, DateInEra;
    var y := date.year - (if date.month <= 2 then 1 else 0);
    var m := if date.month > 2 then date.month - 3 else date.month + 9;
    if date.month != 2 { MonthLengths(date.month); }
    MonthOfDay(m, date.day);
    var dayOfYear := MonthStart(m) + date.day - 1;
    var dayOfEra := YearStart(y % 400) + dayOfYear;
    assert 0 <= dayOfEra < DAYS_PER_CYCLE && YearOfEra(dayOfEra) == y % 400 by {
      var c, q, s := SplitYear(y, dayOfYear);
      YearOfEraExact(c, q, s, dayOfYear);
      ExactBounds(c, q, s, dayOfYear);
    }
    DayNumberSplits(y / 400, dayOfEra);
    assert ToDays(date) + EPOCH_SHIFT == y / 400 * DAYS_PER_CYCLE + dayOfEra;
    DateFromParts(date, y, m, dayOfYear);
  }

  lemma ExactBounds(c: nat, q: nat, s: nat, dayOfYear: nat)
    requires c <= 3 && q <= 24 && s <= 3 && dayOfYear <= 365
    requires dayOfYear == 365 ==> s == 3 && (q < 24 || c == 3)
    ensures 0 <= 36_524 * c + 1_461 * q + 365 * s + dayOfYear < DAYS_PER_CYCLE
  {
  }

  /** Reading a date off the right year and day of the year. */
  lemma DateFromParts(date: Date, y: nat, m: nat, dayOfYear: nat)
    requires 1 <= date.month <= 12 && date.year >= 1970
    requires y == date.year - (if date.month <= 2 then 1 else 0)
    requires m == if date.month > 2 then date.month - 3 else date.month + 9
    requires dayOfYear == MonthStart(m) + date.day - 1 && (5 * dayOfYear + 2) / 153 == m
    requires 0 <= YearStart(y % 400) + dayOfYear < DAYS_PER_CYCLE
    requires YearOfEra(YearStart(y % 400) + dayOfYear) == y % 400
    ensures DateInEra(y / 400, YearStart(y % 400) + dayOfYear) == date
  {
    hide YearStart, YearOfEra, MonthStart;
  }

  lemma DayNumberSplits(era: nat, dayOfEra: nat)
    requires dayOfEra < DAYS_PER_CYCLE
    ensures (era * DAYS_PER_CYCLE + dayOfEra) / DAYS_PER_CYCLE == era
    ensures (era * DAYS_PER_CYCLE + dayOfEra) % DAYS_PER_CYCLE == dayOfEra
  {
  }

  lemma EpochIsDayZero()
    ensures FromDays(0) == Date(1970, 1, 1) && ValidDate(FromDays(0)) && ToDays(FromDays(0)) == 0
  {
    hide FromDays;
    var epoch := Date(1970, 1, 1);
    assert MonthStart(10) == 306 && YearStart(369) == 134_774;
    hide MonthStart, YearStart;
    assert ToDays(epoch) == 0;
    FromDaysOfToDays(epoch);
  }

  /** `FromDays` is the calendar: it is what turning that many pages from
      1970-01-01 gives, and `ToDays` counts the pages back. */
  lemma {:induction false} FromDaysIsTheCalendar(days: nat)
    ensures FromDays(days) == PagesTurned(days)
    ensures ValidDate(FromDays(days)) && FromDays(days).year >= 1970
    ensures ToDays(FromDays(days)) == days
    ensures FromDays(days + 1) == NextDay(FromDays(days))
  {
    hide FromDays, ToDays, DaysIn;
    if days == 0 {
      EpochIsDayZero();
    } else {
      FromDaysIsTheCalendar(days - 1);
      NextDayAddsOne(FromDays(days - 1));
    }
    NextDayAddsOne(FromDays(days));
    FromDaysOfToDays(NextDay(FromDays(days)));
  }

  /** And `Weekday` is the weekday on that page. */
  lemma {:induction false} WeekdayIsTheCalendar(days: nat)
    ensures Weekday(days) == WeekdayTurned(days)
  {
    if days > 0 { WeekdayIsTheCalendar(days - 1); }
  }

  /** The leap day of 2024 was a Thursday, 1 September 2024 a Sunday, and the 6th
      a Friday. */
  lemma DatedWeekdays()
    ensures ToDays(Date(2024, 2, 29)) == 19_782 && Weekday(19_782) == 4
    ensures ToDays(Date(2024, 9, 1)) == 19_967 && Weekday(19_967) == 0
    ensures ToDays(Date(2024, 9, 6)) == 19_972 && Weekday(19_972) == 5
  {
    assert MonthStart(11) == 337 && MonthStart(6) == 184;
    assert YearStart(23) == 8_400 && YearStart(24) == 8_766;
  }

  /** The month skip lands on the 1st of another month and passes only days of
      the month it leaves. */
  lemma FirstOfNextMonthIsLeast(days: nat)
    ensures ValidDate(FromDays(days)) && FromDays(days).year >= 1970
    ensures
      var date := FromDays(days);
      var next := FirstOfNextMonth(date);
      && days < next
      && FromDays(next).day == 1
      && (FromDays(next).month, FromDays(next).year) != (date.month, date.year)
      && forall d :: days <= d < next ==>
                       FromDays(d).month == date.month && FromDays(d).year == date.year
  {
    FromDaysIsTheCalendar(days);
    MonthRun(days);
  }

  /** The days from day `days` to the end of its month, in order. */
  lemma {:induction false} MonthRun(days: nat)
    ensures ValidDate(FromDays(days)) && FromDays(days).year >= 1970
    ensures
      var date := FromDays(days);
      var next := FirstOfNextMonth(date);
      && next == days + DaysIn(date.year, date.month) - date.day + 1
      && FromDays(next) == NextDay(date.(day := DaysIn(date.year, date.month)))
      && forall d :: days <= d < next ==> FromDays(d) == date.(day := date.day + d - days)
    decreases DaysIn(FromDays(days).year, FromDays(days).month) - FromDays(days).day
  {
    hide FromDays, ToDays, IsLeap, LongestMonth;
    FromDaysIsTheCalendar(days);
    var date := FromDays(days);
    NextDayAddsOne(date);
    FromDaysOfToDays(NextDay(date));
    if date.day < DaysIn(date.year, date.month) {
      MonthRun(days + 1);
      assert FirstOfNextMonth(NextDay(date)) == FirstOfNextMonth(date);
    }
  }

  /** After one Gregorian cycle both the date and the weekday repeat. */
  lemma CycleRepeats(days: nat)
    ensures FromDays(days + DAYS_PER_CYCLE) == FromDays(days).(year := FromDays(days).year + 400)
    ensures Weekday(days + DAYS_PER_CYCLE) == Weekday(days)
  {
    hide DateInEra;
    var shifted := days + EPOCH_SHIFT;
    var era, dayOfEra := shifted / DAYS_PER_CYCLE, shifted % DAYS_PER_CYCLE;
    DayNumberSplits(era + 1, dayOfEra);
    NextEra(era, dayOfEra);
  }

  lemma NextEra(era: nat, dayOfEra: nat)
    requires dayOfEra < DAYS_PER_CYCLE
    ensures DateInEra(era + 1, dayOfEra)
         == DateInEra(era, dayOfEra).(year := DateInEra(era, dayOfEra).year + 400)
  {
    hide YearOfEra, YearStart, MonthStart;
  }
}
