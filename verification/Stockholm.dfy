/** Stockholm local time (`src/util/time.rs`): CET, or CEST during EU summer time. */
module Stockholm {
  import opened Calendar

  const DAY: int := 86_400
  const HOUR: int := 3600

  datatype DateTime = DateTime(
    year: int, month: int, day: int, hour: int, minute: int, second: int, offsetSeconds: int)

  function FromUnix(unix: int, offset: int): DateTime {
    var local := unix + offset;
    var date := CivilFromDays(local / DAY);
    var seconds := local % DAY;
    DateTime(date.year, date.month, date.day, seconds / HOUR, seconds % HOUR / 60, seconds % 60, offset)
  }

  /** Days from the last Sunday: 0 on a Sunday. Unix day 0 was a Thursday. */
  function WeekdayFromSunday(days: int): int {
    (days + 4) % 7
  }

  function LastSunday(year: int, month: int): int {
    var (nextYear, nextMonth) := if month == 12 then (year + 1, 1) else (year, month + 1);
    var lastDay := DaysFromCivil(Date(nextYear, nextMonth, 1)) - 1;
    lastDay - WeekdayFromSunday(lastDay)
  }

  /** The instants summer time starts and ends: 01:00 UTC on the last Sunday of March and October. */
  function Starts(year: int): int {
    LastSunday(year, 3) * DAY + HOUR
  }

  function Ends(year: int): int {
    LastSunday(year, 10) * DAY + HOUR
  }

  function OffsetSeconds(unix: int): int {
    var year := CivilFromDays(unix / DAY).year;
    if Starts(year) <= unix < Ends(year) then 2 * HOUR else HOUR
  }

  function ToStockholm(unix: int): DateTime {
    FromUnix(unix, OffsetSeconds(unix))
  }

  // ---- Sundays ----

  lemma DaysOfMonth(year: int, month: int, day: int)
    requires 1 <= month <= 12
    ensures DaysFromCivil(Date(year, month, day)) == DaysFromCivil(Date(year, month, 1)) + day - 1
  {
    hide DaysFromCivil, YearStart;
    ClosedForm(Date(year, month, day));
    ClosedForm(Date(year, month, 1));
    assert ClosedDays(Date(year, month, day)) == ClosedDays(Date(year, month, 1)) + day - 1;
  }

  /** The last day of a month is the day before the first of the next. */
  lemma LastDay(year: int, month: int)
    requires 1 <= month <= 12
    ensures var next := if month == 12 then Date(year + 1, 1, 1) else Date(year, month + 1, 1);
            DaysFromCivil(next) - 1 == DaysFromCivil(Date(year, month, DaysInMonth(year, month)))
  {
    DaysCountDays(Date(year, month, DaysInMonth(year, month)));
  }

  function SundayOf(year: int, month: int): Date
    requires 1 <= month <= 12
  {
    var length := DaysInMonth(year, month);
    Date(year, month, length - WeekdayFromSunday(DaysFromCivil(Date(year, month, length))))
  }

  lemma SundayIsInTheMonth(year: int, month: int)
    requires 1 <= month <= 12
    ensures LastSunday(year, month) == DaysFromCivil(SundayOf(year, month))
  {
    hide DaysFromCivil, DaysInMonth, WeekdayFromSunday;
    LastDay(year, month);
    DaysOfMonth(year, month, DaysInMonth(year, month));
    DaysOfMonth(year, month, SundayOf(year, month).day);
  }

  lemma LastSundayIsASunday(year: int, month: int)
    ensures LastSunday(year, month) % 7 == 3
  {
    var (nextYear, nextMonth) := if month == 12 then (year + 1, 1) else (year, month + 1);
    BackToSunday(DaysFromCivil(Date(nextYear, nextMonth, 1)) - 1);
  }

  lemma BackToSunday(day: int)
    ensures (day - WeekdayFromSunday(day)) % 7 == 3
  {
  }

  /**
   * `last_sunday` is a Sunday of that month, and within a week of the month's last day. Day 3 was
   * Sunday the fourth of January 1970, so the Sundays are the days that leave 3 when divided by 7.
   */
  lemma LastSundayIsTheLastSunday(year: int, month: int)
    requires 1 <= month <= 12
    ensures LastSunday(year, month) % 7 == 3 == DaysFromCivil(Date(1970, 1, 4))
    ensures var date := WideCivilFromDays(LastSunday(year, month));
            date.year == year && date.month == month && date.day + 7 > DaysInMonth(year, month)
  {
    LastSundayIsASunday(year, month);
    SundayIsInTheMonth(year, month);
    DateOf(SundayOf(year, month));
    FirstSunday();
  }

  lemma FirstSunday()
    ensures DaysFromCivil(Date(1970, 1, 4)) == 3
  {
    DayZero();
    DaysOfMonth(1970, 1, 4);
  }

  /** A valid date is the date of its own day. */
  lemma DateOf(date: Date)
    requires Valid(date)
    ensures WideCivilFromDays(DaysFromCivil(date)) == date
  {
    ClosedForm(date);
    WideRoundTrip(ClosedDays(date));
    OnlyOneDate(WideCivilFromDays(ClosedDays(date)), date);
  }

  // ---- Summer time ----

  /** The year of an instant, in UTC. */
  function UtcYear(unix: int): int {
    WideCivilFromDays(unix / DAY).year
  }

  lemma DatesGrow(a: int, b: int)
    requires a <= b
    ensures !Before(WideCivilFromDays(b), WideCivilFromDays(a))
  {
    WideRoundTrip(a);
    WideRoundTrip(b);
    if Before(WideCivilFromDays(b), WideCivilFromDays(a)) {
      DaysAreInOrder(WideCivilFromDays(b), WideCivilFromDays(a));
    }
  }

  /** Both switches are well inside their year, and March comes before October. */
  lemma SwitchesAreInside(year: int)
    ensures DaysFromCivil(Date(year, 1, 1)) + 2 < LastSunday(year, 3)
    ensures LastSunday(year, 3) + 2 < LastSunday(year, 10)
    ensures LastSunday(year, 10) + 2 < DaysFromCivil(Date(year, 12, 31))
  {
    DaysOfMonth(year, 4, 1);
    ClosedForm(Date(year, 1, 1));
    ClosedForm(Date(year, 4, 1));
    ClosedForm(Date(year, 11, 1));
    ClosedForm(Date(year, 12, 31));
    YearLength(year - 1);
  }

  /** Whatever is between the switches of a year, give or take a day, is in that year. */
  lemma NearSummer(year: int, unix: int)
    requires Starts(year) - DAY <= unix < Ends(year) + DAY
    ensures UtcYear(unix) == year
  {
    SwitchesAreInside(year);
    var day := unix / DAY;
    DateOf(Date(year, 1, 1));
    DateOf(Date(year, 12, 31));
    DatesGrow(DaysFromCivil(Date(year, 1, 1)), day);
    DatesGrow(day, DaysFromCivil(Date(year, 12, 31)));
  }

  predicate Summer(unix: int) {
    Starts(UtcYear(unix)) <= unix < Ends(UtcYear(unix))
  }

  function LocalSeconds(unix: int): int {
    unix + if Summer(unix) then 2 * HOUR else HOUR
  }

  /** Instants whose year an `i32` can hold, in UTC and in local time. */
  predicate Representable(unix: int) {
    FitsI32(UtcYear(unix)) && FitsI32(UtcYear(LocalSeconds(unix)))
  }

  lemma OffsetIsSummer(unix: int)
    requires FitsI32(UtcYear(unix))
    ensures unix + OffsetSeconds(unix) == LocalSeconds(unix)
  {
    AsI32Identity(UtcYear(unix));
  }

  // ---- The wall clock ----

  /** The fields a Stockholm clock shows, without the offset. */
  function Wall(unix: int): DateTime {
    ToStockholm(unix).(offsetSeconds := 0)
  }

  lemma ClockFields(a: int, b: int)
    requires 0 <= a < DAY && 0 <= b < DAY
    ensures a / HOUR == b / HOUR && a % HOUR / 60 == b % HOUR / 60 && a % 60 == b % 60 <==> a == b
  {
    assert a == a / HOUR * HOUR + a % HOUR && a % HOUR == a % HOUR / 60 * 60 + a % HOUR % 60;
    assert b == b / HOUR * HOUR + b % HOUR && b % HOUR == b % HOUR / 60 * 60 + b % HOUR % 60;
    SecondsOf(a);
    SecondsOf(b);
  }

  lemma SecondsOf(a: int)
    ensures a % HOUR % 60 == a % 60
  {
    FloorIs(a, 60, 60 * (a / HOUR) + a % HOUR / 60);
  }

  lemma ClocksTell(a: int, b: int)
    requires FitsI32(UtcYear(a)) && FitsI32(UtcYear(b))
    ensures FromUnix(a, 0) == FromUnix(b, 0) <==> a == b
  {
    DaysRoundTrip(a / DAY);
    DaysRoundTrip(b / DAY);
    ClockFields(a % DAY, b % DAY);
  }

  lemma WallIsUtcOfLocal(unix: int)
    requires Representable(unix)
    ensures Wall(unix) == FromUnix(LocalSeconds(unix), 0) && FitsI32(UtcYear(LocalSeconds(unix)))
  {
    OffsetIsSummer(unix);
  }

  /** Two clocks agree exactly when the local seconds do. */
  lemma WallIsLocalSeconds(u: int, v: int)
    requires Representable(u) && Representable(v)
    ensures Wall(u) == Wall(v) <==> LocalSeconds(u) == LocalSeconds(v)
  {
    WallIsUtcOfLocal(u);
    WallIsUtcOfLocal(v);
    ClocksTell(LocalSeconds(u), LocalSeconds(v));
  }

  /**
   * Two instants read the same on a Stockholm clock exactly when they are an hour apart and the
   * first is in the last hour before an October switch.
   */
  lemma OnlyTheOctoberHourRepeats(u: int, v: int)
    requires Representable(u) && Representable(v) && u < v
    ensures Wall(u) == Wall(v) <==> v == u + HOUR && Ends(UtcYear(u)) - HOUR <= u < Ends(UtcYear(u))
  {
    WallIsLocalSeconds(u, v);
    var year := UtcYear(u);
    SwitchesAreInside(year);
    if v == u + HOUR && Starts(year) <= u < Ends(year) {
      NearSummer(year, v);
    }
  }

  /** The hour that is skipped in March: two to three o'clock on the last Sunday. */
  predicate Skipped(year: int, local: int) {
    LastSunday(year, 3) * DAY + 2 * HOUR <= local < LastSunday(year, 3) * DAY + 3 * HOUR
  }

  /** No instant reads as a skipped time. */
  lemma SkippedIsNeverShown(unix: int, year: int)
    ensures !Skipped(year, LocalSeconds(unix))
  {
    SwitchesAreInside(year);
    if Skipped(year, LocalSeconds(unix)) {
      NearSummer(year, unix);
    }
  }

  /** A local time that is not skipped is shown, at an instant of the year it was an hour before. */
  lemma InstantOf(local: int) returns (unix: int)
    requires forall year :: !Skipped(year, local)
    ensures LocalSeconds(unix) == local && UtcYear(unix) == UtcYear(local - HOUR)
  {
    unix := local - HOUR;
    if Summer(unix) {
      var year := UtcYear(unix);
      assert !Skipped(year, local);
      unix := local - 2 * HOUR;
      NearSummer(year, unix);
    }
  }

  lemma YearOfInstant(unix: int)
    ensures UtcYear(LocalSeconds(unix) - HOUR) == UtcYear(unix)
  {
    if Summer(unix) {
      NearSummer(UtcYear(unix), unix + HOUR);
    }
  }

  /** What a clock can read: a date of the calendar and a time of day. */
  predicate IsReading(clock: DateTime) {
    && Valid(DateOn(clock))
    && 0 <= clock.hour < 24 && 0 <= clock.minute < 60 && 0 <= clock.second < 60
    && clock.offsetSeconds == 0
  }

  function DateOn(clock: DateTime): Date {
    Date(clock.year, clock.month, clock.day)
  }

  function SecondsAt(clock: DateTime): int {
    DaysFromCivil(DateOn(clock)) * DAY + clock.hour * HOUR + clock.minute * 60 + clock.second
  }

  lemma ReadingOf(clock: DateTime)
    requires IsReading(clock) && FitsI32(clock.year)
    ensures FromUnix(SecondsAt(clock), 0) == clock && UtcYear(SecondsAt(clock)) == clock.year
  {
    hide DaysFromCivil, WideCivilFromDays, DaysInMonth;
    var days := DaysFromCivil(DateOn(clock));
    var seconds := clock.hour * HOUR + clock.minute * 60 + clock.second;
    FloorIs(SecondsAt(clock), DAY, days);
    FloorIs(seconds, HOUR, clock.hour);
    FloorIs(clock.minute * 60 + clock.second, 60, clock.minute);
    FloorIs(seconds, 60, clock.hour * 60 + clock.minute);
    DateOf(DateOn(clock));
    AsI32Identity(clock.year);
  }

  /** The hour between two and three on the last Sunday of March. */
  predicate ReadsSkipped(clock: DateTime) {
    clock.month == 3 && clock.day > 24 && DaysFromCivil(DateOn(clock)) % 7 == 3 && clock.hour == 2
  }

  lemma LastSundayOfMarch(date: Date)
    requires Valid(date)
    ensures date == SundayOf(date.year, 3) <==> date.month == 3 && date.day > 24 && DaysFromCivil(date) % 7 == 3
  {
    hide DaysFromCivil, LastSunday, WeekdayFromSunday;
    var sunday := SundayOf(date.year, 3);
    SundayIsInTheMonth(date.year, 3);
    LastSundayIsASunday(date.year, 3);
    if date.month == 3 {
      DaysOfMonth(date.year, 3, date.day);
      DaysOfMonth(date.year, 3, sunday.day);
      WeekdaysAre0To6(DaysFromCivil(Date(date.year, 3, DaysInMonth(date.year, 3))));
      if date.day > 24 && DaysFromCivil(date) % 7 == 3 {
        SevensApart(DaysFromCivil(date), DaysFromCivil(sunday));
      }
    }
  }

  lemma WeekdaysAre0To6(day: int)
    ensures 0 <= WeekdayFromSunday(day) < 7
  {
  }

  lemma SevensApart(a: int, b: int)
    requires a % 7 == b % 7 && -7 < a - b < 7
    ensures a == b
  {
  }

  lemma SkippedReadings(clock: DateTime, year: int)
    requires IsReading(clock)
    ensures Skipped(year, SecondsAt(clock)) <==> ReadsSkipped(clock) && year == clock.year
  {
    hide DaysFromCivil, LastSunday;
    SundayIsInTheMonth(year, 3);
    LastSundayOfMarch(DateOn(clock));
    if Skipped(year, SecondsAt(clock)) {
      assert DaysFromCivil(DateOn(clock)) == DaysFromCivil(SundayOf(year, 3));
      ClosedForm(DateOn(clock));
      ClosedForm(SundayOf(year, 3));
      OnlyOneDate(DateOn(clock), SundayOf(year, 3));
    }
  }

  /**
   * Every other time is shown: a reading appears on the clock exactly when it is not in the skipped
   * hour, and its instant not before the first year an `i32` holds.
   */
  lemma EveryOtherTimeIsShown(clock: DateTime)
    requires IsReading(clock) && FitsI32(clock.year)
    ensures (exists unix :: Representable(unix) && Wall(unix) == clock) <==>
            !ReadsSkipped(clock) && FitsI32(UtcYear(SecondsAt(clock) - HOUR))
  {
    hide Summer, LocalSeconds, SundayOf, Skipped, Wall, FromUnix, SecondsAt, IsReading, WideCivilFromDays;
    ReadingOf(clock);
    var local := SecondsAt(clock);
    if unix :| Representable(unix) && Wall(unix) == clock {
      WallIsUtcOfLocal(unix);
      ClocksTell(LocalSeconds(unix), local);
      SkippedIsNeverShown(unix, clock.year);
      SkippedReadings(clock, clock.year);
      YearOfInstant(unix);
    }
    if !ReadsSkipped(clock) && FitsI32(UtcYear(local - HOUR)) {
      forall year
        ensures !Skipped(year, local)
      {
        SkippedReadings(clock, year);
      }
      var unix := InstantOf(local);
      WallIsUtcOfLocal(unix);
    }
  }

  // ---- The whole clock ----

  /** 01:00 UTC on the last Sunday of a month of 31 days. */
  predicate IsSwitch(unix: int, year: int, month: int) {
    var date := WideCivilFromDays(unix / 86_400);
    unix % 86_400 == 3600 && unix / 86_400 % 7 == 3 && date.year == year && date.month == month && date.day > 24
  }

  lemma SwitchesAreSundays(year: int, month: int)
    requires month == 3 || month == 10
    ensures IsSwitch(LastSunday(year, month) * DAY + HOUR, year, month)
  {
    hide LastSunday, WideCivilFromDays, DaysFromCivil;
    LastSundayIsTheLastSunday(year, month);
    FloorIs(LastSunday(year, month) * DAY + HOUR, DAY, LastSunday(year, month));
  }

  /** A month has one last Sunday. */
  lemma OneSwitch(a: int, b: int, year: int, month: int)
    requires IsSwitch(a, year, month) && IsSwitch(b, year, month)
    ensures a == b
  {
    hide WideCivilFromDays, ClosedDays, Valid;
    var m, n := a / 86_400, b / 86_400;
    var first, last := WideCivilFromDays(m), WideCivilFromDays(n);
    WideRoundTrip(m);
    WideRoundTrip(n);
    SameMonth(first, last);
    SevensApart(m, n);
    assert a == 86_400 * m + a % 86_400 && b == 86_400 * n + b % 86_400;
  }

  lemma SameMonth(a: Date, b: Date)
    requires Valid(a) && Valid(b) && a.year == b.year && a.month == b.month
    ensures ClosedDays(b) - ClosedDays(a) == b.day - a.day && a.day <= 31 && b.day <= 31
  {
    hide YearStart;
  }

  /**
   * A Stockholm clock shows the date and time that many seconds ahead of UTC as its offset says, and
   * the offset is two hours from 01:00 UTC on the last Sunday of March to 01:00 UTC on the last Sunday
   * of October of the year it is in UTC, and one hour otherwise.
   */
  lemma ClockShowsTheOffset(unix: int, starts: int, ends: int)
    requires Representable(unix)
    requires IsSwitch(starts, UtcYear(unix), 3) && IsSwitch(ends, UtcYear(unix), 10)
    ensures var clock := ToStockholm(unix);
            && IsReading(clock.(offsetSeconds := 0))
            && SecondsAt(clock) == unix + clock.offsetSeconds
            && clock.offsetSeconds == if starts <= unix < ends then 7200 else 3600
  {
    hide IsSwitch, LastSunday, FromUnix, IsReading, SecondsAt, WideCivilFromDays;
    var year := UtcYear(unix);
    SwitchesAreSundays(year, 3);
    SwitchesAreSundays(year, 10);
    OneSwitch(starts, Starts(year), year, 3);
    OneSwitch(ends, Ends(year), year, 10);
    AsI32Identity(year);
    OffsetIsSummer(unix);
    ShowsLocalTime(unix, OffsetSeconds(unix));
  }

  /** The fields of a clock read as local time again. */
  lemma ShowsLocalTime(unix: int, offset: int)
    requires FitsI32(UtcYear(unix + offset))
    ensures var clock := FromUnix(unix, offset);
            && clock.offsetSeconds == offset
            && IsReading(clock.(offsetSeconds := 0))
            && SecondsAt(clock) == unix + offset
  {
    hide CivilFromDays, DaysFromCivil, WideCivilFromDays, DaysInMonth;
    var local := unix + offset;
    DaysRoundTrip(local / DAY);
    var seconds := local % DAY;
    assert seconds == seconds / HOUR * HOUR + seconds % HOUR;
    assert seconds % HOUR == seconds % HOUR / 60 * 60 + seconds % HOUR % 60;
    SecondsOf(seconds);
  }

  /** The skipped hour, as the clock would show it. */
  lemma NoClockShowsTheSkippedHour(unix: int, year: int)
    requires Representable(unix)
    ensures var clock := ToStockholm(unix);
            var sunday := WideCivilFromDays(LastSunday(year, 3));
            !(Date(clock.year, clock.month, clock.day) == sunday && clock.hour == 2)
  {
    hide Summer, LastSunday, WideCivilFromDays;
    SkippedIsNeverShown(unix, year);
    OffsetIsSummer(unix);
    var local := LocalSeconds(unix);
    AsI32Identity(WideCivilFromDays(local / DAY).year);
    if WideCivilFromDays(local / DAY) == WideCivilFromDays(LastSunday(year, 3)) {
      DatesAreDays(local / DAY, LastSunday(year, 3));
    }
  }

  lemma DatesAreDays(a: int, b: int)
    requires WideCivilFromDays(a) == WideCivilFromDays(b)
    ensures a == b
  {
    WideRoundTrip(a);
    WideRoundTrip(b);
  }
}
