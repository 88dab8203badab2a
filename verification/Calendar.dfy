/** The civil calendar (`src/util/time.rs`): Howard Hinnant's conversions, in truncating arithmetic. */
module Calendar {
  import opened Arithmetic

  /** Rust's `/` and `%` on signed integers truncate toward zero. */
  function Div(a: int, b: int): int
    requires b > 0
  {
    if a >= 0 then a / b else -(-a / b)
  }

  function Rem(a: int, b: int): int
    requires b > 0
  {
    a - Div(a, b) * b
  }

  /** `as i32`. */
  function AsI32(n: int): int {
    (n + 0x8000_0000) % 0x1_0000_0000 - 0x8000_0000
  }

  predicate FitsI32(n: int) {
    -0x8000_0000 <= n < 0x8000_0000
  }

  datatype Date = Date(year: int, month: int, day: int)

  predicate IsLeap(year: int) {
    (Rem(year, 4) == 0 && Rem(year, 100) != 0) || Rem(year, 400) == 0
  }

  function DaysInMonth(year: int, month: int): int {
    if month in {1, 3, 5, 7, 8, 10, 12} then 31
    else if month in {4, 6, 9, 11} then 30
    else if month == 2 then (if IsLeap(year) then 29 else 28)
    else 0
  }

  predicate Valid(date: Date) {
    1 <= date.month <= 12 && 1 <= date.day <= DaysInMonth(date.year, date.month)
  }

  function DaysFromCivil(date: Date): int {
    var year := date.year - if date.month <= 2 then 1 else 0;
    var era := Div(if year >= 0 then year else year - 399, 400);
    var yearOfEra := year - era * 400;
    var month := date.month;
    var dayOfYear := Div(153 * (if month > 2 then month - 3 else month + 9) + 2, 5) + date.day - 1;
    var dayOfEra := yearOfEra * 365 + Div(yearOfEra, 4) - Div(yearOfEra, 100) + dayOfYear;
    era * 146_097 + dayOfEra - 719_468
  }

  /** The conversion in `i64`, before the year is cast to `i32`. */
  function WideCivilFromDays(days: int): Date {
    var (year, dayOfYear) := YearAndDay(days);
    DateAt(year, dayOfYear)
  }

  /** The year that begins in March, and the day of it. */
  function YearAndDay(days: int): (int, int) {
    var days := days + 719_468;
    var era := Div(if days >= 0 then days else days - 146_096, 146_097);
    var dayOfEra := days - era * 146_097;
    var yearOfEra := YearOfEra(dayOfEra);
    (yearOfEra + era * 400, dayOfEra - (365 * yearOfEra + Div(yearOfEra, 4) - Div(yearOfEra, 100)))
  }

  /** The date of a day of a year that begins in March. */
  function DateAt(year: int, dayOfYear: int): Date {
    var monthPrime := Div(5 * dayOfYear + 2, 153);
    var day := dayOfYear - Div(153 * monthPrime + 2, 5) + 1;
    var month := if monthPrime < 10 then monthPrime + 3 else monthPrime - 9;
    Date(year + (if month <= 2 then 1 else 0), month, day)
  }

  function YearOfEra(dayOfEra: int): int {
    Div(dayOfEra - Div(dayOfEra, 1460) + Div(dayOfEra, 36_524) - Div(dayOfEra, 146_096), 365)
  }

  function CivilFromDays(days: int): Date {
    var date := WideCivilFromDays(days);
    date.(year := AsI32(date.year))
  }

  // ---- Years that begin in March ----

  /** Days before the first of March of `year`, counted from the year 0. */
  function YearStart(year: int): int {
    365 * year + year / 4 - year / 100 + year / 400
  }

  function MarchYear(date: Date): int {
    date.year - if date.month <= 2 then 1 else 0
  }

  /** Months from March, 0 to 11. */
  function MarchMonth(date: Date): int {
    if date.month > 2 then date.month - 3 else date.month + 9
  }

  /** Days before month `m` of a year that begins in March. */
  function MonthStart(m: int): int
    requires 0 <= m <= 12
  {
    (153 * m + 2) / 5
  }

  function DayOfYear(date: Date): int
    requires 1 <= date.month <= 12
  {
    MonthStart(MarchMonth(date)) + date.day - 1
  }

  lemma FloorIs(n: int, m: int, q: int)
    requires 0 <= n - m * q < m
    ensures n / m == q && n % m == n - m * q
  {
    DivMod(n, m, q, n - m * q);
  }

  /** The shifted and truncating division is a flooring one. */
  lemma EraIsFloor(n: int, length: int)
    requires length > 0
    ensures Div(if n >= 0 then n else n - (length - 1), length) == n / length
  {
    if n < 0 {
      var k := -n - 1;
      assert n == length * (-(k / length) - 1) + (length - 1 - k % length);
      FloorIs(n, length, -(k / length) - 1);
      assert -(n - (length - 1)) == k + length;
      FloorIs(k + length, length, k / length + 1);
    }
  }

  /** `days_from_civil` as one sum of floors. */
  function ClosedDays(date: Date): int
    requires 1 <= date.month <= 12
  {
    YearStart(MarchYear(date)) + DayOfYear(date) - 719_468
  }

  lemma ClosedForm(date: Date)
    requires 1 <= date.month <= 12
    ensures DaysFromCivil(date) == ClosedDays(date)
  {
    EraIsFloor(MarchYear(date), 400);
    var era := MarchYear(date) / 400;
    var yearOfEra := MarchYear(date) - era * 400;
    assert 0 <= yearOfEra < 400;
    assert MarchYear(date) / 4 == 100 * era + yearOfEra / 4;
    assert MarchYear(date) / 100 == 4 * era + yearOfEra / 100;
  }

  lemma LeapIsFloor(year: int)
    ensures IsLeap(year) <==> (year % 4 == 0 && year % 100 != 0) || year % 400 == 0
  {
    RemZero(year, 4);
    RemZero(year, 100);
    RemZero(year, 400);
  }

  lemma RemZero(n: int, b: int)
    requires b > 0
    ensures Rem(n, b) == 0 <==> n % b == 0
  {
    if n < 0 {
      var q, r := -n / b, -n % b;
      assert b * q == -n - r;
      assert Rem(n, b) == -r;
      if r == 0 {
        DivMod(n, b, -q, 0);
      } else {
        DivMod(n, b, -q - 1, b - r);
      }
    } else {
      assert n == b * (n / b) + n % b;
    }
  }

  /** A year that begins in March ends with February of the next civil year. */
  lemma YearLength(year: int)
    ensures YearStart(year + 1) - YearStart(year) == if IsLeap(year + 1) then 366 else 365
  {
    hide IsLeap;
    LeapIsFloor(year + 1);
    Multiples(year + 1);
    StepOf(year, 4);
    StepOf(year, 100);
    StepOf(year, 400);
  }

  lemma Multiples(n: int)
    ensures n % 400 == 0 ==> n % 100 == 0
    ensures n % 100 == 0 ==> n % 4 == 0
  {
    if n % 400 == 0 {
      FloorIs(n, 100, 4 * (n / 400));
    }
    if n % 100 == 0 {
      FloorIs(n, 4, 25 * (n / 100));
    }
  }

  lemma StepOf(n: int, b: int)
    requires b > 1
    ensures (n + 1) / b == n / b + if (n + 1) % b == 0 then 1 else 0
  {
    var r := n % b;
    assert n == b * (n / b) + r;
    if r == b - 1 {
      FloorIs(n + 1, b, n / b + 1);
    } else {
      FloorIs(n + 1, b, n / b);
    }
  }

  lemma YearsGrow(a: int, b: int)
    requires a <= b
    ensures YearStart(a) <= YearStart(b)
  {
  }

  /** The month table: `(153 m + 2) / 5` starts each month where the one before ends. */
  lemma MonthLength(date: Date)
    requires Valid(date)
    ensures var m := MarchMonth(date);
            && (m < 11 ==> DaysInMonth(date.year, date.month) == MonthStart(m + 1) - MonthStart(m))
            && (m == 11 ==> MonthStart(m) + DaysInMonth(date.year, date.month) ==
                              if IsLeap(date.year) then 366 else 365)
  {
  }

  lemma DayOfYearInYear(date: Date)
    requires Valid(date)
    ensures 0 <= DayOfYear(date) < YearStart(MarchYear(date) + 1) - YearStart(MarchYear(date))
    ensures MarchMonth(date) < 11 ==> DayOfYear(date) < MonthStart(MarchMonth(date) + 1)
  {
    YearLength(MarchYear(date));
    MonthLength(date);
  }

  // ---- Order ----

  predicate Before(a: Date, b: Date) {
    a.year < b.year || (a.year == b.year && (a.month < b.month || (a.month == b.month && a.day < b.day)))
  }

  lemma DaysOfTheYearAreInOrder(a: Date, b: Date)
    requires Valid(a) && Valid(b) && Before(a, b) && MarchYear(a) == MarchYear(b)
    ensures DayOfYear(a) < DayOfYear(b)
  {
    if MarchMonth(a) < MarchMonth(b) {
      DayOfYearInYear(a);
      MonthsGrow(MarchMonth(a) + 1, MarchMonth(b));
    }
  }

  lemma MonthsGrow(m: int, n: int)
    requires 0 <= m <= n <= 12
    ensures MonthStart(m) <= MonthStart(n)
  {
  }

  lemma DaysAreInOrder(a: Date, b: Date)
    requires Valid(a) && Valid(b) && Before(a, b)
    ensures ClosedDays(a) < ClosedDays(b)
  {
    if MarchYear(a) < MarchYear(b) {
      DayOfYearInYear(a);
      DayOfYearInYear(b);
      YearsGrow(MarchYear(a) + 1, MarchYear(b));
    } else {
      DaysOfTheYearAreInOrder(a, b);
    }
  }

  /** Days count dates in calendar order, and no two dates share a day. */
  lemma DateOrderIsDayOrder(a: Date, b: Date)
    requires Valid(a) && Valid(b)
    ensures DaysFromCivil(a) < DaysFromCivil(b) <==> Before(a, b)
    ensures DaysFromCivil(a) == DaysFromCivil(b) <==> a == b
  {
    ClosedForm(a);
    ClosedForm(b);
    if Before(a, b) {
      DaysAreInOrder(a, b);
    } else if Before(b, a) {
      DaysAreInOrder(b, a);
    }
  }

  // ---- Back from days ----

  /**
   * A day of an era splits into its century, four-year cycle, year and day; the 366th day is there
   * only at the end of a cycle, and at the end of a century only in the last one.
   */
  lemma SplitDayOfEra(dayOfEra: int) returns (c: int, q: int, r: int, d: int)
    requires 0 <= dayOfEra < 146_097
    ensures 0 <= c <= 3 && 0 <= q <= 24 && 0 <= r <= 3 && 0 <= d <= 365
    ensures d == 365 ==> r == 3 && (q < 24 || c == 3)
    ensures dayOfEra == 36_524 * c + 1461 * q + 365 * r + d
  {
    c := if dayOfEra / 36_524 > 3 then 3 else dayOfEra / 36_524;
    var x := dayOfEra - 36_524 * c;
    q := x / 1461;
    var w := x - 1461 * q;
    r := if w / 365 > 3 then 3 else w / 365;
    d := w - 365 * r;
  }

  /** The quotient by 1460 counts cycles, and one more on late days of an era. */
  lemma CyclesOfEra(c: int, q: int, r: int, d: int) returns (e: int)
    requires 0 <= c <= 3 && 0 <= q <= 24 && 0 <= r <= 3 && 0 <= d <= 365
    ensures (36_524 * c + 1461 * q + 365 * r + d) / 1460 == 25 * c + q + e
    ensures e == if 24 * c + q + 365 * r + d >= 1460 then 1 else 0
  {
    e := if 24 * c + q + 365 * r + d >= 1460 then 1 else 0;
    DivMod(36_524 * c + 1461 * q + 365 * r + d, 1460, 25 * c + q + e, 24 * c + q + 365 * r + d - 1460 * e);
  }

  /** The quotients by a century and by an era go one too far together, on the last day of an era. */
  lemma CenturiesOfEra(c: int, q: int, r: int, d: int)
    requires 0 <= c <= 3 && 0 <= q <= 24 && 0 <= r <= 3 && 0 <= d <= 365
    requires d == 365 ==> r == 3 && (q < 24 || c == 3)
    ensures var dayOfEra := 36_524 * c + 1461 * q + 365 * r + d;
            dayOfEra / 36_524 - dayOfEra / 146_096 == c
  {
    var dayOfEra := 36_524 * c + 1461 * q + 365 * r + d;
    var last := if dayOfEra == 146_096 then 1 else 0;
    FloorIs(dayOfEra, 36_524, c + last);
    FloorIs(dayOfEra, 146_096, last);
  }

  lemma YearOfEraIs(c: int, q: int, r: int, d: int)
    requires 0 <= c <= 3 && 0 <= q <= 24 && 0 <= r <= 3 && 0 <= d <= 365
    requires d == 365 ==> r == 3 && (q < 24 || c == 3)
    ensures YearOfEra(36_524 * c + 1461 * q + 365 * r + d) == 100 * c + 4 * q + r
  {
    var e := CyclesOfEra(c, q, r, d);
    CenturiesOfEra(c, q, r, d);
    DivMod(36_500 * c + 1460 * q + 365 * r + d - e, 365, 100 * c + 4 * q + r, d - e);
  }

  lemma YearsOfEra(c: int, q: int, r: int)
    requires 0 <= c <= 3 && 0 <= q <= 24 && 0 <= r <= 3
    ensures var y := 100 * c + 4 * q + r;
            365 * y + Div(y, 4) - Div(y, 100) == 36_524 * c + 1461 * q + 365 * r
  {
    var y := 100 * c + 4 * q + r;
    FloorIs(y, 4, 25 * c + q);
    FloorIs(y, 100, c);
  }

  lemma LeapYearOfEra(era: int, c: int, q: int, r: int)
    requires 0 <= c <= 3 && 0 <= q <= 24 && 0 <= r <= 3
    ensures IsLeap(400 * era + 100 * c + 4 * q + r + 1) <==> r == 3 && (q < 24 || c == 3)
  {
    var y := 400 * era + 100 * c + 4 * q + r + 1;
    var cycleEnds := if r == 3 then 1 else 0;
    var centuryEnds := if r == 3 && q == 24 then 1 else 0;
    var eraEnds := if r == 3 && q == 24 && c == 3 then 1 else 0;
    FloorIs(y, 4, 100 * era + 25 * c + q + cycleEnds);
    FloorIs(y, 100, 4 * era + c + centuryEnds);
    FloorIs(y, 400, era + eraEnds);
    LeapIsFloor(y);
  }

  /** The month a day of the year falls in. */
  lemma MonthOf(d: int)
    requires 0 <= d <= 365
    ensures var m := (5 * d + 2) / 153;
            && 0 <= m <= 11 && MonthStart(m) <= d
            && (m < 11 ==> d < MonthStart(m + 1))
  {
  }

  lemma DateOfYear(year: int, d: int)
    requires 0 <= d <= 365 && (d == 365 ==> IsLeap(year + 1))
    ensures var m := (5 * d + 2) / 153;
            var month := if m < 10 then m + 3 else m - 9;
            0 <= m <= 11 && Valid(Date(year + (if month <= 2 then 1 else 0), month, d - MonthStart(m) + 1))
  {
    MonthOf(d);
  }

  lemma DateAtIsThatDay(year: int, d: int)
    requires 0 <= d <= 365 && (d == 365 ==> IsLeap(year + 1))
    ensures Valid(DateAt(year, d)) && MarchYear(DateAt(year, d)) == year && DayOfYear(DateAt(year, d)) == d
  {
    DateOfYear(year, d);
  }

  /** What `civil_from_days` computes, once the splitting is understood. */
  lemma WideSplit(days: int) returns (era: int, c: int, q: int, r: int, d: int)
    ensures 0 <= c <= 3 && 0 <= q <= 24 && 0 <= r <= 3 && 0 <= d <= 365
    ensures d == 365 ==> r == 3 && (q < 24 || c == 3)
    ensures days + 719_468 == 146_097 * era + 36_524 * c + 1461 * q + 365 * r + d
    ensures YearAndDay(days) == (100 * c + 4 * q + r + era * 400, d)
  {
    var n := days + 719_468;
    EraIsFloor(n, 146_097);
    era := n / 146_097;
    c, q, r, d := SplitDayOfEra(n - era * 146_097);
    SplitDate(days, era, c, q, r, d);
  }

  lemma SplitDate(days: int, era: int, c: int, q: int, r: int, d: int)
    requires 0 <= c <= 3 && 0 <= q <= 24 && 0 <= r <= 3 && 0 <= d <= 365
    requires d == 365 ==> r == 3 && (q < 24 || c == 3)
    requires era == Div(if days + 719_468 >= 0 then days + 719_468 else days + 719_468 - 146_096, 146_097)
    requires days + 719_468 == 146_097 * era + (36_524 * c + 1461 * q + 365 * r + d)
    ensures YearAndDay(days) == (100 * c + 4 * q + r + era * 400, d)
  {
    YearOfEraIs(c, q, r, d);
    YearsOfEra(c, q, r);
    WideSteps(days, era, 36_524 * c + 1461 * q + 365 * r + d, 100 * c + 4 * q + r, d);
  }

  lemma WideSteps(days: int, era: int, dayOfEra: int, yearOfEra: int, dayOfYear: int)
    requires era == Div(if days + 719_468 >= 0 then days + 719_468 else days + 719_468 - 146_096, 146_097)
    requires dayOfEra == days + 719_468 - era * 146_097
    requires yearOfEra == YearOfEra(dayOfEra)
    requires dayOfYear == dayOfEra - (365 * yearOfEra + Div(yearOfEra, 4) - Div(yearOfEra, 100))
    ensures YearAndDay(days) == (yearOfEra + era * 400, dayOfYear)
  {
  }

  /** Every day has a valid date, and its day count is that day again. */
  lemma WideRoundTrip(days: int)
    ensures Valid(WideCivilFromDays(days))
    ensures ClosedDays(WideCivilFromDays(days)) == days
  {
    var era, c, q, r, d := WideSplit(days);
    LeapYearOfEra(era, c, q, r);
    DateAtIsThatDay(100 * c + 4 * q + r + era * 400, d);
    YearStartOfEra(era, c, q, r);
  }

  lemma YearStartOfEra(era: int, c: int, q: int, r: int)
    requires 0 <= c <= 3 && 0 <= q <= 24 && 0 <= r <= 3
    ensures YearStart(400 * era + 100 * c + 4 * q + r) == 146_097 * era + 36_524 * c + 1461 * q + 365 * r
  {
    var year := 400 * era + 100 * c + 4 * q + r;
    FloorIs(year, 4, 100 * era + 25 * c + q);
    FloorIs(year, 100, 4 * era + c);
    FloorIs(year, 400, era);
  }

  /** The cast keeps what fits, and takes the rest to the number that fits and differs by wrapping. */
  lemma AsI32Identity(n: int)
    ensures AsI32(n) == n <==> FitsI32(n)
    ensures FitsI32(AsI32(n)) && (n - AsI32(n)) % 0x1_0000_0000 == 0
  {
    var wraps := (n + 0x8000_0000) / 0x1_0000_0000;
    assert n - AsI32(n) == 0x1_0000_0000 * wraps;
    FloorIs(n - AsI32(n), 0x1_0000_0000, wraps);
  }

  lemma CastMovesTheDay(wide: Date, year: int)
    requires Valid(wide) && year != wide.year
    ensures ClosedDays(wide.(year := year)) != ClosedDays(wide)
  {
    if year > wide.year {
      YearMoves(MarchYear(wide), MarchYear(wide.(year := year)));
    } else {
      YearMoves(MarchYear(wide.(year := year)), MarchYear(wide));
    }
  }

  lemma YearMoves(a: int, b: int)
    requires a < b
    ensures YearStart(a) < YearStart(b)
  {
    YearLength(a);
    YearsGrow(a + 1, b);
  }

  /**
   * `civil_from_days` then `days_from_civil` is the identity exactly on the days whose year an `i32`
   * can hold, negative eras included; on those the date is a real one.
   */
  lemma DaysRoundTrip(days: int)
    ensures DaysFromCivil(CivilFromDays(days)) == days <==> FitsI32(WideCivilFromDays(days).year)
    ensures FitsI32(WideCivilFromDays(days).year) ==> Valid(CivilFromDays(days))
  {
    WideRoundTrip(days);
    var wide := WideCivilFromDays(days);
    AsI32Identity(wide.year);
    if AsI32(wide.year) != wide.year {
      CastMovesTheDay(wide, AsI32(wide.year));
    }
    ClosedForm(CivilFromDays(days));
  }

  /** `days_from_civil` then `civil_from_days` is the identity on every valid date. */
  lemma DatesRoundTrip(date: Date)
    requires Valid(date) && FitsI32(date.year)
    ensures CivilFromDays(DaysFromCivil(date)) == date
  {
    ClosedForm(date);
    WideRoundTrip(ClosedDays(date));
    OnlyOneDate(WideCivilFromDays(ClosedDays(date)), date);
    AsI32Identity(date.year);
  }

  lemma OnlyOneDate(a: Date, b: Date)
    requires Valid(a) && Valid(b) && ClosedDays(a) == ClosedDays(b)
    ensures a == b
  {
    if Before(a, b) {
      DaysAreInOrder(a, b);
    } else if Before(b, a) {
      DaysAreInOrder(b, a);
    }
  }

  // ---- An independent reference: the calendar one day at a time ----

  function NextDay(date: Date): Date {
    if date.day < DaysInMonth(date.year, date.month) then date.(day := date.day + 1)
    else if date.month < 12 then Date(date.year, date.month + 1, 1)
    else Date(date.year + 1, 1, 1)
  }

  lemma NextClosedDay(date: Date)
    requires Valid(date)
    ensures Valid(NextDay(date)) && ClosedDays(NextDay(date)) == ClosedDays(date) + 1
  {
    hide IsLeap, YearStart;
    MonthLength(date);
    if date.day == DaysInMonth(date.year, date.month) {
      if date.month == 2 {
        YearLength(MarchYear(date));
      } else {
        assert MarchMonth(NextDay(date)) == MarchMonth(date) + 1;
      }
    }
  }

  lemma DayZero()
    ensures DaysFromCivil(Date(1970, 1, 1)) == 0
  {
  }

  /** Day 0 is the first of January 1970, and each day counts one more than the day before. */
  lemma DaysCountDays(date: Date)
    requires Valid(date)
    ensures DaysFromCivil(Date(1970, 1, 1)) == 0
    ensures Valid(NextDay(date)) && DaysFromCivil(NextDay(date)) == DaysFromCivil(date) + 1
  {
    hide ClosedDays, NextDay, DaysFromCivil, DaysInMonth;
    DayZero();
    NextClosedDay(date);
    ClosedForm(date);
    ClosedForm(NextDay(date));
  }
}
