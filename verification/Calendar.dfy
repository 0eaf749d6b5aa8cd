/**
 * `days_from_civil`: the closed form that turns a proleptic Gregorian date
 * into a day number, with the machine widths of the original, and the naive
 * day-by-day calendar it has to agree with.
 */
module Calendar {
  import opened Common

  // ------------------------------------------------------ the closed form

  /** Result of arithmetic that panics (or wraps) when it leaves its type. */
  datatype Checked = Value(value: int) | Overflow

  predicate FitsI32(x: int) { -1 - I32_MAX <= x <= I32_MAX }

  predicate FitsI64(x: int) { -1 - I64_MAX <= x <= I64_MAX }

  /** Division truncating towards zero, as `/` on a Rust `i32`. */
  function TruncDiv(a: int, b: int): int
    requires b > 0
  {
    if a >= 0 then a / b else -((-a) / b)
  }

  function EraOf(year: int): int { year / 400 }

  function YearOfEra(year: int): int { year - EraOf(year) * 400 }

  /** Months counted from March, so that the leap day ends the year. */
  function MarchMonth(m: int): int { if m > 2 then m - 3 else m + 9 }

  /** The day of a March year on which its month `mm`, counted from 0, begins. */
  function MarchOffset(mm: int): int { TruncDiv(153 * mm + 2, 5) }

  function MonthOffset(m: int): int { MarchOffset(MarchMonth(m)) }

  function DayOfYear(m: int, d: int): int { MonthOffset(m) + d - 1 }

  function DayOfEra(year: int, m: int, d: int): int {
    var yoe := YearOfEra(year);
    yoe * 365 + yoe / 4 - yoe / 100 + DayOfYear(m, d)
  }

  /** The same formula without machine widths; `year` starts in March. */
  function DayNumber(y: int, m: int, d: int): int {
    var year := if m <= 2 then y - 1 else y;
    EraOf(year) * 146_097 + DayOfEra(year, m, d) - 719_468
  }

  /** Every `i32` intermediate of the original, in evaluation order. */
  predicate IntermediatesFit(y: int, m: int, d: int) {
    var year := if m <= 2 then y - 1 else y;
    && FitsI32(year)
    && FitsI32(EraOf(year) * 400)
    && FitsI32(year - EraOf(year) * 400)
    && FitsI32(MarchMonth(m))
    && FitsI32(153 * MarchMonth(m))
    && FitsI32(153 * MarchMonth(m) + 2)
    && FitsI32(MonthOffset(m) + d)
    && FitsI32(DayOfYear(m, d))
  }

  function DaysFromCivil(y: int, m: int, d: int): Checked {
    if IntermediatesFit(y, m, d) then Value(DayNumber(y, m, d)) else Overflow
  }

  // ------------------------------------------------- the day-by-day calendar

  datatype Date = Date(y: int, m: int, d: int)

  predicate Leap(y: int) { y % 4 == 0 && (y % 100 != 0 || y % 400 == 0) }

  function MonthLength(y: int, m: int): int {
    if m == 2 then (if Leap(y) then 29 else 28)
    else if m == 4 || m == 6 || m == 9 || m == 11 then 30
    else 31
  }

  predicate Valid(date: Date) {
    1 <= date.m <= 12 && 1 <= date.d <= MonthLength(date.y, date.m)
  }

  function NextDay(date: Date): Date {
    if date.d < MonthLength(date.y, date.m) then date.(d := date.d + 1)
    else if date.m < 12 then Date(date.y, date.m + 1, 1)
    else Date(date.y + 1, 1, 1)
  }

  function StepDays(date: Date, n: nat): Date {
    if n == 0 then date else NextDay(StepDays(date, n - 1))
  }

  const EPOCH := Date(1970, 1, 1)

  predicate Before(a: Date, b: Date) {
    a.y < b.y || (a.y == b.y && (a.m < b.m || (a.m == b.m && a.d < b.d)))
  }

  function Days(date: Date): int { DayNumber(date.y, date.m, date.d) }

  // ------------------------------------------------------------- the proofs

  /** Days from year 0 to the March year `year`, without eras. */
  function YearStart(year: int): int { 365 * year + year / 4 - year / 100 + year / 400 }

  lemma DayNumberByYear(y: int, m: int, d: int)
    ensures
      var year := if m <= 2 then y - 1 else y;
      DayNumber(y, m, d) == YearStart(year) + DayOfYear(m, d) - 719_468
  {
    var year := if m <= 2 then y - 1 else y;
    var era, yoe := EraOf(year), YearOfEra(year);
    assert 0 <= yoe < 400 && year == era * 400 + yoe;
    assert year / 4 == era * 100 + yoe / 4;
    assert year / 100 == era * 4 + yoe / 100;
  }

  lemma FloorStep(n: int, k: int)
    requires k == 4 || k == 100 || k == 400
    ensures n / k - (n - 1) / k == if n % k == 0 then 1 else 0
  {
  }

  lemma Multiples(x: int)
    ensures (4 * x) % 4 == 0 && (100 * x) % 100 == 0
  {
  }

  lemma CenturiesDivide(n: int)
    ensures n % 400 == 0 ==> n % 100 == 0
    ensures n % 100 == 0 ==> n % 4 == 0
  {
    var c, q := n / 100, n / 400;
    Multiples(25 * c);
    Multiples(4 * q);
    assert n % 100 == 0 ==> n == 100 * c == 4 * (25 * c);
    assert n % 400 == 0 ==> n == 400 * q == 100 * (4 * q);
  }

  lemma YearStartStep(year: int)
    ensures YearStart(year + 1) == YearStart(year) + (if Leap(year + 1) then 366 else 365)
  {
    FloorStep(year + 1, 4);
    FloorStep(year + 1, 100);
    FloorStep(year + 1, 400);
    CenturiesDivide(year + 1);
  }

  /** The March-based day of the year at the end of each month. */
  lemma DayOfYearNextMonth(y: int, m: int)
    requires 1 <= m <= 12
    ensures m != 2 && m < 12 ==> DayOfYear(m + 1, 1) == DayOfYear(m, MonthLength(y, m)) + 1
    ensures DayOfYear(1, 1) == DayOfYear(12, 31) + 1
    ensures DayOfYear(3, 1) == 0 && DayOfYear(2, 28) == 364
  {
  }

  lemma WithinMonth(y: int, m: int, d: int)
    requires 1 <= m <= 12
    ensures DayNumber(y, m, d + 1) == DayNumber(y, m, d) + 1
  {
  }

  lemma AcrossFebruary(y: int)
    ensures DayNumber(y, 3, 1) == DayNumber(y, 2, MonthLength(y, 2)) + 1
  {
    DayNumberByYear(y, 2, MonthLength(y, 2));
    DayNumberByYear(y, 3, 1);
    DayOfYearNextMonth(y, 2);
    YearStartStep(y - 1);
  }

  /** The last day of a month is followed by the first of the next. */
  lemma AcrossMonths(y: int, m: int)
    requires 1 <= m <= 12
    ensures Days(FirstOfNext(y, m)) == DayNumber(y, m, MonthLength(y, m)) + 1
  {
    if m == 2 {
      AcrossFebruary(y);
    } else {
      var next := FirstOfNext(y, m);
      DayNumberByYear(y, m, MonthLength(y, m));
      DayNumberByYear(next.y, next.m, 1);
      DayOfYearNextMonth(y, m);
    }
  }

  function FirstOfNext(y: int, m: int): Date {
    if m < 12 then Date(y, m + 1, 1) else Date(y + 1, 1, 1)
  }

  /** One step of the calendar is one day, and leads to a valid date. */
  lemma NextDayIsOneDay(date: Date)
    requires Valid(date)
    ensures Valid(NextDay(date)) && Days(NextDay(date)) == Days(date) + 1
  {
    if date.d < MonthLength(date.y, date.m) {
      WithinMonth(date.y, date.m, date.d);
    } else {
      AcrossMonths(date.y, date.m);
    }
  }

  lemma {:induction false} StepDaysCounts(date: Date, n: nat)
    requires Valid(date)
    ensures Valid(StepDays(date, n)) && Days(StepDays(date, n)) == Days(date) + n
  {
    if n > 0 {
      StepDaysCounts(date, n - 1);
      NextDayIsOneDay(StepDays(date, n - 1));
    }
  }

  lemma {:induction false} YearStartMonotone(a: int, b: int)
    requires a <= b
    ensures YearStart(a) + 365 * (b - a) <= YearStart(b)
    decreases b - a
  {
    if a < b {
      YearStartMonotone(a, b - 1);
      YearStartStep(b - 1);
    }
  }

  /** A month is as many days long as the calendar says. */
  lemma MonthSpan(y: int, m: int)
    requires 1 <= m <= 12
    ensures Days(FirstOfNext(y, m)) == DayNumber(y, m, 1) + MonthLength(y, m)
  {
    NextDayIsOneDay(Date(y, m, MonthLength(y, m)));
  }

  lemma {:induction false} FirstsInOrder(y: int, m: int, n: int)
    requires 1 <= m <= n <= 12
    ensures DayNumber(y, m, 1) <= DayNumber(y, n, 1)
    decreases n - m
  {
    if m < n {
      FirstsInOrder(y, m, n - 1);
      MonthSpan(y, n - 1);
    }
  }

  lemma MonthsInOrder(y: int, m: int, d: int)
    requires Valid(Date(y, m, d))
    ensures DayNumber(y, 1, 1) <= DayNumber(y, m, d) < DayNumber(y + 1, 1, 1)
    ensures DayNumber(y, m, d) < Days(FirstOfNext(y, m))
  {
    FirstsInOrder(y, 1, m);
    MonthSpan(y, m);
    if m < 12 {
      FirstsInOrder(y, m + 1, 12);
      MonthSpan(y, 12);
    }
    assert DayNumber(y, m, d) == DayNumber(y, m, 1) + d - 1;
  }

  lemma YearsInOrder(y: int, z: int)
    requires y <= z
    ensures DayNumber(y, 1, 1) <= DayNumber(z, 1, 1)
  {
    DayNumberByYear(y, 1, 1);
    DayNumberByYear(z, 1, 1);
    YearStartMonotone(y - 1, z - 1);
  }

  lemma EarlierMonth(y: int, m: int, d: int, n: int, e: int)
    requires Valid(Date(y, m, d)) && Valid(Date(y, n, e)) && m < n
    ensures DayNumber(y, m, d) < DayNumber(y, n, e)
  {
    MonthsInOrder(y, m, d);
    FirstsInOrder(y, m + 1, n);
    assert DayNumber(y, n, e) == DayNumber(y, n, 1) + e - 1;
  }

  /** The day number is strictly monotone in the date. */
  lemma DaysStrictlyMonotone(a: Date, b: Date)
    requires Valid(a) && Valid(b) && Before(a, b)
    ensures Days(a) < Days(b)
  {
    if a.y < b.y {
      MonthsInOrder(a.y, a.m, a.d);
      YearsInOrder(a.y + 1, b.y);
      MonthsInOrder(b.y, b.m, b.d);
    } else if a.m < b.m {
      EarlierMonth(a.y, a.m, a.d, b.m, b.d);
    }
  }

  /** Exactly one of the three orders holds, and day numbers agree with it. */
  lemma DaysOrder(a: Date, b: Date)
    requires Valid(a) && Valid(b)
    ensures Days(a) < Days(b) <==> Before(a, b)
    ensures Days(a) == Days(b) <==> a == b
  {
    if Before(a, b) {
      DaysStrictlyMonotone(a, b);
    } else if Before(b, a) {
      DaysStrictlyMonotone(b, a);
    }
  }

  /**
   * The closed form is the signed number of single-day steps from the epoch:
   * forwards for dates on or after it, backwards for dates before it.
   */
  lemma DaysCountSteps(date: Date)
    requires Valid(date)
    ensures Days(date) >= 0 ==> StepDays(EPOCH, Days(date)) == date
    ensures Days(date) < 0 ==> StepDays(date, -Days(date)) == EPOCH
  {
    assert Days(EPOCH) == 0;
    if Days(date) >= 0 {
      StepDaysCounts(EPOCH, Days(date));
      DaysOrder(StepDays(EPOCH, Days(date)), date);
    } else {
      StepDaysCounts(date, -Days(date));
      DaysOrder(StepDays(date, -Days(date)), EPOCH);
    }
  }

  /** Conversely, `n` steps from any valid date move the day number by `n`. */
  lemma StepsAreUnique(a: Date, b: Date, n: nat)
    requires Valid(a) && Valid(b)
    ensures StepDays(a, n) == b <==> Days(b) == Days(a) + n
  {
    StepDaysCounts(a, n);
    DaysOrder(StepDays(a, n), b);
  }

  /** The bounds the comments of the original promise for its two remainders. */
  lemma EraBounds(date: Date)
    requires Valid(date)
    ensures
      var year := if date.m <= 2 then date.y - 1 else date.y;
      && 0 <= YearOfEra(year) <= 399
      && 0 <= DayOfYear(date.m, date.d) <= 365
      && 0 <= DayOfEra(year, date.m, date.d) <= 146_096
  {
    DayOfYearBounds(date.m, date.d);
  }

  lemma DayOfYearBounds(m: int, d: int)
    requires 1 <= m <= 12 && 1 <= d <= if m == 2 then 29 else 31
    ensures 0 <= DayOfYear(m, d) <= 365
  {
    assert 153 * MarchMonth(m) + 2 >= 0;
  }

  // ------------------------------------------------- fields out of range

  lemma EraFits(year: int)
    requires year <= I32_MAX
    ensures FitsI32(EraOf(year) * 400) <==> year >= -2_147_483_600
    ensures 0 <= YearOfEra(year) <= 399
  {
    assert -2_147_483_600 == -5_368_709 * 400;
    if year >= -2_147_483_600 {
      assert EraOf(year) >= -5_368_709;
    } else {
      assert EraOf(year) < -5_368_709;
    }
  }

  lemma MonthFits(m: int)
    requires FitsI32(m)
    ensures FitsI32(MarchMonth(m))
    ensures FitsI32(153 * MarchMonth(m)) && FitsI32(153 * MarchMonth(m) + 2) <==> -14_035_849 <= m <= 14_035_843
  {
  }

  /**
   * For all machine integers: the arithmetic overflows exactly for the lowest,
   * incomplete 400 years, for months beyond 14 million either way, and when
   * the day and the offset of the month leave the type together.
   */
  lemma OverflowIff(y: int, m: int, d: int)
    requires FitsI32(y) && FitsI32(m) && FitsI32(d)
    ensures
      DaysFromCivil(y, m, d) ==
      if && y >= -2_147_483_600 + (if m <= 2 then 1 else 0)
         && -14_035_849 <= m <= 14_035_843
         && -0x8000_0000 < MonthOffset(m) + d <= 0x7FFF_FFFF
      then Value(DayNumber(y, m, d)) else Overflow
  {
    EraFits(if m <= 2 then y - 1 else y);
    MonthFits(m);
  }

  lemma MonthOffsetBounds(m: int)
    requires 0 <= m < 100
    ensures 0 <= MonthOffset(m) < 3000
  {
  }

  lemma YearStartBounds(year: int)
    requires -0x8000_0001 <= year <= I32_MAX
    ensures -790_000_000_000 <= YearStart(year) <= 790_000_000_000
  {
  }

  /** What does not overflow stays far inside the range in which seconds fit an `i64`. */
  lemma DayNumberBounds(y: int, m: int, d: int)
    requires FitsI32(y) && FitsI32(m) && FitsI32(d) && DaysFromCivil(y, m, d).Value?
    ensures -800_000_000_000 <= DayNumber(y, m, d) <= 800_000_000_000
  {
    DayNumberByYear(y, m, d);
    YearStartBounds(if m <= 2 then y - 1 else y);
  }

  // ----------------------------------------------- which date comes out

  /** The first of a month whose number may run over the ends of its year. */
  function FirstOf(y: int, m: int): (first: Date)
    ensures Valid(first)
  {
    Date(y + (m - 1) / 12, (m - 1) % 12 + 1, 1)
  }

  /** Months since March of the year the computation counts from, as years and months. */
  lemma MarchParts(y: int, m: int)
    ensures
      var year, first := if m <= 2 then y - 1 else y, FirstOf(y, m);
      && (if first.m <= 2 then first.y - 1 else first.y) == year + MarchMonth(m) / 12
      && MarchMonth(first.m) == MarchMonth(m) % 12
  {
  }

  lemma FirstOfByMarch(y: int, m: int)
    ensures
      var year, q, r := if m <= 2 then y - 1 else y, MarchMonth(m) / 12, MarchMonth(m) % 12;
      Days(FirstOf(y, m)) == YearStart(year + q) + MarchOffset(r) - 719_468
  {
    var first := FirstOf(y, m);
    MarchParts(y, m);
    DayNumberByYear(first.y, first.m, 1);
  }

  lemma {:induction false} YearStartSpan(year: int, n: nat)
    ensures 365 * n <= YearStart(year + n) - YearStart(year) <= 366 * n
  {
    if n > 0 {
      YearStartSpan(year, n - 1);
      YearStartStep(year + n - 1);
    }
  }

  lemma OffsetAhead(q: int, r: int)
    requires q >= 1 && 0 <= r < 12
    ensures MarchOffset(12 * q + r) >= 367 * q + MarchOffset(r)
  {
    var a := 153 * r + 2;
    assert 153 * (12 * q + r) + 2 == 5 * (367 * q) + (a + q);
    assert (5 * (367 * q) + (a + q)) / 5 == 367 * q + (a + q) / 5;
  }

  /** Division of a negative number rounds up. */
  lemma RoundsUp(a: int)
    requires a < 0
    ensures 5 * TruncDiv(a, 5) - 5 < a <= 5 * TruncDiv(a, 5)
  {
  }

  lemma OffsetBehind(q: int, r: int)
    requires q >= 1 && 0 <= r < 12
    ensures MarchOffset(r - 12 * q) <= MarchOffset(r) - 367 * q + 1
  {
    var a := 153 * (r - 12 * q) + 2;
    assert a == 153 * r + 2 - 1836 * q;
    RoundsUp(a);
  }

  lemma OffsetOneBehind(r: int)
    requires 0 <= r < 12
    ensures MarchOffset(r - 12) == MarchOffset(r) - (if (3 * (r + 4)) % 5 >= 2 then 366 else 367)
  {
    RoundsUp(153 * (r - 12) + 2);
  }

  /** The computation runs over the end of a year from January of the previous year on. */
  predicate MonthRunsOn(y: int, m: int) {
    -9 <= m <= 14 || (-21 <= m <= -11 && Leap(y - 1) && (3 * m) % 5 >= 2)
  }

  /** Twelve computed months are as long as a year only in one leap year. */
  lemma OffsetRunsOnIff(year: int, q: int, r: int)
    requires 0 <= r < 12
    ensures MarchOffset(12 * q + r) == YearStart(year + q) - YearStart(year) + MarchOffset(r)
            <==> q == 0 || (q == -1 && Leap(year) && (3 * (r + 4)) % 5 >= 2)
  {
    if q >= 1 {
      OffsetAhead(q, r);
      YearStartSpan(year, q);
    } else if q <= -1 {
      OffsetBehind(-q, r);
      YearStartSpan(year + q, -q);
      if q == -1 {
        OffsetOneBehind(r);
        YearStartStep(year - 1);
      }
    }
  }

  lemma MarchMonthParts(y: int, m: int)
    ensures
      var year, q, r := if m <= 2 then y - 1 else y, MarchMonth(m) / 12, MarchMonth(m) % 12;
      MonthRunsOn(y, m) <==> q == 0 || (q == -1 && Leap(year) && (3 * (r + 4)) % 5 >= 2)
  {
    var q, r := MarchMonth(m) / 12, MarchMonth(m) % 12;
    if q == -1 {
      assert r == m + 21 && 3 * (r + 4) == 3 * m + 5 * 15;
    }
  }

  /**
   * Exactly when an unchecked date counts on from the first of its month, the
   * month itself counting on from its year: always for months -9 to 14, that
   * is ten months back and two months over, and beyond that only by accident.
   */
  lemma RunsOnIff(y: int, m: int, d: int)
    ensures DayNumber(y, m, d) == Days(FirstOf(y, m)) + d - 1 <==> MonthRunsOn(y, m)
  {
    DaysPastFirst(y, m, d);
    OffsetRunsOnIff(if m <= 2 then y - 1 else y, MarchMonth(m) / 12, MarchMonth(m) % 12);
    MarchMonthParts(y, m);
  }

  lemma DaysPastFirst(y: int, m: int, d: int)
    ensures
      var year, q, r := if m <= 2 then y - 1 else y, MarchMonth(m) / 12, MarchMonth(m) % 12;
      DayNumber(y, m, d) == Days(FirstOf(y, m)) + d - 1
      <==> MarchOffset(12 * q + r) == YearStart(year + q) - YearStart(year) + MarchOffset(r)
  {
    DayNumberByYear(y, m, d);
    FirstOfByMarch(y, m);
    assert MarchMonth(m) == 12 * (MarchMonth(m) / 12) + MarchMonth(m) % 12;
  }

  /**
   * Far months have no calendar behind them: five of them always count 153
   * days, with one day more where the months go below the March of the year
   * counted from, unless that day is a whole number already.
   */
  lemma FiveMonthsAre153Days(y: int, m: int, d: int)
    ensures m >= 3 ==> DayNumber(y, m + 5, d) == DayNumber(y, m, d) + 153
    ensures m <= -10 ==> DayNumber(y, m - 5, d) == DayNumber(y, m, d) - 153
    ensures -9 <= m <= -5 ==> DayNumber(y, m - 5, d) == DayNumber(y, m, d) - if m == -8 then 153 else 152
  {
    var mm := MarchMonth(m);
    FiveOffsets(mm);
    if m >= 3 {
      SameYearOffsets(y, m + 5, m, d);
    } else if m <= -5 {
      SameYearOffsets(y, m - 5, m, d);
    }
  }

  lemma SameYearOffsets(y: int, m: int, n: int, d: int)
    requires m <= 2 <==> n <= 2
    ensures DayNumber(y, m, d) - DayNumber(y, n, d) == MonthOffset(m) - MonthOffset(n)
  {
  }

  lemma FiveOffsets(mm: int)
    ensures mm >= 0 ==> MarchOffset(mm + 5) == MarchOffset(mm) + 153
    ensures mm < 0 ==> MarchOffset(mm - 5) == MarchOffset(mm) - 153
    ensures 0 <= mm < 5 ==> MarchOffset(mm - 5) == MarchOffset(mm) - if mm == 1 then 153 else 152
  {
    assert 153 * (mm + 5) + 2 == 153 * mm + 2 + 5 * 153;
    assert 153 * (mm - 5) + 2 == 153 * mm + 2 - 5 * 153;
  }

  /** The calendar date `n` days after the epoch, found by stepping. */
  function DateOn(n: int): Date {
    if n >= 0 then StepDays(EPOCH, n)
    else
      var from := Date(1970 + n, 1, 1);
      if Days(from) <= n then StepDays(from, n - Days(from)) else from
  }

  /** Every day number has its date. */
  lemma DateOnIsInverse(n: int)
    ensures Valid(DateOn(n)) && Days(DateOn(n)) == n
  {
    if n >= 0 {
      StepDaysCounts(EPOCH, n);
    } else {
      var from := Date(1970 + n, 1, 1);
      DayNumberByYear(1970, 1, 1);
      DayNumberByYear(1970 + n, 1, 1);
      YearStartMonotone(1969 + n, 1969);
      StepDaysCounts(from, n - Days(from));
    }
  }

  /** The date that comes out is the date that went in exactly when that one exists. */
  lemma DenotesIffValid(y: int, m: int, d: int)
    ensures DateOn(DayNumber(y, m, d)) == Date(y, m, d) <==> Valid(Date(y, m, d))
  {
    DateOnIsInverse(DayNumber(y, m, d));
    if Valid(Date(y, m, d)) {
      DaysOrder(DateOn(DayNumber(y, m, d)), Date(y, m, d));
    }
  }
}
