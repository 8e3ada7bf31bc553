/**
 Civil dates from day numbers.  `CivilFromDays` is the closed-form computation
 of the benchmark harness; the reference is the Gregorian calendar walked one
 day at a time from 1970-01-01, in both directions.
 */
module Calendar {

  datatype Date = Date(year: int, month: int, day: int)

  // ------------------------------------------------------------------------
  // The reference calendar

  predicate IsLeap(year: int) {
    year % 4 == 0 && (year % 100 != 0 || year % 400 == 0)
  }

  function DaysInMonth(year: int, month: int): int {
    if month == 2 then (if IsLeap(year) then 29 else 28)
    else if month == 4 || month == 6 || month == 9 || month == 11 then 30
    else 31
  }

  predicate ValidDate(d: Date) {
    1 <= d.month <= 12 && 1 <= d.day <= DaysInMonth(d.year, d.month)
  }

  function NextDay(d: Date): Date {
    if d.day < DaysInMonth(d.year, d.month) then Date(d.year, d.month, d.day + 1)
    else if d.month < 12 then Date(d.year, d.month + 1, 1)
    else Date(d.year + 1, 1, 1)
  }

  function PreviousDay(d: Date): Date {
    if d.day > 1 then Date(d.year, d.month, d.day - 1)
    else if d.month > 1 then Date(d.year, d.month - 1, DaysInMonth(d.year, d.month - 1))
    else Date(d.year - 1, 12, 31)
  }

  const EPOCH := Date(1970, 1, 1)

  /** The date `days` days after (or before) the epoch, one day at a time. */
  function DateOfDay(days: int): Date
    decreases if days < 0 then -days else days
  {
    if days == 0 then EPOCH
    else if days > 0 then NextDay(DateOfDay(days - 1))
    else PreviousDay(DateOfDay(days + 1))
  }

  // ------------------------------------------------------------------------
  // The closed form

  /** Division that truncates toward zero. */
  function TruncatingDiv(a: int, b: int): int
    requires b > 0
  {
    if a >= 0 then a / b else -((-a) / b)
  }

  /** The date of day `doy` of the year that starts on 1 March of `year`. */
  function FromMarchYear(year: int, doy: int): Date {
    var mp := (5 * doy + 2) / 153;
    var d := doy - (153 * mp + 2) / 5 + 1;
    var month := if mp < 10 then mp + 3 else mp - 9;
    Date(if month <= 2 then year + 1 else year, month, d)
  }

  function YearOfEra(doe: int): int {
    (doe - doe / 1460 + doe / 36524 - doe / 146_096) / 365
  }

  /** Day `doe` of the 400-year era `era`. */
  function DateInEra(era: int, doe: int): Date {
    var yoe := YearOfEra(doe);
    var doy := doe - (365 * yoe + yoe / 4 - yoe / 100);
    FromMarchYear(yoe + era * 400, doy)
  }

  function Era(z: int): int {
    TruncatingDiv(if z >= 0 then z else z - 146_096, 146_097)
  }

  function CivilFromDays(days: int): Date {
    var z := days + 719_468;
    var era := Era(z);
    var doe := z - era * 146_097;
    DateInEra(era, doe)
  }

  // ------------------------------------------------------------------------
  // Eras and years

  /** The shifted truncating division is the floor. */
  lemma EraIsFloor(z: int)
    ensures Era(z) == z / 146_097
  {
    if z < 0 {
      var q := z / 146_097;
      assert z == 146_097 * q + z % 146_097;
      var n := 146_096 - z;
      assert n / 146_097 == -q;
    }
  }

  /** Days of an era before its year `y`, which starts on 1 March. */
  function YearStart(y: int): int {
    365 * y + y / 4 - y / 100 + y / 400
  }

  lemma YearLength(y: int)
    ensures YearStart(y + 1) - YearStart(y) == if IsLeap(y + 1) then 366 else 365
  {
    Quotient(y, 4);
    Quotient(y, 100);
    Quotient(y, 400);
    assert (y + 1) % 400 == 0 ==> (y + 1) % 100 == 0;
    assert (y + 1) % 100 == 0 ==> (y + 1) % 4 == 0;
  }

  lemma Quotient(y: int, k: int)
    requires k == 4 || k == 100 || k == 400
    ensures (y + 1) / k == y / k + (if (y + 1) % k == 0 then 1 else 0)
  {
  }

  /** The quantity `YearOfEra` divides by 365, without its last correction. */
  function Flattened(doe: int): int {
    doe - doe / 1460 + doe / 36524
  }

  lemma FlattenedMonotone(a: int, b: int)
    requires 0 <= a <= b
    ensures Flattened(a) <= Flattened(b)
  {
    assert b / 1460 - a / 1460 <= b - a;
    assert a / 36524 <= b / 36524;
  }

  /** On the first day of year `y` it is exactly 365 y, and one day earlier it is less. */
  lemma FlattenedAtYearStart(y: int)
    requires 0 <= y < 400
    ensures Flattened(YearStart(y)) == 365 * y
    ensures y > 0 ==> Flattened(YearStart(y) - 1) < 365 * y
  {
    var q, s, h, t := y / 4, y % 4, y / 100, y % 100;
    var doe := YearStart(y);
    assert doe == 1460 * q + (365 * s + q - h);
    assert doe / 1460 == q;
    assert y / 4 == 25 * h + t / 4;
    assert doe == 36524 * h + (365 * t + t / 4);
    assert doe / 36524 == h;
    if y > 0 {
      assert 365 * s + q - h > 0;
      assert (doe - 1) / 1460 == q;
    }
  }

  lemma YearOfEraIs(doe: int, y: int)
    requires 0 <= y < 400 && YearStart(y) <= doe < YearStart(y + 1)
    ensures YearOfEra(doe) == y
  {
    assert Flattened(doe) - doe / 146_096 >= 365 * y && doe / 146_096 <= 1 by {
      YearOfEraLow(doe, y);
    }
    YearOfEraHigh(doe, y);
  }

  lemma YearOfEraLow(doe: int, y: int)
    requires 0 <= y < 400 && YearStart(y) <= doe < YearStart(y + 1)
    ensures Flattened(doe) - doe / 146_096 >= 365 * y
    ensures 0 <= doe / 146_096 <= 1
  {
    FlattenedAtYearStart(y);
    FlattenedMonotone(YearStart(y), doe);
    BeforeEraEnd(y);
    if doe == 146_096 {
      assert Flattened(doe) == 146_000;
    }
  }

  lemma YearOfEraHigh(doe: int, y: int)
    requires 0 <= y < 400 && YearStart(y) <= doe < YearStart(y + 1)
    ensures Flattened(doe) - doe / 146_096 < 365 * (y + 1)
  {
    BeforeEraEnd(y);
    if y < 399 {
      FlattenedAtYearStart(y + 1);
      FlattenedMonotone(doe, YearStart(y + 1) - 1);
    } else if doe < 146_096 {
      FlattenedMonotone(doe, 146_095);
    }
  }

  lemma BeforeEraEnd(y: int)
    requires 0 <= y < 400
    ensures 0 <= YearStart(y) < YearStart(y + 1) <= 146_097
    ensures y < 399 ==> YearStart(y + 1) < 146_096
  {
    YearLength(y);
    assert y / 100 <= 3 && y / 4 <= 99;
  }

  /** Every day of an era lies in one of its years. */
  lemma {:induction false} YearOfDay(doe: int, from: int) returns (y: int)
    requires 0 <= from < 400 && YearStart(from) <= doe < 146_097
    ensures from <= y < 400 && YearStart(y) <= doe < YearStart(y + 1)
    decreases 400 - from
  {
    if doe < YearStart(from + 1) {
      y := from;
    } else {
      assert from + 1 < 400 by {
        assert YearStart(400) == 146_097;
      }
      y := YearOfDay(doe, from + 1);
    }
  }

  lemma DateInEraIs(era: int, doe: int, y: int)
    requires 0 <= y < 400 && YearStart(y) <= doe < YearStart(y + 1)
    ensures DateInEra(era, doe) == FromMarchYear(y + era * 400, doe - YearStart(y))
  {
    YearOfEraIs(doe, y);
    assert y / 400 == 0;
  }

  predicate Decomposes(days: int, era: int, y: int, doy: int) {
    && 0 <= y < 400 && 0 <= doy < YearStart(y + 1) - YearStart(y)
    && days + 719_468 == era * 146_097 + YearStart(y) + doy
  }

  /** Every day number is an era, a year in it and a day in that year. */
  lemma Decompose(days: int) returns (era: int, y: int, doy: int)
    ensures Decomposes(days, era, y, doy)
  {
    var z := days + 719_468;
    era := z / 146_097;
    y := YearOfDay(z % 146_097, 0);
    doy := z % 146_097 - YearStart(y);
  }

  lemma CivilDecomposes(days: int, era: int, y: int, doy: int)
    requires Decomposes(days, era, y, doy)
    ensures CivilFromDays(days) == FromMarchYear(y + era * 400, doy)
  {
    var doe := YearStart(y) + doy;
    BeforeEraEnd(y);
    EraIsFloor(days + 719_468);
    assert Era(days + 719_468) == era;
    DateInEraIs(era, doe, y);
  }

  lemma LeapShift(y: int, era: int)
    ensures IsLeap(y + era * 400) <==> IsLeap(y)
  {
    ModShift(y, 100 * era, 4);
    ModShift(y, 4 * era, 100);
    ModShift(y, era, 400);
  }

  lemma ModShift(y: int, k: int, m: int)
    requires m == 4 || m == 100 || m == 400
    ensures (y + k * m) % m == y % m
  {
  }

  // ------------------------------------------------------------------------
  // Days within a year

  predicate InMarchYear(year: int, doy: int) {
    0 <= doy < if IsLeap(year + 1) then 366 else 365
  }

  /** The month index and its first day, case by case. */
  lemma MonthTable(doy: int)
    requires 0 <= doy <= 365
    ensures var mp := (5 * doy + 2) / 153;
            && 0 <= mp <= 11
            && (153 * mp + 2) / 5 == [0, 31, 61, 92, 122, 153, 184, 214, 245, 275, 306, 337][mp]
            && (153 * mp + 2) / 5 <= doy < [31, 61, 92, 122, 153, 184, 214, 245, 275, 306, 337, 366][mp]
  {
  }

  lemma MarchYearStep(year: int, doy: int)
    requires InMarchYear(year, doy)
    ensures ValidDate(FromMarchYear(year, doy))
    ensures NextDay(FromMarchYear(year, doy)) ==
              if InMarchYear(year, doy + 1) then FromMarchYear(year, doy + 1) else FromMarchYear(year + 1, 0)
  {
    MonthTable(doy);
    if InMarchYear(year, doy + 1) {
      MonthTable(doy + 1);
      WithinMarchYear(year, doy);
    }
  }

  /** Where a month of the March year begins, and where the next one does. */
  function MonthStart(mp: int): int {
    (153 * mp + 2) / 5
  }

  function MonthOf(doy: int): int {
    (5 * doy + 2) / 153
  }

  lemma MonthLength(year: int, mp: int)
    requires 0 <= mp <= 11
    ensures var month := if mp < 10 then mp + 3 else mp - 9;
            var length := DaysInMonth(if month <= 2 then year + 1 else year, month);
            && (mp < 11 ==> MonthStart(mp + 1) == MonthStart(mp) + length)
            && (mp == 11 ==> MonthStart(mp) + length == if IsLeap(year + 1) then 366 else 365)
  {
  }

  lemma MonthBounds(doy: int)
    requires 0 <= doy <= 365
    ensures 0 <= MonthOf(doy) <= 11 && MonthStart(MonthOf(doy)) <= doy
    ensures doy < if MonthOf(doy) == 11 then 366 else MonthStart(MonthOf(doy) + 1)
  {
    MonthTable(doy);
  }

  lemma MonthUnique(doy: int, mp: int)
    requires 0 <= doy <= 365 && 0 <= mp <= 11 && MonthStart(mp) <= doy && (mp < 11 ==> doy < MonthStart(mp + 1))
    ensures MonthOf(doy) == mp
  {
    MonthTable(doy);
  }

  lemma WithinMarchYear(year: int, doy: int)
    requires InMarchYear(year, doy) && InMarchYear(year, doy + 1)
    ensures NextDay(FromMarchYear(year, doy)) == FromMarchYear(year, doy + 1)
  {
    var mp := MonthOf(doy);
    MonthBounds(doy);
    MonthLength(year, mp);
    assert FromMarchYear(year, doy).day == doy - MonthStart(mp) + 1;
    if mp == 11 || doy + 1 < MonthStart(mp + 1) {
      MonthUnique(doy + 1, mp);
    } else {
      if mp < 10 {
        MonthLength(year, mp + 1);
      }
      MonthUnique(doy + 1, mp + 1);
    }
  }

  /** One day later, the closed form gives the next calendar day. */
  lemma CivilStep(days: int)
    ensures ValidDate(CivilFromDays(days))
    ensures CivilFromDays(days + 1) == NextDay(CivilFromDays(days))
  {
    var era, y, doy := Decompose(days);
    var era', y', doy' := Decompose(days + 1);
    CivilDecomposes(days, era, y, doy);
    CivilDecomposes(days + 1, era', y', doy');
    DecomposedStep(days, era, y, doy, era', y', doy');
  }

  lemma DecomposedStep(days: int, era: int, y: int, doy: int, era': int, y': int, doy': int)
    requires Decomposes(days, era, y, doy) && Decomposes(days + 1, era', y', doy')
    ensures ValidDate(FromMarchYear(y + era * 400, doy))
    ensures NextDay(FromMarchYear(y + era * 400, doy)) == FromMarchYear(y' + era' * 400, doy')
  {
    YearLength(y);
    LeapShift(y + 1, era);
    MarchYearStep(y + era * 400, doy);
    SameOrNextYear(days, era, y, doy, era', y', doy');
  }

  lemma SameOrNextYear(days: int, era: int, y: int, doy: int, era': int, y': int, doy': int)
    requires Decomposes(days, era, y, doy) && Decomposes(days + 1, era', y', doy')
    ensures if doy + 1 < YearStart(y + 1) - YearStart(y)
            then y' + era' * 400 == y + era * 400 && doy' == doy + 1
            else y' + era' * 400 == y + era * 400 + 1 && doy' == 0
  {
    var doe, doe' := YearStart(y) + doy, YearStart(y') + doy';
    YearStartMonotone(y + 1, 400);
    YearStartMonotone(y' + 1, 400);
    YearStartMonotone(0, y);
    YearStartMonotone(0, y');
    assert 0 <= doe < 146_097 && 0 <= doe' < 146_097;
    assert if doe + 1 < 146_097 then era' == era && doe' == doe + 1 else era' == era + 1 && doe' == 0;
    if y' < y {
      YearStartMonotone(y' + 1, y);
    } else if y' > y + 1 {
      YearStartMonotone(y + 2, y');
      YearLength(y + 1);
    }
    YearLength(y);
  }

  lemma {:induction false} YearStartMonotone(a: int, b: int)
    requires 0 <= a <= b
    ensures YearStart(a) <= YearStart(b)
    decreases b - a
  {
    if a < b {
      YearLength(b - 1);
      YearStartMonotone(a, b - 1);
    }
  }

  // ------------------------------------------------------------------------
  // Refinement

  lemma PreviousOfNext(d: Date)
    requires ValidDate(d)
    ensures PreviousDay(NextDay(d)) == d && ValidDate(NextDay(d))
  {
  }

  lemma CivilForward(days: int)
    ensures CivilFromDays(days) == NextDay(CivilFromDays(days - 1)) && ValidDate(CivilFromDays(days))
  {
    CivilStep(days - 1);
    CivilStep(days);
  }

  lemma CivilBackward(days: int)
    ensures CivilFromDays(days) == PreviousDay(CivilFromDays(days + 1)) && ValidDate(CivilFromDays(days))
  {
    CivilStep(days);
    var d, next := CivilFromDays(days), CivilFromDays(days + 1);
    PreviousOfNext(d);
  }

  lemma CivilEpoch()
    ensures CivilFromDays(0) == EPOCH
  {
    assert Era(719_468) == 4;
    assert YearOfEra(135_080) == 369;
    assert DateInEra(4, 135_080) == EPOCH;
  }

  lemma {:induction false} CivilAfterEpoch(n: nat)
    ensures CivilFromDays(n) == DateOfDay(n)
  {
    if n == 0 {
      CivilEpoch();
    } else {
      CivilAfterEpoch(n - 1);
      CivilForward(n);
    }
  }

  lemma {:induction false} CivilBeforeEpoch(n: nat)
    ensures CivilFromDays(0 - n) == DateOfDay(0 - n)
  {
    if n == 0 {
      CivilEpoch();
    } else {
      CivilBeforeEpoch(n - 1);
      CivilBackward(0 - n);
    }
  }

  /** The closed form is the calendar, for every day number, negative ones included. */
  lemma CivilIsCalendar(days: int)
    ensures CivilFromDays(days) == DateOfDay(days) && ValidDate(CivilFromDays(days))
  {
    CivilStep(days);
    if days >= 0 {
      CivilAfterEpoch(days);
    } else {
      CivilBeforeEpoch(-days);
    }
  }

  /** Walking the calendar only ever visits dates that exist. */
  lemma CalendarValid(days: int)
    ensures ValidDate(DateOfDay(days))
  {
    CivilIsCalendar(days);
  }
}
