/**
 Timestamps as text: microseconds since the epoch to an RFC 3339 date-time
 (section 5.6), a parser for that grammar with the date limits of section 5.7,
 and the ordering rule of section 5.1.
 */
module Rfc3339 {
  import opened Common
  import opened Calendar

  // ------------------------------------------------------------------------
  // Day numbers, counted independently of the closed form

  /** Days from 0001-01-01 to the first of January of `year`. */
  function DaysBeforeYear(year: int): int {
    365 * (year - 1) + (year - 1) / 4 - (year - 1) / 100 + (year - 1) / 400
  }

  function DaysBeforeMonth(year: int, month: int): int
    decreases month
  {
    if month <= 1 then 0 else DaysBeforeMonth(year, month - 1) + DaysInMonth(year, month - 1)
  }

  function DayNumber(d: Date): int {
    DaysBeforeYear(d.year) + DaysBeforeMonth(d.year, d.month) + d.day - 1 - 719_162
  }

  lemma DaysInYear(year: int)
    ensures DaysBeforeYear(year + 1) == DaysBeforeYear(year) + DaysBeforeMonth(year, 13)
    ensures DaysBeforeMonth(year, 13) == if IsLeap(year) then 366 else 365
  {
    YearLength(year - 1);
    assert DaysBeforeMonth(year, 3) == 31 + DaysInMonth(year, 2);
    assert DaysBeforeMonth(year, 5) == DaysBeforeMonth(year, 3) + 61;
    assert DaysBeforeMonth(year, 7) == DaysBeforeMonth(year, 5) + 61;
    assert DaysBeforeMonth(year, 9) == DaysBeforeMonth(year, 7) + 62;
    assert DaysBeforeMonth(year, 11) == DaysBeforeMonth(year, 9) + 61;
  }

  lemma DayNumberNext(d: Date)
    requires ValidDate(d)
    ensures DayNumber(NextDay(d)) == DayNumber(d) + 1
  {
    DaysInYear(d.year);
  }

  lemma DayNumberPrevious(d: Date)
    requires ValidDate(d)
    ensures DayNumber(PreviousDay(d)) == DayNumber(d) - 1
  {
    DaysInYear(d.year - 1);
  }

  lemma {:induction false} DayNumberAfterEpoch(n: nat)
    ensures DayNumber(DateOfDay(n)) == n
  {
    if n == 0 {
      DaysInYear(1969);
    } else {
      DayNumberAfterEpoch(n - 1);
      CalendarValid(n - 1);
      DayNumberNext(DateOfDay(n - 1));
    }
  }

  lemma {:induction false} DayNumberBeforeEpoch(n: nat)
    ensures DayNumber(DateOfDay(0 - n)) == 0 - n
  {
    if n == 0 {
      DayNumberAfterEpoch(0);
    } else {
      DayNumberBeforeEpoch(n - 1);
      CalendarValid(1 - n);
      DayNumberPrevious(DateOfDay(1 - n));
    }
  }

  lemma DayNumberOfCivil(days: int)
    ensures DayNumber(CivilFromDays(days)) == days && ValidDate(CivilFromDays(days))
  {
    CivilIsCalendar(days);
    if days >= 0 {
      DayNumberAfterEpoch(days);
    } else {
      DayNumberBeforeEpoch(-days);
    }
  }

  predicate DateBefore(a: Date, b: Date) {
    a.year < b.year || (a.year == b.year && (a.month < b.month || (a.month == b.month && a.day < b.day)))
  }

  lemma {:induction false} YearsMonotone(a: int, b: int)
    requires a <= b
    ensures DaysBeforeYear(a) <= DaysBeforeYear(b)
    decreases b - a
  {
    if a < b {
      DaysInYear(b - 1);
      YearsMonotone(a, b - 1);
    }
  }

  lemma {:induction false} MonthsMonotone(year: int, a: int, b: int)
    requires 1 <= a <= b
    ensures DaysBeforeMonth(year, a) <= DaysBeforeMonth(year, b)
    decreases b - a
  {
    if a < b {
      MonthsMonotone(year, a, b - 1);
    }
  }

  /** A month's days come before the next month's. */
  lemma WithinMonth(d: Date)
    requires ValidDate(d)
    ensures DaysBeforeMonth(d.year, d.month) + d.day <= DaysBeforeMonth(d.year, d.month + 1)
  {
  }

  lemma LaterMonth(a: Date, b: Date)
    requires ValidDate(a) && ValidDate(b) && a.year == b.year && a.month < b.month
    ensures DayNumber(a) < DayNumber(b)
  {
    hide DaysBeforeYear, DaysBeforeMonth, IsLeap;
    WithinMonth(a);
    MonthsMonotone(a.year, a.month + 1, b.month);
  }

  lemma FirstMonth(year: int)
    ensures DaysBeforeMonth(year, 1) == 0
  {
  }

  lemma LaterYear(a: Date, b: Date)
    requires ValidDate(a) && ValidDate(b) && a.year < b.year
    ensures DayNumber(a) < DayNumber(b)
  {
    hide DaysBeforeYear, DaysBeforeMonth, IsLeap;
    WithinMonth(a);
    DaysInYear(a.year);
    MonthsMonotone(a.year, a.month + 1, 13);
    YearsMonotone(a.year + 1, b.year);
    FirstMonth(b.year);
    MonthsMonotone(b.year, 1, b.month);
  }

  lemma DayNumberMonotone(a: Date, b: Date)
    requires ValidDate(a) && ValidDate(b) && DateBefore(a, b)
    ensures DayNumber(a) < DayNumber(b)
  {
    if a.year < b.year {
      LaterYear(a, b);
    } else if a.month < b.month {
      LaterMonth(a, b);
    }
  }

  /** The date of a day number is the only valid date with that number. */
  lemma CivilOfDayNumber(d: Date)
    requires ValidDate(d)
    ensures CivilFromDays(DayNumber(d)) == d
  {
    var n := DayNumber(d);
    DayNumberOfCivil(n);
    var e := CivilFromDays(n);
    if DateBefore(d, e) {
      DayNumberMonotone(d, e);
    } else if DateBefore(e, d) {
      DayNumberMonotone(e, d);
    }
  }

  // ------------------------------------------------------------------------
  // Fields

  datatype Fields = Fields(date: Date, hour: int, minute: int, second: int, micro: int)

  predicate ValidFields(f: Fields) {
    ValidDate(f.date) && 0 <= f.hour < 24 && 0 <= f.minute < 60 && 0 <= f.second < 60 && 0 <= f.micro < 1_000_000
  }

  function Split(micros: int): Fields {
    var secs, usec := micros / 1_000_000, micros % 1_000_000;
    var days, tod := secs / 86_400, secs % 86_400;
    Fields(CivilFromDays(days), tod / 3600, tod % 3600 / 60, tod % 60, usec)
  }

  function TimeOfDay(f: Fields): int {
    (f.hour * 3600 + f.minute * 60 + f.second) * 1_000_000 + f.micro
  }

  function Join(f: Fields): int {
    DayNumber(f.date) * 86_400_000_000 + TimeOfDay(f)
  }

  lemma ClockParts(tod: int)
    requires 0 <= tod < 86_400
    ensures tod == (tod / 3600) * 3600 + (tod % 3600 / 60) * 60 + tod % 60
    ensures 0 <= tod / 3600 < 24 && 0 <= tod % 3600 / 60 < 60
  {
    var h, rest := tod / 3600, tod % 3600;
    assert tod == 3600 * h + rest;
    assert rest == 60 * (rest / 60) + rest % 60;
    assert tod % 60 == rest % 60;
  }

  lemma SplitThenJoin(micros: int)
    ensures ValidFields(Split(micros)) && Join(Split(micros)) == micros
  {
    var secs, usec := micros / 1_000_000, micros % 1_000_000;
    var days, tod := secs / 86_400, secs % 86_400;
    DayNumberOfCivil(days);
    ClockParts(tod);
    assert micros == 1_000_000 * secs + usec && secs == 86_400 * days + tod;
  }

  lemma ClockUnique(h: int, m: int, s: int)
    requires 0 <= h < 24 && 0 <= m < 60 && 0 <= s < 60
    ensures var tod := h * 3600 + m * 60 + s;
            0 <= tod < 86_400 && tod / 3600 == h && tod % 3600 / 60 == m && tod % 60 == s
  {
    var tod := h * 3600 + m * 60 + s;
    assert tod / 3600 == h && tod % 3600 == m * 60 + s;
  }

  lemma JoinThenSplit(f: Fields)
    requires ValidFields(f)
    ensures Split(Join(f)) == f
  {
    var micros, tod := Join(f), f.hour * 3600 + f.minute * 60 + f.second;
    ClockUnique(f.hour, f.minute, f.second);
    CivilOfDayNumber(f.date);
    assert micros / 1_000_000 == DayNumber(f.date) * 86_400 + tod;
    assert micros % 1_000_000 == f.micro;
    assert micros / 1_000_000 / 86_400 == DayNumber(f.date);
    assert micros / 1_000_000 % 86_400 == tod;
  }

  // ------------------------------------------------------------------------
  // Digits

  function Pow10(w: nat): nat {
    if w == 0 then 1 else 10 * Pow10(w - 1)
  }

  /** Decimal digits of `n`, zero-padded to at least `w`. */
  function Padded(n: nat, w: nat): string
    decreases n + w
  {
    if n == 0 && w == 0 then ""
    else Padded(n / 10, if w > 0 then w - 1 else 0) + [Digit(n % 10)]
  }

  lemma {:induction false} PaddedDigits(n: nat, w: nat)
    ensures AllDigits(Padded(n, w)) && Number(Padded(n, w)) == n
    ensures |Padded(n, w)| >= w
    ensures |Padded(n, w)| == w <==> n < Pow10(w)
    decreases n + w
  {
    if n > 0 || w > 0 {
      hide Number, AllDigits;
      var v := if w > 0 then w - 1 else 0;
      PaddedDigits(n / 10, v);
      DigitAppended(Padded(n / 10, v), n % 10);
    } else {
      NoDigits();
    }
  }

  lemma {:induction false} PaddedOfNumber(s: string)
    requires AllDigits(s)
    ensures Padded(Number(s), |s|) == s && Number(s) < Pow10(|s|)
  {
    if s != "" {
      PaddedOfNumber(s[..|s| - 1]);
      var d := s[|s| - 1] as int - '0' as int;
      assert Number(s) / 10 == Number(s[..|s| - 1]) && Number(s) % 10 == d;
    }
  }

  // ------------------------------------------------------------------------
  // Rendering and parsing

  const WIDTHS: seq<nat> := [4, 2, 2, 2, 2, 2, 6]
  const SEPARATORS: string := "--T::.Z"

  /** The fields from the `i`-th on, each with the separator that follows it. */
  function Render(ns: seq<nat>, i: nat): string
    requires |ns| + i == 7
    decreases |ns|
  {
    if ns == [] then "" else Padded(ns[0], WIDTHS[i]) + ([SEPARATORS[i]] + Render(ns[1..], i + 1))
  }

  function ParseFrom(s: string, i: nat): (r: Option<seq<nat>>)
    requires i <= 7
    ensures r.Some? ==> |r.value| + i == 7
    decreases 7 - i
  {
    if i == 7 then
      if s == "" then Some([]) else None
    else
      var w := WIDTHS[i];
      if |s| > w && AllDigits(s[..w]) && s[w] == SEPARATORS[i] then
        match ParseFrom(s[w + 1..], i + 1)
        case None => None
        case Some(ns) => Some([Number(s[..w])] + ns)
      else
        None
  }

  /** The numbers after the year. */
  function Clock(f: Fields): seq<nat>
    requires ValidFields(f)
  {
    [f.date.month, f.date.day, f.hour, f.minute, f.second, f.micro]
  }

  function FieldsOf(ns: seq<nat>): Fields
    requires |ns| == 7
  {
    Fields(Date(ns[0], ns[1], ns[2]), ns[3], ns[4], ns[5], ns[6])
  }

  /** The sign of a negative year counts toward its width of four. */
  function YearText(year: int): string {
    if year >= 0 then Padded(year, 4) else "-" + Padded(-year, 3)
  }

  function Format(micros: int): string {
    SplitThenJoin(micros);
    var f := Split(micros);
    YearText(f.date.year) + ("-" + Render(Clock(f), 1))
  }

  /** A date-time of section 5.6 with six fraction digits, in UTC, and a date that exists. */
  function Parse(s: string): Option<int> {
    match ParseFrom(s, 0)
    case None => None
    case Some(ns) => if ValidFields(FieldsOf(ns)) then Some(Join(FieldsOf(ns))) else None
  }

  predicate Fits(ns: seq<nat>, i: nat)
    requires |ns| + i == 7
  {
    forall k :: 0 <= k < |ns| ==> ns[k] < Pow10(WIDTHS[i + k])
  }

  lemma FitsCons(ns: seq<nat>, i: nat)
    requires |ns| + i == 7 && ns != []
    ensures Fits(ns, i) <==> ns[0] < Pow10(WIDTHS[i]) && Fits(ns[1..], i + 1)
  {
    if Fits(ns, i) {
      assert ns[0] < Pow10(WIDTHS[i + 0]);
      forall k | 0 <= k < |ns[1..]|
        ensures ns[1..][k] < Pow10(WIDTHS[i + 1 + k])
      {
        assert ns[k + 1] < Pow10(WIDTHS[i + (k + 1)]);
      }
    }
    if ns[0] < Pow10(WIDTHS[i]) && Fits(ns[1..], i + 1) {
      forall k | 0 <= k < |ns|
        ensures ns[k] < Pow10(WIDTHS[i + k])
      {
        if k > 0 {
          assert ns[1..][k - 1] < Pow10(WIDTHS[i + 1 + (k - 1)]);
        }
      }
    }
  }

  lemma ParseField(s: string, i: nat, head: string, rest: string, ns: seq<nat>)
    requires i < 7 && |head| == WIDTHS[i] && AllDigits(head) && s == head + ([SEPARATORS[i]] + rest)
    requires ParseFrom(rest, i + 1) == Some(ns)
    ensures ParseFrom(s, i) == Some([Number(head)] + ns)
  {
    var w := WIDTHS[i];
    assert s[..w] == head && s[w] == SEPARATORS[i] && s[w + 1..] == rest;
  }

  lemma NothingLeft()
    ensures ParseFrom(Render([], 7), 7) == Some([])
  {
  }

  lemma {:induction false} RenderThenParse(ns: seq<nat>, i: nat)
    requires |ns| + i == 7 && Fits(ns, i)
    ensures ParseFrom(Render(ns, i), i) == Some(ns)
    decreases |ns|
  {
    hide ParseFrom, Render, Fits, Number, Padded, AllDigits;
    if ns == [] {
      NothingLeft();
    } else {
      var head, rest := Padded(ns[0], WIDTHS[i]), Render(ns[1..], i + 1);
      FitsCons(ns, i);
      PaddedDigits(ns[0], WIDTHS[i]);
      RenderThenParse(ns[1..], i + 1);
      RenderedField(ns, i, head, rest);
      ParseField(Render(ns, i), i, head, rest, ns[1..]);
      assert [ns[0]] + ns[1..] == ns;
    }
  }

  /** What a successful parse of the first field means. */
  lemma ParsedField(s: string, i: nat)
    requires i < 7 && ParseFrom(s, i).Some?
    ensures var w := WIDTHS[i];
            && w < |s| && s[w] == SEPARATORS[i] && AllDigits(s[..w]) && ParseFrom(s[w + 1..], i + 1).Some?
            && ParseFrom(s, i).value == [Number(s[..w])] + ParseFrom(s[w + 1..], i + 1).value
  {
  }

  lemma RenderedField(ns: seq<nat>, i: nat, head: string, rest: string)
    requires |ns| + i == 7 && i < 7 && Padded(ns[0], WIDTHS[i]) == head && Render(ns[1..], i + 1) == rest
    ensures Render(ns, i) == head + ([SEPARATORS[i]] + rest)
  {
  }

  lemma ParsedEnd(s: string)
    requires ParseFrom(s, 7).Some?
    ensures Fits(ParseFrom(s, 7).value, 7) && Render(ParseFrom(s, 7).value, 7) == s
  {
  }

  lemma {:induction false} ParseThenRender(s: string, i: nat)
    requires i <= 7 && ParseFrom(s, i).Some?
    ensures Fits(ParseFrom(s, i).value, i) && Render(ParseFrom(s, i).value, i) == s
    decreases 7 - i
  {
    hide ParseFrom, Render, Fits, Number, Padded, AllDigits;
    if i == 7 {
      ParsedEnd(s);
    } else {
      var w := WIDTHS[i];
      ParsedField(s, i);
      ParseThenRender(s[w + 1..], i + 1);
      PaddedOfNumber(s[..w]);
      var ns := ParseFrom(s, i).value;
      assert ns[1..] == ParseFrom(s[w + 1..], i + 1).value;
      FitsCons(ns, i);
      RenderedField(ns, i, s[..w], s[w + 1..]);
      assert s == s[..w] + ([s[w]] + s[w + 1..]);
    }
  }

  // ------------------------------------------------------------------------
  // Which instants have a date-time

  /** 0000-01-01T00:00:00Z up to, not including, 10000-01-01T00:00:00Z. */
  predicate InRange(micros: int) {
    -62_167_219_200_000_000 <= micros < 253_402_300_800_000_000
  }

  lemma RangeEnds()
    ensures DayNumber(Date(0, 1, 1)) == -719_528 && DayNumber(Date(9999, 12, 31)) == 2_932_896
  {
    DaysInYear(9999);
    assert DaysBeforeMonth(9999, 13) == DaysBeforeMonth(9999, 12) + 31;
  }

  lemma RangeIsFourDigitYears(micros: int)
    ensures InRange(micros) <==> 0 <= Split(micros).date.year <= 9999
  {
    hide Split, DayNumber;
    SplitThenJoin(micros);
    var f := Split(micros);
    var first, last := Date(0, 1, 1), Date(9999, 12, 31);
    RangeEnds();
    assert 0 <= TimeOfDay(f) < 86_400_000_000;
    if f.date.year < 0 {
      DayNumberMonotone(f.date, first);
    } else if f.date.year > 9999 {
      DayNumberMonotone(last, f.date);
    } else {
      assert f.date == first || DateBefore(first, f.date);
      assert f.date == last || DateBefore(f.date, last);
      if DateBefore(first, f.date) {
        DayNumberMonotone(first, f.date);
      }
      if DateBefore(f.date, last) {
        DayNumberMonotone(f.date, last);
      }
    }
  }

  lemma FieldsFit(f: Fields)
    requires ValidFields(f) && 0 <= f.date.year <= 9999
    ensures Fits([f.date.year] + Clock(f), 0) && FieldsOf([f.date.year] + Clock(f)) == f
  {
    assert Pow10(2) == 100 && Pow10(4) == 10_000 && Pow10(6) == 100 * Pow10(4);
  }

  lemma FormatRenders(micros: int)
    requires InRange(micros)
    ensures var f := Split(micros);
            && ValidFields(f) && 0 <= f.date.year <= 9999
            && Format(micros) == Render([f.date.year] + Clock(f), 0)
  {
    SplitThenJoin(micros);
    RangeIsFourDigitYears(micros);
    var f := Split(micros);
    assert ([f.date.year] + Clock(f))[1..] == Clock(f);
    assert "-" == [SEPARATORS[0]];
  }

  /** A year outside 0000 to 9999 does not start with exactly four digits. */
  lemma OutOfRangeUnparsable(micros: int)
    requires !InRange(micros)
    ensures ParseFrom(Format(micros), 0) == None
  {
    SplitThenJoin(micros);
    RangeIsFourDigitYears(micros);
    var y, s := Split(micros).date.year, Format(micros);
    if y < 0 {
      assert s[0] == '-';
      assert |s| > 4 ==> !IsDigit(s[..4][0]);
    } else {
      PaddedDigits(y, 4);
      assert Pow10(4) == 10_000;
      assert s[4] == Padded(y, 4)[4] && IsDigit(s[4]);
    }
  }

  /**
   The output is an RFC 3339 date-time exactly for the instants of the years
   0000 to 9999, and then parsing it gives the same microseconds back.
   */
  lemma FormatThenParse(micros: int)
    ensures Parse(Format(micros)) == if InRange(micros) then Some(micros) else None
  {
    if InRange(micros) {
      FormatRenders(micros);
      SplitThenJoin(micros);
      var f := Split(micros);
      FieldsFit(f);
      RenderThenParse([f.date.year] + Clock(f), 0);
    } else {
      OutOfRangeUnparsable(micros);
    }
  }

  /** Every text the grammar accepts is the output for the instant it denotes. */
  lemma ParseThenFormat(s: string)
    requires Parse(s).Some?
    ensures InRange(Parse(s).value) && Format(Parse(s).value) == s
  {
    hide ParseFrom, Render, Join, Format, InRange;
    ParseThenRender(s, 0);
    var ns := ParseFrom(s, 0).value;
    var f := FieldsOf(ns);
    JoinThenSplit(f);
    assert ns[0] < Pow10(WIDTHS[0 + 0]) && Pow10(4) == 10_000;
    RangeIsFourDigitYears(Join(f));
    FormatRenders(Join(f));
    assert [f.date.year] + Clock(f) == ns;
  }

  lemma {:induction false} RenderLength(ns: seq<nat>, i: nat)
    requires |ns| + i == 7 && Fits(ns, i)
    ensures |Render(ns, i)| == [27, 22, 19, 16, 13, 10, 7, 0][i]
    decreases |ns|
  {
    if ns != [] {
      FitsCons(ns, i);
      PaddedDigits(ns[0], WIDTHS[i]);
      RenderLength(ns[1..], i + 1);
    }
  }

  lemma FormatLength(micros: int)
    requires InRange(micros)
    ensures |Format(micros)| == 27
  {
    FormatRenders(micros);
    FieldsFit(Split(micros));
    RenderLength([Split(micros).date.year] + Clock(Split(micros)), 0);
  }

  // ------------------------------------------------------------------------
  // Order

  predicate LexLess(s: string, t: string) {
    if t == "" then false
    else if s == "" then true
    else if s[0] != t[0] then s[0] < t[0]
    else LexLess(s[1..], t[1..])
  }

  lemma {:induction false} LexAsymmetric(s: string, t: string)
    ensures !(LexLess(s, t) && LexLess(t, s)) && !LexLess(s, s)
  {
    if s != "" {
      LexAsymmetric(s[1..], if t == "" then "" else t[1..]);
    }
  }

  lemma {:induction false} CommonPrefix(p: string, s: string, t: string)
    ensures LexLess(p + s, p + t) == LexLess(s, t)
  {
    if p == "" {
      assert p + s == s && p + t == t;
    } else {
      assert (p + s)[1..] == p[1..] + s && (p + t)[1..] == p[1..] + t;
      CommonPrefix(p[1..], s, t);
    }
  }

  lemma DigitDecides(p: string, a: char, b: char, s: string, t: string)
    requires a < b
    ensures LexLess(p + ([a] + s), p + ([b] + t))
  {
    CommonPrefix(p, [a] + s, [b] + t);
  }

  /** Of two numbers that fit the width, the smaller sorts first whatever follows. */
  lemma {:induction false} NumberDecides(a: nat, b: nat, w: nat, s: string, t: string)
    requires a < b < Pow10(w)
    ensures LexLess(Padded(a, w) + s, Padded(b, w) + t)
    decreases w
  {
    if w > 0 {
      var p, q, x, y := Padded(a / 10, w - 1), Padded(b / 10, w - 1), Digit(a % 10), Digit(b % 10);
      assert Padded(a, w) + s == p + ([x] + s) && Padded(b, w) + t == q + ([y] + t);
      if a / 10 < b / 10 {
        NumberDecides(a / 10, b / 10, w - 1, [x] + s, [y] + t);
      } else {
        DigitDecides(p, x, y, s, t);
      }
    }
  }

  /** `ns` and `ms` agree up to some position where `ns` is smaller. */
  predicate FirstLess(ns: seq<nat>, ms: seq<nat>)
    requires |ns| == |ms|
  {
    ns != [] && (ns[0] < ms[0] || (ns[0] == ms[0] && FirstLess(ns[1..], ms[1..])))
  }

  lemma {:induction false} RenderMonotone(ns: seq<nat>, ms: seq<nat>, i: nat)
    requires |ns| == |ms| && |ns| + i == 7 && Fits(ns, i) && Fits(ms, i) && FirstLess(ns, ms)
    ensures LexLess(Render(ns, i), Render(ms, i))
    decreases |ns|
  {
    FitsCons(ns, i);
    FitsCons(ms, i);
    var sep := [SEPARATORS[i]];
    var s, t := Render(ns[1..], i + 1), Render(ms[1..], i + 1);
    if ns[0] < ms[0] {
      NumberDecides(ns[0], ms[0], WIDTHS[i], sep + s, sep + t);
    } else {
      RenderMonotone(ns[1..], ms[1..], i + 1);
      CommonPrefix(sep, s, t);
      CommonPrefix(Padded(ns[0], WIDTHS[i]), sep + s, sep + t);
    }
  }

  predicate ClockBefore(f: Fields, g: Fields) {
    || f.hour < g.hour
    || (f.hour == g.hour && (f.minute < g.minute
        || (f.minute == g.minute && (f.second < g.second || (f.second == g.second && f.micro < g.micro)))))
  }

  lemma EarlierFields(f: Fields, g: Fields)
    requires ValidFields(f) && ValidFields(g) && Join(f) < Join(g)
    ensures DateBefore(f.date, g.date) || (f.date == g.date && ClockBefore(f, g))
  {
    assert 0 <= TimeOfDay(f) < 86_400_000_000 && 0 <= TimeOfDay(g) < 86_400_000_000;
    if DateBefore(g.date, f.date) {
      DayNumberMonotone(g.date, f.date);
    }
  }

  lemma EarlierNumbers(f: Fields, g: Fields)
    requires ValidFields(f) && ValidFields(g) && f.date.year >= 0 && g.date.year >= 0
    requires DateBefore(f.date, g.date) || (f.date == g.date && ClockBefore(f, g))
    ensures FirstLess([f.date.year] + Clock(f), [g.date.year] + Clock(g))
  {
    var ns, ms := [f.date.year] + Clock(f), [g.date.year] + Clock(g);
    assert FirstLess(ns[6..], ms[6..]) <==> f.micro < g.micro;
    assert FirstLess(ns[5..], ms[5..]) <==>
        f.second < g.second || (f.second == g.second && FirstLess(ns[6..], ms[6..])) by {
      assert ns[5..][1..] == ns[6..] && ms[5..][1..] == ms[6..];
    }
    assert ns[4..][1..] == ns[5..] && ms[4..][1..] == ms[5..];
    assert ns[3..][1..] == ns[4..] && ms[3..][1..] == ms[4..];
    assert ns[2..][1..] == ns[3..] && ms[2..][1..] == ms[3..];
    assert ns[1..][1..] == ns[2..] && ms[1..][1..] == ms[2..];
    assert f.date == g.date && ClockBefore(f, g) ==> FirstLess(ns[3..], ms[3..]);
    assert FirstLess(ns[2..], ms[2..]) <==>
        f.date.day < g.date.day || (f.date.day == g.date.day && FirstLess(ns[3..], ms[3..]));
  }

  lemma EarlierSortsFirst(a: int, b: int)
    requires InRange(a) && InRange(b) && a < b
    ensures LexLess(Format(a), Format(b))
  {
    hide Format, Render, Split, Join, FirstLess, LexLess, DateBefore, Fits;
    SplitThenJoin(a);
    SplitThenJoin(b);
    FormatRenders(a);
    FormatRenders(b);
    var f, g := Split(a), Split(b);
    FieldsFit(f);
    FieldsFit(g);
    EarlierFields(f, g);
    EarlierNumbers(f, g);
    RenderMonotone([f.date.year] + Clock(f), [g.date.year] + Clock(g), 0);
  }

  /** Section 5.1: among the years 0000 to 9999 the texts sort as the instants do. */
  lemma TextOrderIsTimeOrder(a: int, b: int)
    requires InRange(a) && InRange(b)
    ensures LexLess(Format(a), Format(b)) <==> a < b
  {
    if a < b {
      EarlierSortsFirst(a, b);
    } else {
      LexAsymmetric(Format(a), Format(b));
      if b < a {
        EarlierSortsFirst(b, a);
      }
    }
  }
}
