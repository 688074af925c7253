/** Week and month helpers (src/lib/dates.ts) and the calendar arithmetic
    behind JavaScript's `new Date(year, monthIndex, day, h, m, s, ms)`.
    An instant is a whole number of milliseconds since 1970-01-01T00:00
    local time; local time is taken to be UTC. */
module Dates {
  import opened Types

  const MsPerSecond: int := 1_000
  const MsPerMinute: int := 60_000
  const MsPerHour: int := 3_600_000
  const MsPerDay: int := 86_400_000

  /** The day number of an instant (day 0 is 1970-01-01). */
  function DayOf(t: int): int
  {
    t / MsPerDay
  }

  /** The first instant (00:00:00.000) of a day. */
  function StartOfDay(day: int): int
  {
    day * MsPerDay
  }

  lemma DayOfStartOfDay(day: int, r: int)
    requires 0 <= r < MsPerDay
    ensures DayOf(StartOfDay(day) + r) == day
  {
  }

  /** Moving an instant n whole days moves its day number by n. */
  lemma DayOfShift(t: int, n: int)
    ensures DayOf(t + n * MsPerDay) == DayOf(t) + n
  {
    var r := t % MsPerDay;
    assert t == StartOfDay(DayOf(t)) + r;
    assert t + n * MsPerDay == StartOfDay(DayOf(t) + n) + r;
    DayOfStartOfDay(DayOf(t) + n, r);
  }

  /** `Date.prototype.getDay`: 0 is Sunday, 1 Monday, ... 6 Saturday;
      1970-01-01 was a Thursday. */
  function Weekday(day: int): (w: int)
    ensures 0 <= w < 7
  {
    (day + 4) % 7
  }
  /** Day 0 is 1970-01-01, a Thursday: the anchor the weekday offset relies on. */
  lemma EpochAnchor()
    ensures DaysFromCivil(1970, 1, 1) == 0
    ensures Weekday(DaysFromCivil(1970, 1, 1)) == 4
  {
  }


  /** The number of days from a weekday back to that week's Monday. */
  function DiffToMonday(weekday: int): (diff: int)
    requires 0 <= weekday < 7
    ensures -6 <= diff <= 0
    ensures (weekday + diff) % 7 == 1
  {
    if weekday == 0 then -6 else 1 - weekday
  }

  /** The Monday of the Monday-to-Sunday week holding `day`. */
  function MondayOf(day: int): (monday: int)
    ensures Weekday(monday) == 1
    ensures day - 6 <= monday <= day
  {
    day + DiffToMonday(Weekday(day))
  }

  /** The first instant of the week holding t: its Monday at 00:00:00.000. */
  function WeekStart(t: int): int
  {
    StartOfDay(MondayOf(DayOf(t)))
  }

  /** The last instant of the week holding t: its Sunday at 23:59:59.999. */
  function WeekEnd(t: int): int
  {
    StartOfDay(MondayOf(DayOf(t)) + 6) + MsPerDay - 1
  }

  /** A mutable JavaScript Date, reduced to the instant it holds. */
  class JsDate {
    var time: int

    /** `new Date(t)` */
    constructor (t: int)
      ensures time == t
    {
      time := t;
    }

    /** `getDay()` */
    function GetDay(): (w: int)
      reads this
      ensures 0 <= w < 7
    {
      Weekday(DayOf(time))
    }

    /** `setDate(getDate() + n)`: JavaScript carries a day of the month past
        either end of the month into the neighbouring month, so the net
        effect is to move the date n days, keeping the time of day. */
    method AddDays(n: int)
      modifies this
      ensures time == old(time) + n * MsPerDay
    {
      time := time + n * MsPerDay;
    }

    /** `setHours(h, m, s, ms)`: replaces the time of day, keeping the day
        (values past their usual range carry over, as in JavaScript). */
    method SetHours(h: int, m: int, s: int, ms: int)
      modifies this
      ensures time == StartOfDay(DayOf(old(time))) + h * MsPerHour + m * MsPerMinute + s * MsPerSecond + ms
    {
      time := StartOfDay(DayOf(time)) + h * MsPerHour + m * MsPerMinute + s * MsPerSecond + ms;
    }
  }

  /** getWeekRange: copies the date, moves the copy back to Monday and sets
      it to midnight, then copies that and moves six days on to Sunday at
      23:59:59.999. The given date is not changed. */
  method GetWeekRange(date: JsDate) returns (start: JsDate, end: JsDate)
    ensures fresh(start) && fresh(end)
    ensures start.time == WeekStart(date.time) && end.time == WeekEnd(date.time)
  {
    var d := new JsDate(date.time);
    var day := d.GetDay();
    var diffToMonday := if day == 0 then -6 else 1 - day;
    var monday := new JsDate(d.time);
    monday.AddDays(diffToMonday);
    monday.SetHours(0, 0, 0, 0);
    DayOfShift(date.time, diffToMonday);
    var sunday := new JsDate(monday.time);
    sunday.AddDays(6);
    DayOfShift(monday.time, 6);
    DayOfStartOfDay(MondayOf(DayOf(date.time)), 0);
    sunday.SetHours(23, 59, 59, 999);
    return monday, sunday;
  }

  /** The week around t starts on a Monday at midnight no later than t, ends
      on the following Sunday at 23:59:59.999 no earlier than t, and spans
      seven whole days. */
  lemma {:induction false} WeekRangeShape(t: int)
    ensures WeekStart(t) <= t <= WeekEnd(t)
    ensures WeekEnd(t) - WeekStart(t) == 7 * MsPerDay - 1
    ensures Weekday(DayOf(WeekStart(t))) == 1 && WeekStart(t) % MsPerDay == 0
    ensures Weekday(DayOf(WeekEnd(t))) == 0 && WeekEnd(t) % MsPerDay == MsPerDay - 1
  {
    var monday := MondayOf(DayOf(t));
    DayOfStartOfDay(monday, 0);
    DayOfStartOfDay(monday + 6, MsPerDay - 1);
    assert Weekday(monday + 6) == 0;
  }

  /** Weeks tile the timeline: every instant of a week has that same week,
      and the instant after a week's end starts the next one. */
  lemma {:induction false} WeeksTile(t: int, u: int)
    requires WeekStart(t) <= u <= WeekEnd(t)
    ensures WeekStart(u) == WeekStart(t) && WeekEnd(u) == WeekEnd(t)
    ensures WeekStart(WeekEnd(t) + 1) == WeekEnd(t) + 1
  {
    var monday := MondayOf(DayOf(t));
    WeekRangeShape(t);
    var du := DayOf(u);
    assert monday <= du <= monday + 6;
    assert Weekday(du) == (Weekday(monday) + (du - monday)) % 7;
    assert MondayOf(du) == monday;
    var next := WeekEnd(t) + 1;
    assert next == StartOfDay(monday + 7);
    DayOfStartOfDay(monday + 7, 0);
    assert Weekday(monday + 7) == 1;
  }

  // ---------------------------------------------------------------------
  // Calendar months
  // ---------------------------------------------------------------------

  predicate IsLeapYear(y: int)
  {
    y % 4 == 0 && (y % 100 != 0 || y % 400 == 0)
  }

  function DaysInMonth(y: int, m: int): (n: int)
    requires 1 <= m <= 12
    ensures 28 <= n <= 31
  {
    if m == 2 then (if IsLeapYear(y) then 29 else 28)
    else if m == 4 || m == 6 || m == 9 || m == 11 then 30
    else 31
  }

  /** The day number of day d (1-based) of month m (1..12) of year y in the
      proleptic Gregorian calendar: the count of days since 1970-01-01,
      computed over 400-year eras whose years start in March. */
  function DaysFromCivil(y: int, m: int, d: int): int
    requires 1 <= m <= 12
  {
    var y' := if m <= 2 then y - 1 else y;
    var era := y' / 400;
    var yoe := y' % 400;
    var mp := if m > 2 then m - 3 else m + 9;
    var doy := (153 * mp + 2) / 5 + d - 1;
    var doe := yoe * 365 + yoe / 4 - yoe / 100 + doy;
    era * 146097 + doe - 719468
  }

  /** Consecutive days of a month have consecutive day numbers. */
  lemma DaysFromCivilDay(y: int, m: int, d: int)
    requires 1 <= m <= 12
    ensures DaysFromCivil(y, m, d) == DaysFromCivil(y, m, 1) + d - 1
  {
  }

  /** The first of the next month comes exactly DaysInMonth days after the
      first of this one. */
  lemma {:induction false} MonthLength(y: int, m: int)
    requires 1 <= m <= 12
    ensures m < 12 ==> DaysFromCivil(y, m + 1, 1) == DaysFromCivil(y, m, 1) + DaysInMonth(y, m)
    ensures m == 12 ==> DaysFromCivil(y + 1, 1, 1) == DaysFromCivil(y, 12, 1) + 31
  {
    if m == 2 {
      FebruaryLength(y);
    }
  }

  /** The days from the start of the era of 400 years to 1 March of year y,
      plus the era's own offset: the year part of `DaysFromCivil`. */
  function YearStart(y: int): int
  {
    (y / 400) * 146097 + (y % 400) * 365 + (y % 400) / 4 - (y % 400) / 100
  }

  /** Within an era, stepping the year of the era by one crosses one
      multiple of 4 or of 100 exactly when the new year is one. */
  lemma CenturyStep(r: int)
    requires 1 <= r < 400
    ensures r / 4 - (r - 1) / 4 == (if r % 4 == 0 then 1 else 0)
    ensures r / 100 - (r - 1) / 100 == (if r % 100 == 0 then 1 else 0)
  {
  }

  /** YearStart from the quotient and remainder of y by 400. */
  lemma YearStartOf(y: int, q: int, r: int)
    requires y == 400 * q + r && 0 <= r < 400
    ensures YearStart(y) == q * 146097 + r * 365 + r / 4 - r / 100
  {
    assert y / 400 == q && y % 400 == r;
  }

  /** Whether y is a leap year depends only on its remainder by 400. */
  lemma LeapOfRemainder(y: int, q: int, r: int)
    requires y == 400 * q + r && 0 <= r < 400
    ensures IsLeapYear(y) <==> r % 4 == 0 && (r % 100 != 0 || r == 0)
  {
    assert r == 4 * (r / 4) + r % 4 && y == 4 * (100 * q + r / 4) + r % 4;
    RemainderBy4(100 * q + r / 4, r % 4);
    assert r == 100 * (r / 100) + r % 100 && y == 100 * (4 * q + r / 100) + r % 100;
    RemainderBy100(4 * q + r / 100, r % 100);
    RemainderBy400(q, r);
  }

  /** The remainder of 4 * m + b by 4, for a digit b below 4. */
  lemma RemainderBy4(m: int, b: int)
    requires 0 <= b < 4
    ensures (4 * m + b) % 4 == b
  {
  }

  /** The remainder of 100 * m + b by 100, for b below 100. */
  lemma RemainderBy100(m: int, b: int)
    requires 0 <= b < 100
    ensures (100 * m + b) % 100 == b
  {
  }

  /** The remainder of 400 * m + b by 400, for b below 400. */
  lemma RemainderBy400(m: int, b: int)
    requires 0 <= b < 400
    ensures (400 * m + b) % 400 == b
  {
  }

  /** The March-based year y - 1, which holds the end of February of y, is
      365 days long, or 366 when y is a leap year. */
  lemma YearStartStep(y: int)
    ensures YearStart(y) == YearStart(y - 1) + 365 + (if IsLeapYear(y) then 1 else 0)
  {
    var q, r := y / 400, y % 400;
    LeapOfRemainder(y, q, r);
    YearStartOf(y, q, r);
    if r == 0 {
      YearStartOf(y - 1, q - 1, 399);
    } else {
      YearStartOf(y - 1, q, r - 1);
      StepWithinEra(r);
    }
  }

  /** Inside an era, year r of the era (counted from March) follows a year
      of 366 days exactly when r is a leap year of the era. */
  lemma StepWithinEra(r: int)
    requires 1 <= r < 400
    ensures (r * 365 + r / 4 - r / 100) - ((r - 1) * 365 + (r - 1) / 4 - (r - 1) / 100)
            == 365 + (if r % 4 == 0 && r % 100 != 0 then 1 else 0)
  {
    CenturyStep(r);
    if r % 100 == 0 {
      assert r == 100 * (r / 100);
      assert r % 4 == 0;
    }
  }

  /** The March-based year y - 1 ends on the last day of February of y. */
  lemma {:induction false} FebruaryLength(y: int)
    ensures DaysFromCivil(y, 3, 1) == DaysFromCivil(y, 2, 1) + (if IsLeapYear(y) then 29 else 28)
  {
    assert DaysFromCivil(y, 3, 1) == YearStart(y) - 719468;
    assert DaysFromCivil(y, 2, 1) == YearStart(y - 1) + 337 - 719468;
    YearStartStep(y);
  }

  /** The year `new Date(year, ...)` uses: JavaScript maps 0..99 to
      1900..1999. */
  function FullYear(year: int): int
  {
    if 0 <= year <= 99 then 1900 + year else year
  }

  /** `new Date(year, monthIndex, day, h, mi, s, ms)` in local time: a month
      index outside 0..11 carries into the year, and a day, hour, minute,
      second or millisecond outside its range carries into the next unit. */
  function LocalDate(year: int, monthIndex: int, day: int, h: int, mi: int, s: int, ms: int): int
  {
    var y := FullYear(year) + monthIndex / 12;
    var mn := monthIndex % 12;
    StartOfDay(DaysFromCivil(y, mn + 1, 1) + day - 1) + h * MsPerHour + mi * MsPerMinute + s * MsPerSecond + ms
  }

  /** The first instant of the month: `new Date(year, m - 1, 1)`. */
  function StartOfMonth(year: int, m: int): int
  {
    LocalDate(year, m - 1, 1, 0, 0, 0, 0)
  }

  /** The last instant of the month: `new Date(year, m, 0, 23, 59, 59, 999)`,
      day 0 of the next month being the last day of this one. */
  function EndOfMonth(year: int, m: int): int
  {
    LocalDate(year, m, 0, 23, 59, 59, 999)
  }

  /** `new Date(year, m - 1, 1)` is midnight on the month's first day. */
  lemma StartOfMonthIs(year: int, m: int)
    requires 1 <= m <= 12
    ensures StartOfMonth(year, m) == StartOfDay(DaysFromCivil(FullYear(year), m, 1))
  {
    assert (m - 1) / 12 == 0 && (m - 1) % 12 == m - 1;
  }

  /** `new Date(year, m, 0, 23, 59, 59, 999)` is the last millisecond
      before the next month's first day. */
  lemma EndOfMonthIs(year: int, m: int)
    requires 1 <= m <= 12
    ensures EndOfMonth(year, m) ==
              StartOfDay(DaysFromCivil(FullYear(year), m, 1) + DaysInMonth(FullYear(year), m)) - 1
  {
    var y := FullYear(year);
    MonthLength(y, m);
    var next := if m == 12 then DaysFromCivil(y + 1, 1, 1) else DaysFromCivil(y, m + 1, 1);
    assert next == DaysFromCivil(y, m, 1) + DaysInMonth(y, m);
    if m == 12 {
      assert m / 12 == 1 && m % 12 == 0;
    } else {
      assert m / 12 == 0 && m % 12 == m;
    }
    assert EndOfMonth(year, m) == StartOfDay(next - 1) + 23 * MsPerHour + 59 * MsPerMinute + 59 * MsPerSecond + 999;
  }

  /** For a month 1..12 the two bounds enclose exactly the month's days:
      from its first day at midnight to its last day at 23:59:59.999. */
  lemma {:induction false} MonthBounds(year: int, m: int)
    requires 1 <= m <= 12
    ensures StartOfMonth(year, m) == StartOfDay(DaysFromCivil(FullYear(year), m, 1))
    ensures EndOfMonth(year, m) ==
              StartOfDay(DaysFromCivil(FullYear(year), m, 1) + DaysInMonth(FullYear(year), m)) - 1
    ensures StartOfMonth(year, m) < EndOfMonth(year, m)
  {
    StartOfMonthIs(year, m);
    EndOfMonthIs(year, m);
  }

  // ---------------------------------------------------------------------
  // Month strings
  // ---------------------------------------------------------------------

  const MonthNames: seq<string> := [
    "Январь", "Февраль", "Март", "Апрель", "Май", "Июнь",
    "Июль", "Август", "Сентябрь", "Октябрь", "Ноябрь", "Декабрь"]

  predicate IsDigit(c: char)
  {
    '0' <= c <= '9'
  }

  function DigitChar(d: int): (c: char)
    requires 0 <= d < 10
    ensures IsDigit(c)
  {
    (d + '0' as int) as char
  }

  /** `String(n)` for a natural number: its decimal digits, no padding. */
  function NatToString(n: nat): (s: string)
    ensures |s| >= 1
    ensures forall i :: 0 <= i < |s| ==> IsDigit(s[i])
    ensures n > 0 ==> s[0] != '0'
  {
    if n < 10 then [DigitChar(n)]
    else NatToString(n / 10) + [DigitChar(n % 10)]
  }

  /** `padStart(2, "0")`: zeros in front up to length 2. */
  function PadStart2(s: string): (r: string)
    ensures |s| >= 2 ==> r == s
    ensures |s| < 2 ==> |r| == 2 && r[2 - |s|..] == s && forall i :: 0 <= i < 2 - |s| ==> r[i] == '0'
  {
    if |s| >= 2 then s
    else if |s| == 1 then ['0'] + s
    else "00"
  }

  /** getCurrentMonth with the clock passed in: the year, a dash and the
      month number padded to two digits ("2026-02"); `monthIndex` is what
      `getMonth()` returns. */
  function CurrentMonth(year: nat, monthIndex: int): string
    requires 0 <= monthIndex < 12
  {
    NatToString(year) + "-" + PadStart2(NatToString(monthIndex + 1))
  }

  /** `s.split(sep)`: the pieces between separators, in order. */
  function Split(s: string, sep: char): (parts: seq<string>)
    ensures |parts| >= 1
  {
    if |s| == 0 then [""]
    else
      var rest := Split(s[1..], sep);
      if s[0] == sep then [""] + rest
      else [[s[0]] + rest[0]] + rest[1..]
  }

  /** The value of a string of decimal digits. */
  function DigitsValue(s: string): nat
    requires forall i :: 0 <= i < |s| ==> IsDigit(s[i])
  {
    if |s| == 0 then 0
    else
      assert IsDigit(s[|s| - 1]);
      DigitsValue(s[..|s| - 1]) * 10 + (s[|s| - 1] as int - '0' as int)
  }

  /** The longest prefix of s made of decimal digits. */
  function DigitPrefix(s: string): (p: string)
    ensures p <= s
    ensures forall i :: 0 <= i < |p| ==> IsDigit(p[i])
  {
    if |s| == 0 || !IsDigit(s[0]) then "" else [s[0]] + DigitPrefix(s[1..])
  }

  /** `parseInt(s)` (radix 10): an optional sign, then the leading digits;
      None (NaN) when there are none. */
  function ParseInt(s: string): (r: Option<int>)
    ensures r.Some? <==> exists k :: 0 <= k <= 1 && |s| > k && IsDigit(s[k]) && (k == 1 ==> s[0] == '-' || s[0] == '+')
  {
    var neg := |s| > 0 && s[0] == '-';
    var body := if |s| > 0 && (s[0] == '-' || s[0] == '+') then s[1..] else s;
    var digits := DigitPrefix(body);
    if |digits| == 0 then None
    else
      assert IsDigit(body[0]);
      var v: int := DigitsValue(digits);
      Some(if neg then -v else v)
  }

  /** formatMonth: the Russian month name and the year ("Февраль 2026").
      A month number outside 1..12, or none at all, indexes past the names
      table and JavaScript prints "undefined". */
  function FormatMonth(month: string): string
  {
    var parts := Split(month, '-');
    var year := parts[0];
    var m := if |parts| > 1 then ParseInt(parts[1]) else None;
    var name := if m.Some? && 1 <= m.value <= 12 then MonthNames[m.value - 1] else "undefined";
    name + " " + year
  }

  /** Decimal digits read back as the number they were written from. */
  lemma {:induction false} NatToStringRoundTrip(n: nat)
    ensures DigitsValue(NatToString(n)) == n
  {
    if n >= 10 {
      var s := NatToString(n);
      NatToStringRoundTrip(n / 10);
      assert s[..|s| - 1] == NatToString(n / 10);
    }
  }

  /** The digit prefix of an all-digit string is the string itself. */
  lemma {:induction false} DigitPrefixAll(s: string)
    requires forall i :: 0 <= i < |s| ==> IsDigit(s[i])
    ensures DigitPrefix(s) == s
  {
    if |s| > 0 {
      DigitPrefixAll(s[1..]);
    }
  }

  /** Splitting on a separator that occurs once gives back both sides. */
  lemma {:induction false} SplitOnce(a: string, b: string, sep: char)
    requires sep !in a && sep !in b
    ensures Split(a + [sep] + b, sep) == [a, b]
  {
    var s := a + [sep] + b;
    if |a| == 0 {
      assert s[0] == sep && s[1..] == b;
      SplitNone(b, sep);
    } else {
      assert s[0] == a[0] && a[0] in a;
      assert s[1..] == a[1..] + [sep] + b;
      SplitOnce(a[1..], b, sep);
      assert [a[0]] + a[1..] == a;
    }
  }

  lemma {:induction false} SplitNone(s: string, sep: char)
    requires sep !in s
    ensures Split(s, sep) == [s]
  {
    if |s| > 0 {
      assert s[0] in s;
      SplitNone(s[1..], sep);
      assert [s[0]] + s[1..] == s;
    }
  }

  /** The month string splits on "-" into the year and the padded month,
      which parse back to the clock's year and month number. */
  lemma {:induction false} CurrentMonthSplit(year: nat, monthIndex: int)
    requires 0 <= monthIndex < 12
    ensures Split(CurrentMonth(year, monthIndex), '-') == [NatToString(year), PadStart2(NatToString(monthIndex + 1))]
    ensures ParseInt(NatToString(year)) == Some(year)
    ensures ParseInt(PadStart2(NatToString(monthIndex + 1))) == Some(monthIndex + 1)
  {
    var ys, ms := NatToString(year), PadStart2(NatToString(monthIndex + 1));
    PaddedMonth(monthIndex + 1);
    NoDash(ys);
    NoDash(ms);
    assert CurrentMonth(year, monthIndex) == ys + ['-'] + ms;
    SplitOnce(ys, ms, '-');
    NatToStringRoundTrip(year);
    ParseDigits(ys);
    ParseDigits(ms);
  }

  /** Formatting the current month string names the clock's month and
      year. */
  lemma {:induction false} CurrentMonthFormat(year: nat, monthIndex: int)
    requires 0 <= monthIndex < 12
    ensures FormatMonth(CurrentMonth(year, monthIndex)) == MonthNames[monthIndex] + " " + NatToString(year)
  {
    CurrentMonthSplit(year, monthIndex);
    FormatMonthOfParts(CurrentMonth(year, monthIndex), NatToString(year), PadStart2(NatToString(monthIndex + 1)), monthIndex + 1);
  }

  /** A month string made of a year and a month number 1..12 formats as
      that month's name and the year. */
  lemma FormatMonthOfParts(month: string, year: string, m: string, k: int)
    requires Split(month, '-') == [year, m]
    requires ParseInt(m) == Some(k) && 1 <= k <= 12
    ensures FormatMonth(month) == MonthNames[k - 1] + " " + year
  {
  }

  predicate AllDigits(s: string)
  {
    forall i :: 0 <= i < |s| ==> IsDigit(s[i])
  }

  lemma NoDash(s: string)
    requires AllDigits(s)
    ensures '-' !in s
  {
    forall i | 0 <= i < |s|
      ensures s[i] != '-'
    {
      assert IsDigit(s[i]);
    }
  }

  /** A month number 1..12 padded to two digits: all digits, and worth the
      month number. */
  lemma PaddedMonth(m: int)
    requires 1 <= m <= 12
    ensures |PadStart2(NatToString(m))| == 2
    ensures AllDigits(PadStart2(NatToString(m)))
    ensures DigitsValue(PadStart2(NatToString(m))) == m
  {
    var ds := NatToString(m);
    if m < 10 {
      assert ds == [DigitChar(m)];
      assert PadStart2(ds) == ['0', DigitChar(m)];
      TwoDigits('0', DigitChar(m));
    } else {
      assert NatToString(m / 10) == ['1'];
      assert ds == ['1', DigitChar(m % 10)];
      TwoDigits('1', DigitChar(m % 10));
    }
  }

  lemma TwoDigits(a: char, b: char)
    requires IsDigit(a) && IsDigit(b)
    ensures AllDigits([a, b])
    ensures DigitsValue([a, b]) == (a as int - '0' as int) * 10 + (b as int - '0' as int)
  {
    var ab := [a, b];
    assert ab[..1] == [a];
    assert [a][..0] == [];
    assert DigitsValue([a]) == a as int - '0' as int;
    assert DigitsValue(ab) == DigitsValue(ab[..1]) * 10 + (b as int - '0' as int);
  }

  /** parseInt of a non-empty all-digit string is its value. */
  lemma ParseDigits(s: string)
    requires |s| >= 1 && AllDigits(s)
    ensures ParseInt(s) == Some(DigitsValue(s) as int)
  {
    assert IsDigit(s[0]);
    assert s[0] != '-' && s[0] != '+';
    DigitPrefixAll(s);
    assert DigitPrefix(s) == s;
  }
}
