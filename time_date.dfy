/**
 * Times of day, Gregorian calendar dates, weekdays and the decimal
 * formatting the server and the browser client use for them.
 */
module TimeDate {

  import opened Wrappers

  /** A time of day as the server parses it from "HH:MM:SS": whole seconds since midnight. */
  type Time = t: nat | t < 86400

  const SecondsPerDay: nat := 86400

  function HMS(h: nat, m: nat, s: nat): (t: Time)
    requires h < 24 && m < 60 && s < 60
    ensures t / 3600 == h && (t / 60) % 60 == m && t % 60 == s
  {
    h * 3600 + m * 60 + s
  }

  /** A calendar date; `month` counts from 1 (January) to 12. */
  datatype Date = Date(year: int, month: int, day: int)

  predicate IsLeap(y: int)
  {
    y % 4 == 0 && (y % 100 != 0 || y % 400 == 0)
  }

  function DaysInMonth(y: int, m: int): (n: int)
    requires 1 <= m <= 12
    ensures 28 <= n <= 31
    ensures n == 29 <==> m == 2 && IsLeap(y)
  {
    if m == 2 then (if IsLeap(y) then 29 else 28)
    else if m == 4 || m == 6 || m == 9 || m == 11 then 30
    else 31
  }

  /** A date of the proleptic Gregorian calendar from year 1 on, as Python's `date` holds. */
  predicate ValidDate(d: Date)
  {
    d.year >= 1 && 1 <= d.month <= 12 && 1 <= d.day <= DaysInMonth(d.year, d.month)
  }

  /** Days in the months of year `y` before month `m`. */
  function DaysBeforeMonth(y: int, m: int): nat
    requires 1 <= m <= 12
  {
    [0, 31, 59, 90, 120, 151, 181, 212, 243, 273, 304, 334][m - 1]
      + (if m > 2 && IsLeap(y) then 1 else 0)
  }

  /** Days in the years before year `y`, counted from 0001-01-01. */
  function DaysBeforeYear(y: int): int
    requires y >= 1
  {
    var p := y - 1;
    365 * p + p / 4 - p / 100 + p / 400
  }

  /** Days elapsed since 0001-01-01, which is a Monday. */
  function DayNumber(d: Date): int
    requires ValidDate(d)
  {
    DaysBeforeYear(d.year) + DaysBeforeMonth(d.year, d.month) + d.day - 1
  }

  /** Python's `date.weekday()`: 0 = Monday .. 6 = Sunday. */
  function Weekday(d: Date): (w: nat)
    requires ValidDate(d)
    ensures w < 7
  {
    DayNumber(d) % 7
  }

  /** JavaScript's `Date.getDay()`: 0 = Sunday .. 6 = Saturday. */
  function JsGetDay(d: Date): (w: nat)
    requires ValidDate(d)
    ensures w < 7
  {
    (DayNumber(d) + 1) % 7
  }

  /** The client's remap of a Sunday-first weekday to a Monday-first one. */
  function MondayFirst(jsDay: nat): nat
    requires jsDay < 7
  {
    if jsDay == 0 then 6 else jsDay - 1
  }

  /** The client's remap agrees with the server's `weekday()`. */
  lemma MondayFirstIsWeekday(d: Date)
    requires ValidDate(d)
    ensures MondayFirst(JsGetDay(d)) == Weekday(d)
  {
    MondayFirstShift(DayNumber(d));
  }

  lemma MondayFirstShift(n: int)
    ensures MondayFirst((n + 1) % 7) == n % 7
  {
    var q, r := n / 7, n % 7;
    if r == 6 {
      assert n + 1 == 7 * (q + 1);
    } else {
      assert n + 1 == 7 * q + (r + 1);
    }
  }

  /** The date that follows `d` in the calendar. */
  function NextDay(d: Date): (n: Date)
    requires ValidDate(d)
    ensures ValidDate(n)
  {
    if d.day < DaysInMonth(d.year, d.month) then Date(d.year, d.month, d.day + 1)
    else if d.month < 12 then Date(d.year, d.month + 1, 1)
    else Date(d.year + 1, 1, 1)
  }

  lemma Div4Step(y: int)
    ensures y / 4 - (y - 1) / 4 == if y % 4 == 0 then 1 else 0
  {
  }

  lemma Div100Step(y: int)
    ensures y / 100 - (y - 1) / 100 == if y % 100 == 0 then 1 else 0
  {
  }

  lemma Div400Step(y: int)
    ensures y / 400 - (y - 1) / 400 == if y % 400 == 0 then 1 else 0
  {
  }

  lemma DaysBeforeNextYear(y: int)
    requires y >= 1
    ensures DaysBeforeYear(y + 1) == DaysBeforeYear(y) + if IsLeap(y) then 366 else 365
  {
    Div4Step(y);
    Div100Step(y);
    Div400Step(y);
  }

  /**
   * The day count advances by one from each date to the next; in particular the
   * last day of a month, DaysInMonth, is the day before the 1st of the next month,
   * which is what the client's `new Date(year, month + 1, 0)` denotes.
   */
  lemma NextDayNumber(d: Date)
    requires ValidDate(d)
    ensures DayNumber(NextDay(d)) == DayNumber(d) + 1
  {
    if d.day == DaysInMonth(d.year, d.month) && d.month == 12 {
      DaysBeforeNextYear(d.year);
    }
  }

  // ---------------------------------------------------------------------------
  // Decimal formatting

  function Digit(n: nat): (c: char)
    requires n < 10
    ensures '0' <= c <= '9'
  {
    "0123456789"[n]
  }

  function DigitValue(c: char): nat
  {
    if '0' <= c <= '9' then (c as int - '0' as int) as nat else 0
  }

  predicate IsDigit(c: char)
  {
    '0' <= c <= '9'
  }

  /** `String(n)` for a non-negative integer: no sign, no leading zeros. */
  function NatToString(n: nat): (s: string)
    ensures |s| >= 1
    ensures forall i :: 0 <= i < |s| ==> IsDigit(s[i])
    ensures n < 10 <==> |s| == 1
  {
    if n < 10 then [Digit(n)] else NatToString(n / 10) + [Digit(n % 10)]
  }

  /** The value of a string of decimal digits. */
  function ParseNat(s: string): nat
  {
    if s == [] then 0 else ParseNat(s[..|s| - 1]) * 10 + DigitValue(s[|s| - 1])
  }

  lemma {:induction false} ParseNatToString(n: nat)
    ensures ParseNat(NatToString(n)) == n
  {
    var s := NatToString(n);
    if n >= 10 {
      assert s[..|s| - 1] == NatToString(n / 10);
      ParseNatToString(n / 10);
    }
  }

  lemma NatToStringInjective(a: nat, b: nat)
    requires NatToString(a) == NatToString(b)
    ensures a == b
  {
    ParseNatToString(a);
    ParseNatToString(b);
  }

  /** `String(n).padStart(2, '0')`, and Python's `%02d` / `%H` / `%M`. */
  function Pad2(n: nat): (s: string)
    ensures n < 100 ==> |s| == 2 && ParseNat(s) == n
    ensures forall i :: 0 <= i < |s| ==> IsDigit(s[i])
  {
    ParseNatToString(n);
    if n < 10 then
      assert ParseNat("0" + NatToString(n)) == n by {
        assert ("0" + NatToString(n))[..1] == "0";
      }
      "0" + NatToString(n)
    else NatToString(n)
  }

  /** Python's `time.strftime("%H:%M")`. */
  function FormatHHMM(t: Time): (s: string)
    ensures |s| == 5 && s[2] == ':'
  {
    Pad2(t / 3600) + ":" + Pad2((t / 60) % 60)
  }

  /**
   * Python's `strptime(s, "%H:%M:%S")` on the zero-padded form the client sends;
   * None when `s` is not of that form or out of range.
   */
  function ParseHMS(s: string): (r: Option<Time>)
    ensures r.Some? ==> |s| == 8
  {
    if |s| == 8 && s[2] == ':' && s[5] == ':'
      && (forall i | i in {0, 1, 3, 4, 6, 7} :: IsDigit(s[i]))
    then
      var h, m, sec := ParseNat(s[0..2]), ParseNat(s[3..5]), ParseNat(s[6..8]);
      if h < 24 && m < 60 && sec < 60 then Some(h * 3600 + m * 60 + sec) else None
    else None
  }

  /**
   * The client submits a listed slot "HH:MM" with ":00" appended; on a whole
   * minute that string parses back to the very time the server listed.
   */
  lemma SlotStringRoundTrip(t: Time)
    requires t % 60 == 0
    ensures ParseHMS(FormatHHMM(t) + ":00") == Some(t)
  {
    var s := FormatHHMM(t) + ":00";
    var hh, mm := Pad2(t / 3600), Pad2((t / 60) % 60);
    assert s == hh + ":" + mm + ":00";
    assert s[0..2] == hh && s[3..5] == mm && s[6..8] == "00";
    assert ParseNat("00") == 0 by {
      assert "00"[..1] == "0";
    }
    assert forall i | i in {0, 1, 3, 4, 6, 7} :: IsDigit(s[i]);
  }

  /** The client's zero-padded `YYYY-MM-DD` cell key (the year is not padded). */
  function DateKey(d: Date): (k: string)
    requires d.year >= 0 && 1 <= d.month <= 12 && d.day >= 1
  {
    NatToString(d.year) + "-" + Pad2(d.month) + "-" + Pad2(d.day)
  }

  /** Distinct dates never share a key, so the `today` mark and exception matching are exact. */
  lemma DateKeyInjective(a: Date, b: Date)
    requires ValidDate(a) && ValidDate(b)
    requires DateKey(a) == DateKey(b)
    ensures a == b
  {
    var ka, kb := DateKey(a), DateKey(b);
    var ya, yb := NatToString(a.year), NatToString(b.year);
    assert |ka| == |ya| + 6 && |kb| == |yb| + 6;
    assert ka[..|ya|] == ya && kb[..|yb|] == yb;
    assert ka[|ya| + 1..|ya| + 3] == Pad2(a.month) && kb[|yb| + 1..|yb| + 3] == Pad2(b.month);
    assert ka[|ya| + 4..] == Pad2(a.day) && kb[|yb| + 4..] == Pad2(b.day);
    NatToStringInjective(a.year, b.year);
  }
}
