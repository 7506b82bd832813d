/** The date handling around a user's birthday: `new Date('YYYY-MM-DD')` on the
    way into the table and `date.toISOString().split('T')[0]` on the way out.
    A stored date-time is kept broken down into its UTC calendar date and the
    milliseconds into that day. */
module Dates {
  import opened Common

  datatype CalendarDate = CalendarDate(year: int, month: nat, day: nat)

  /** A UTC instant: its calendar date and the milliseconds since midnight. */
  datatype DateTime = DateTime(date: CalendarDate, msOfDay: nat)

  predicate LeapYear(y: int)
  {
    y % 4 == 0 && (y % 100 != 0 || y % 400 == 0)
  }

  function DaysInMonth(y: int, m: nat): nat
  {
    if m == 2 then (if LeapYear(y) then 29 else 28)
    else if m == 4 || m == 6 || m == 9 || m == 11 then 30
    else 31
  }

  /** A real calendar day. */
  predicate ValidDate(d: CalendarDate)
  {
    1 <= d.month <= 12 && 1 <= d.day <= DaysInMonth(d.year, d.month)
  }

  // ---------------------------------------------------------------------------
  // Decimal digits

  predicate IsDigit(c: char)
  {
    '0' <= c <= '9'
  }

  predicate AllDigits(s: string)
  {
    forall i :: 0 <= i < |s| ==> IsDigit(s[i])
  }

  function DigitChar(n: nat): (c: char)
    requires n < 10
    ensures IsDigit(c)
  {
    ['0', '1', '2', '3', '4', '5', '6', '7', '8', '9'][n]
  }

  function DigitValue(c: char): (n: nat)
    requires IsDigit(c)
    ensures n < 10 && DigitChar(n) == c
  {
    (c as int - '0' as int) as nat
  }

  function Pow10(k: nat): (p: nat)
    ensures p >= 1
  {
    if k == 0 then 1 else 10 * Pow10(k - 1)
  }

  /** The `w` lowest decimal digits of `n`, most significant first. */
  function Digits(n: nat, w: nat): (s: string)
    ensures |s| == w && AllDigits(s)
  {
    if w == 0 then [] else Digits(n / 10, w - 1) + [DigitChar(n % 10)]
  }

  /** How many decimal digits `n` has. */
  function Width(n: nat): (k: nat)
    ensures k >= 1
  {
    if n < 10 then 1 else 1 + Width(n / 10)
  }

  /** `String(n).padStart(w, '0')`. */
  function PadNum(n: nat, w: nat): (s: string)
    ensures AllDigits(s) && |s| >= w
  {
    Digits(n, if Width(n) > w then Width(n) else w)
  }

  /** The number a string of digits denotes. */
  function Value(s: string): nat
    requires AllDigits(s)
  {
    if s == [] then 0 else 10 * Value(s[..|s| - 1]) + DigitValue(s[|s| - 1])
  }

  lemma {:induction false} WidthFits(n: nat, w: nat)
    requires w >= 1 && n < Pow10(w)
    ensures Width(n) <= w
  {
    if n >= 10 {
      assert w >= 2;
      assert n / 10 < Pow10(w - 1);
      WidthFits(n / 10, w - 1);
    }
  }

  lemma {:induction false} ValueBound(s: string)
    requires AllDigits(s)
    ensures Value(s) < Pow10(|s|)
  {
    if s != [] {
      ValueBound(s[..|s| - 1]);
    }
  }

  /** Reading back the digits of a string gives back the string. */
  lemma {:induction false} DigitsOfValue(s: string)
    requires AllDigits(s)
    ensures Digits(Value(s), |s|) == s
  {
    if s != [] {
      var init := s[..|s| - 1];
      DigitsOfValue(init);
      var v := Value(s);
      assert v / 10 == Value(init) && v % 10 == DigitValue(s[|s| - 1]);
      assert s == init + [s[|s| - 1]];
    }
  }

  /** A numeral padded to the width it already has reads back exactly. */
  lemma PadNumOfValue(s: string)
    requires AllDigits(s) && |s| >= 1
    ensures PadNum(Value(s), |s|) == s
  {
    ValueBound(s);
    WidthFits(Value(s), |s|);
    DigitsOfValue(s);
  }

  lemma {:induction false} ValueOfDigits(n: nat, w: nat)
    requires n < Pow10(w)
    ensures Value(Digits(n, w)) == n
  {
    if w > 0 {
      assert n / 10 < Pow10(w - 1);
      ValueOfDigits(n / 10, w - 1);
      var s := Digits(n, w);
      assert s[..|s| - 1] == Digits(n / 10, w - 1);
    }
  }

  // ---------------------------------------------------------------------------
  // Formatting: `toISOString()` and `.split('T')[0]`

  /** Years 0..9999 as four digits, others as a sign and six digits. */
  function YearText(y: int): string
  {
    if 0 <= y <= 9999 then PadNum(y, 4)
    else (if y < 0 then "-" else "+") + PadNum(if y < 0 then -y else y, 6)
  }

  /** `YYYY-MM-DD`. */
  function FormatDate(d: CalendarDate): string
  {
    YearText(d.year) + "-" + PadNum(d.month, 2) + "-" + PadNum(d.day, 2)
  }

  /** `HH:mm:ss.sssZ`. */
  function TimeText(ms: nat): string
  {
    PadNum(ms / 3600000, 2) + ":" + PadNum(ms / 60000 % 60, 2) + ":" +
    PadNum(ms / 1000 % 60, 2) + "." + PadNum(ms % 1000, 3) + "Z"
  }

  function ToIsoString(dt: DateTime): string
  {
    FormatDate(dt.date) + "T" + TimeText(dt.msOfDay)
  }

  /** `s.split(sep)[0]`: everything before the first `sep`. */
  function SplitFirst(s: string, sep: char): (r: string)
    ensures |r| <= |s| && r == s[..|r|]
    ensures sep !in r
    ensures |r| < |s| ==> s[|r|] == sep
  {
    if s == [] || s[0] == sep then [] else [s[0]] + SplitFirst(s[1..], sep)
  }

  lemma {:induction false} SplitFirstAfterPrefix(a: string, sep: char, b: string)
    requires sep !in a
    ensures SplitFirst(a + [sep] + b, sep) == a
  {
    if a != [] {
      assert (a + [sep] + b)[1..] == a[1..] + [sep] + b;
      SplitFirstAfterPrefix(a[1..], sep, b);
    }
  }

  /** The date part of an ISO rendering is the formatted calendar date. */
  lemma IsoDatePart(dt: DateTime)
    ensures SplitFirst(ToIsoString(dt), 'T') == FormatDate(dt.date)
    ensures FormatDate(dt.date) != []
  {
    var f := FormatDate(dt.date);
    assert 'T' !in f by {
      var y := dt.date.year;
      assert 'T' !in YearText(y) by {
        if !(0 <= y <= 9999) {
          var p := PadNum(if y < 0 then -y else y, 6);
          assert YearText(y) == [YearText(y)[0]] + p;
        }
      }
    }
    assert ToIsoString(dt) == f + ['T'] + TimeText(dt.msOfDay);
    SplitFirstAfterPrefix(f, 'T', TimeText(dt.msOfDay));
  }

  // ---------------------------------------------------------------------------
  // Parsing: `new Date(s)` for the date-only form `YYYY-MM-DD`

  predicate DateShaped(s: string)
  {
    |s| == 10 && AllDigits(s[..4]) && s[4] == '-' && AllDigits(s[5..7]) && s[7] == '-' && AllDigits(s[8..])
  }

  /** The year, month and day fields of a `YYYY-MM-DD` string, as written. */
  function DateFields(s: string): (d: CalendarDate)
    requires DateShaped(s)
    ensures 0 <= d.year <= 9999 && d.month < 100 && d.day < 100
  {
    ValueBound(s[..4]);
    ValueBound(s[5..7]);
    ValueBound(s[8..]);
    CalendarDate(Value(s[..4]), Value(s[5..7]), Value(s[8..]))
  }

  /** The fields a date-only string may have: a month 1..12 and a day 1..31,
      whatever the month. */
  predicate FieldsInRange(d: CalendarDate)
  {
    1 <= d.month <= 12 && 1 <= d.day <= 31
  }

  /** A `YYYY-MM-DD` string whose fields name a day that exists. */
  predicate NamesRealDay(s: string)
  {
    DateShaped(s) && ValidDate(DateFields(s))
  }

  /** A day past the end of its month counts on into the next month; December
      has 31 days, so it never overflows. */
  function RollOver(d: CalendarDate): (r: CalendarDate)
    requires FieldsInRange(d)
    ensures ValidDate(r) && r.year == d.year
    ensures ValidDate(d) ==> r == d
    ensures !ValidDate(d) ==> r.month == d.month + 1 && r.day == d.day - DaysInMonth(d.year, d.month)
  {
    if d.day <= DaysInMonth(d.year, d.month) then d
    else CalendarDate(d.year, d.month + 1, d.day - DaysInMonth(d.year, d.month))
  }

  /** UTC midnight of the day `s` names, or None for an invalid date. A day
      beyond the month's length but at most 31 is not invalid: it rolls over
      into the next month. */
  function ParseDate(s: string): (r: Option<DateTime>)
    ensures r.Some? <==> DateShaped(s) && FieldsInRange(DateFields(s))
    ensures r.Some? ==> ValidDate(r.value.date) && r.value.msOfDay == 0
    ensures r.Some? ==> 0 <= r.value.date.year <= 9999
    ensures NamesRealDay(s) ==> r == Some(DateTime(DateFields(s), 0))
  {
    if !DateShaped(s) then None
    else
      var d := DateFields(s);
      if FieldsInRange(d) then Some(DateTime(RollOver(d), 0)) else None
  }

  /** A day the month does not have is stored as a day of the next month, so
      it does not format back to the text it was parsed from. */
  lemma ParseRollsOver(s: string)
    requires DateShaped(s) && FieldsInRange(DateFields(s)) && !NamesRealDay(s)
    ensures ParseDate(s).Some?
    ensures var d, r := DateFields(s), ParseDate(s).value.date;
      r == CalendarDate(d.year, d.month + 1, d.day - DaysInMonth(d.year, d.month))
    ensures FormatDate(ParseDate(s).value.date) != s
  {
    var d, r := DateFields(s), ParseDate(s).value.date;
    var ms, rs := PadNum(d.month, 2), PadNum(r.month, 2);
    WidthFits(d.month, 2);
    WidthFits(r.month, 2);
    WidthFits(r.day, 2);
    var ys, ds := PadNum(r.year, 4), PadNum(r.day, 2);
    WidthFits(r.year, 4);
    PadNumOfValue(s[5..7]);
    assert FormatDate(r) == ys + "-" + rs + "-" + ds;
    assert FormatDate(r)[5..7] == rs;
    ValueOfDigits(r.month, 2);
    assert Value(rs) == r.month != d.month == Value(s[5..7]);
  }

  /** Parsing then formatting gives back the input, for a day that exists. */
  lemma FormatParsedDate(s: string)
    requires NamesRealDay(s)
    ensures ParseDate(s).Some?
    ensures FormatDate(ParseDate(s).value.date) == s
  {
    PadNumOfValue(s[..4]);
    PadNumOfValue(s[5..7]);
    PadNumOfValue(s[8..]);
    ValueBound(s[..4]);
    assert s == s[..4] + "-" + s[5..7] + "-" + s[8..];
  }

  /** Formatting then parsing gives back a valid day (at midnight). */
  lemma ParseFormattedDate(d: CalendarDate)
    requires ValidDate(d) && 0 <= d.year <= 9999
    ensures ParseDate(FormatDate(d)) == Some(DateTime(d, 0))
  {
    var ys, ms, ds := PadNum(d.year, 4), PadNum(d.month, 2), PadNum(d.day, 2);
    WidthFits(d.year, 4);
    WidthFits(d.month, 2);
    WidthFits(d.day, 2);
    assert |ys| == 4 && |ms| == 2 && |ds| == 2;
    var s := FormatDate(d);
    assert s == ys + "-" + ms + "-" + ds;
    assert s[..4] == ys && s[5..7] == ms && s[8..] == ds;
    ValueOfDigits(d.year, 4);
    ValueOfDigits(d.month, 2);
    ValueOfDigits(d.day, 2);
  }
}
