/** Calendar dates, minute-precision times of day, naive date-times and
    their ISO text forms `YYYY-MM-DD` and `HH:MM`. */
module Calendar {
  import opened Wrappers

  /** A proleptic Gregorian calendar date (Python's `date`). */
  datatype Date = Date(year: nat, month: nat, day: nat)

  /** A time of day at minute precision (Python's `time` as the forms produce it). */
  datatype Time = Time(hour: nat, minute: nat)

  /** A naive local date-time: a date, the minute of that day, and the
      microseconds elapsed within that minute (Python's `datetime`). */
  datatype DateTime = DateTime(date: Date, minute: nat, micro: nat)

  const MinutesPerDay: nat := 24 * 60
  const MicrosPerMinute: nat := 60 * 1000000

  predicate IsLeapYear(y: nat) {
    y % 4 == 0 && (y % 100 != 0 || y % 400 == 0)
  }

  function DaysInMonth(y: nat, m: nat): (n: nat)
    requires 1 <= m <= 12
    ensures 28 <= n <= 31
  {
    if m == 2 then (if IsLeapYear(y) then 29 else 28)
    else if m == 4 || m == 6 || m == 9 || m == 11 then 30
    else 31
  }

  /** The dates Python's `date` can represent: years 1 to 9999. */
  predicate ValidDate(d: Date) {
    1 <= d.year <= 9999 && 1 <= d.month <= 12 && 1 <= d.day <= DaysInMonth(d.year, d.month)
  }

  predicate ValidTime(t: Time) {
    t.hour < 24 && t.minute < 60
  }

  predicate ValidDateTime(dt: DateTime) {
    ValidDate(dt.date) && dt.minute < MinutesPerDay && dt.micro < MicrosPerMinute
  }

  function MinuteOfDay(t: Time): nat {
    t.hour * 60 + t.minute
  }

  /** Chronological order on dates: year, then month, then day. */
  predicate DateBefore(a: Date, b: Date) {
    a.year < b.year
    || (a.year == b.year && (a.month < b.month || (a.month == b.month && a.day < b.day)))
  }

  predicate DateLe(a: Date, b: Date) {
    a == b || DateBefore(a, b)
  }

  /** Chronological order on date-times. */
  predicate Before(a: DateTime, b: DateTime) {
    DateBefore(a.date, b.date)
    || (a.date == b.date && (a.minute < b.minute || (a.minute == b.minute && a.micro < b.micro)))
  }

  /** `datetime.combine(d, t)`. */
  function Combine(d: Date, t: Time): (dt: DateTime)
    ensures ValidDate(d) && ValidTime(t) ==> ValidDateTime(dt)
    ensures dt.date == d && dt.minute == MinuteOfDay(t) && dt.micro == 0
  {
    DateTime(d, MinuteOfDay(t), 0)
  }

  /** `Before` is a strict total order: irreflexive, transitive, and any two
      distinct date-times are comparable. */
  lemma BeforeIsStrictTotalOrder(a: DateTime, b: DateTime, c: DateTime)
    ensures !Before(a, a)
    ensures Before(a, b) && Before(b, c) ==> Before(a, c)
    ensures a == b || Before(a, b) || Before(b, a)
    ensures !(Before(a, b) && Before(b, a))
  {
  }

  /** `DateLe` is a total order. */
  lemma DateLeIsTotalOrder(a: Date, b: Date, c: Date)
    ensures DateLe(a, b) || DateLe(b, a)
    ensures DateLe(a, b) && DateLe(b, c) ==> DateLe(a, c)
    ensures DateLe(a, b) && DateLe(b, a) ==> a == b
  {
  }

  /** On one date, combined times compare as their minutes of the day: the
      ordering of appointments' start and end on their own date. */
  lemma CombineOrder(d: Date, s: Time, e: Time)
    ensures Before(Combine(d, s), Combine(d, e)) <==> MinuteOfDay(s) < MinuteOfDay(e)
  {
  }

  /** Valid times combine with one date to the same date-time only when
      they are the same time. */
  lemma CombineInjective(d: Date, s: Time, e: Time)
    requires ValidTime(s) && ValidTime(e)
    ensures Combine(d, s) == Combine(d, e) <==> s == e
  {
  }

  // ---- decimal digits ----------------------------------------------------

  predicate IsDigit(c: char) {
    '0' <= c <= '9'
  }

  function DigitChar(n: nat): (c: char)
    requires n < 10
    ensures IsDigit(c)
  {
    ('0' as int + n) as char
  }

  function DigitValue(c: char): (n: nat)
    requires IsDigit(c)
    ensures n < 10
  {
    c as int - '0' as int
  }

  predicate AllDigits(s: string) {
    forall i :: 0 <= i < |s| ==> IsDigit(s[i])
  }

  function Pow10(w: nat): (p: nat)
    ensures p >= 1
  {
    if w == 0 then 1 else 10 * Pow10(w - 1)
  }

  /** `n` written in decimal with exactly `w` digits, zero-padded on the
      left (the `%02d` / `%04d` of `strftime` and `isoformat`). */
  function PadDecimal(n: nat, w: nat): (s: string)
    requires n < Pow10(w)
    ensures |s| == w && AllDigits(s)
  {
    if w == 0 then [] else PadDecimal(n / 10, w - 1) + [DigitChar(n % 10)]
  }

  /** The number a string of decimal digits denotes. */
  function DecimalValue(s: string): (n: nat)
    requires AllDigits(s)
    ensures n < Pow10(|s|)
  {
    if |s| == 0 then 0 else DecimalValue(s[..|s| - 1]) * 10 + DigitValue(s[|s| - 1])
  }

  /** Reading back a padded number gives the number. */
  lemma {:induction false} DecimalOfPad(n: nat, w: nat)
    requires n < Pow10(w)
    ensures DecimalValue(PadDecimal(n, w)) == n
  {
    if w > 0 {
      var s := PadDecimal(n, w);
      assert s[..|s| - 1] == PadDecimal(n / 10, w - 1);
      DecimalOfPad(n / 10, w - 1);
    }
  }

  /** Padding the value of a digit string to its own width gives the string. */
  lemma {:induction false} PadOfDecimal(s: string)
    requires AllDigits(s)
    ensures PadDecimal(DecimalValue(s), |s|) == s
  {
    if |s| > 0 {
      var init := s[..|s| - 1];
      PadOfDecimal(init);
      var last := s[|s| - 1];
      LastDigit(DecimalValue(init), DigitValue(last));
      assert DigitChar(DigitValue(last)) == last;
      assert s == init + [last];
    }
  }

  /** Appending digit `d` to `q` and splitting it off again. */
  lemma LastDigit(q: nat, d: nat)
    requires d < 10
    ensures (q * 10 + d) / 10 == q && (q * 10 + d) % 10 == d
  {
  }

  // ---- HH:MM -------------------------------------------------------------

  /** `t.strftime("%H:%M")`. */
  function FormatTime(t: Time): (s: string)
    requires ValidTime(t)
    ensures |s| == 5 && s[2] == ':'
  {
    PadDecimal(t.hour, 2) + ":" + PadDecimal(t.minute, 2)
  }

  /** `time.fromisoformat(s)` for the `HH:MM` form; `None` where Python raises. */
  function ParseTime(s: string): (r: Option<Time>)
    ensures r.Some? ==> ValidTime(r.value)
  {
    if |s| == 5 && s[2] == ':' && AllDigits(s[..2]) && AllDigits(s[3..]) then
      var h := DecimalValue(s[..2]);
      var m := DecimalValue(s[3..]);
      if h < 24 && m < 60 then Some(Time(h, m)) else None
    else None
  }

  /** Parsing a formatted time gives the time back. */
  lemma TimeRoundTrip(t: Time)
    requires ValidTime(t)
    ensures ParseTime(FormatTime(t)) == Some(t)
  {
    var s := FormatTime(t);
    assert s[..2] == PadDecimal(t.hour, 2);
    assert s[3..] == PadDecimal(t.minute, 2);
    DecimalOfPad(t.hour, 2);
    DecimalOfPad(t.minute, 2);
  }

  /** Formatting a parsed time gives the text back: the two are inverses. */
  lemma TimeTextRoundTrip(s: string)
    requires ParseTime(s).Some?
    ensures FormatTime(ParseTime(s).value) == s
  {
    PadOfDecimal(s[..2]);
    PadOfDecimal(s[3..]);
    assert s == s[..2] + ":" + s[3..];
  }

  // ---- YYYY-MM-DD --------------------------------------------------------

  /** `d.isoformat()`. */
  function FormatDate(d: Date): (s: string)
    requires ValidDate(d)
    ensures |s| == 10 && s[4] == '-' && s[7] == '-'
  {
    PadDecimal(d.year, 4) + "-" + PadDecimal(d.month, 2) + "-" + PadDecimal(d.day, 2)
  }

  /** `date.fromisoformat(s)` for the `YYYY-MM-DD` form; `None` where Python
      raises (wrong shape, or no such calendar date). */
  function ParseDate(s: string): (r: Option<Date>)
    ensures r.Some? ==> ValidDate(r.value)
  {
    if |s| == 10 && s[4] == '-' && s[7] == '-'
       && AllDigits(s[..4]) && AllDigits(s[5..7]) && AllDigits(s[8..]) then
      var d := Date(DecimalValue(s[..4]), DecimalValue(s[5..7]), DecimalValue(s[8..]));
      if ValidDate(d) then Some(d) else None
    else None
  }

  /** Parsing a formatted date gives the date back. */
  lemma DateRoundTrip(d: Date)
    requires ValidDate(d)
    ensures ParseDate(FormatDate(d)) == Some(d)
  {
    var s := FormatDate(d);
    assert s[..4] == PadDecimal(d.year, 4);
    assert s[5..7] == PadDecimal(d.month, 2);
    assert s[8..] == PadDecimal(d.day, 2);
    DecimalOfPad(d.year, 4);
    DecimalOfPad(d.month, 2);
    DecimalOfPad(d.day, 2);
  }

  /** Formatting a parsed date gives the text back. */
  lemma DateTextRoundTrip(s: string)
    requires ParseDate(s).Some?
    ensures FormatDate(ParseDate(s).value) == s
  {
    PadOfDecimal(s[..4]);
    PadOfDecimal(s[5..7]);
    PadOfDecimal(s[8..]);
    assert s == s[..4] + "-" + s[5..7] + "-" + s[8..];
  }
}
