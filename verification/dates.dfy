/**
 * Calendar days, minute-precision timestamps, and the fixed two-digit text
 * formats the crawler uses: "dd MM yy" for a day and "dd MM yy, HH:mm" for a
 * timestamp.
 */
module Dates {
  import opened Wrappers

  // ---------------------------------------------------------------------------
  // Calendar days (the proleptic Gregorian calendar of java.time.LocalDate)
  // ---------------------------------------------------------------------------

  datatype Day = Day(year: int, month: int, day: int)

  predicate IsLeapYear(y: int) {
    (y % 4 == 0 && y % 100 != 0) || y % 400 == 0
  }

  function DaysInMonth(y: int, m: int): (n: int)
    requires 1 <= m <= 12
    ensures 28 <= n <= 31
    ensures n == 29 <==> m == 2 && IsLeapYear(y)
  {
    if m == 2 then (if IsLeapYear(y) then 29 else 28)
    else if m == 4 || m == 6 || m == 9 || m == 11 then 30
    else 31
  }

  predicate ValidDay(d: Day) {
    1 <= d.month <= 12 && 1 <= d.day <= DaysInMonth(d.year, d.month)
  }

  /** A day that exists in the proleptic Gregorian calendar (what LocalDate.now() returns). */
  type CalendarDay = d: Day | ValidDay(d) witness Day(1970, 1, 1)

  /** Strict chronological order of days. */
  predicate DayBefore(a: Day, b: Day) {
    a.year < b.year
    || (a.year == b.year && a.month < b.month)
    || (a.year == b.year && a.month == b.month && a.day < b.day)
  }

  /** The day after `d` (LocalDate.plusDays(1)). */
  function NextDay(d: Day): (n: Day)
    requires ValidDay(d)
    ensures ValidDay(n) && DayBefore(d, n)
  {
    if d.day < DaysInMonth(d.year, d.month) then Day(d.year, d.month, d.day + 1)
    else if d.month < 12 then Day(d.year, d.month + 1, 1)
    else Day(d.year + 1, 1, 1)
  }

  /** The day before `d` (LocalDate.minusDays(1)). */
  function PrevDay(d: Day): (p: Day)
    requires ValidDay(d)
    ensures ValidDay(p) && DayBefore(p, d)
  {
    if d.day > 1 then Day(d.year, d.month, d.day - 1)
    else if d.month > 1 then Day(d.year, d.month - 1, DaysInMonth(d.year, d.month - 1))
    else Day(d.year - 1, 12, 31)
  }

  /** PrevDay is exactly one day back: stepping forward again returns to `d`. */
  lemma PrevDayIsOneDayBefore(d: Day)
    requires ValidDay(d)
    ensures NextDay(PrevDay(d)) == d
    ensures PrevDay(NextDay(d)) == d
  {
  }

  /** No valid day lies strictly between PrevDay(d) and d. */
  lemma NothingBetweenPrevDayAndDay(d: Day, x: Day)
    requires ValidDay(d) && ValidDay(x)
    ensures !(DayBefore(PrevDay(d), x) && DayBefore(x, d))
  {
  }

  // ---------------------------------------------------------------------------
  // Timestamps of minute precision (java.util.Date as the crawler sees it)
  // ---------------------------------------------------------------------------

  datatype Stamp = Stamp(year: int, month: int, day: int, hour: int, minute: int)

  /** `a` is strictly earlier than `b` (Date.before): lexicographic order. */
  predicate Before(a: Stamp, b: Stamp) {
    if a.year != b.year then a.year < b.year
    else if a.month != b.month then a.month < b.month
    else if a.day != b.day then a.day < b.day
    else if a.hour != b.hour then a.hour < b.hour
    else a.minute < b.minute
  }

  /** Every field except the year has at most two decimal digits. */
  predicate SmallFields(s: Stamp) {
    0 <= s.month < 100 && 0 <= s.day < 100 && 0 <= s.hour < 100 && 0 <= s.minute < 100
  }

  /** A single number that grows with time, like the epoch milliseconds of a Date. */
  function Key(s: Stamp): int {
    s.year * 100000000 + s.month * 1000000 + s.day * 10000 + s.hour * 100 + s.minute
  }

  /** The lexicographic order agrees with the numeric order of the keys. */
  lemma BeforeIsKeyOrder(a: Stamp, b: Stamp)
    requires SmallFields(a) && SmallFields(b)
    ensures Before(a, b) <==> Key(a) < Key(b)
  {
  }

  /** Before is a strict total order. */
  lemma BeforeIsStrictTotalOrder(a: Stamp, b: Stamp, c: Stamp)
    ensures !Before(a, a)
    ensures Before(a, b) && Before(b, c) ==> Before(a, c)
    ensures a == b || Before(a, b) || Before(b, a)
  {
  }

  // ---------------------------------------------------------------------------
  // Two-digit decimal text
  // ---------------------------------------------------------------------------

  predicate IsDigit(c: char) {
    '0' <= c <= '9'
  }

  predicate AllDigits(s: string) {
    forall k :: 0 <= k < |s| ==> IsDigit(s[k])
  }

  function DigitValue(c: char): int {
    c as int - '0' as int
  }

  /** The value of two decimal digits. */
  function TwoDigitValue(s: string): int
    requires |s| == 2
  {
    10 * DigitValue(s[0]) + DigitValue(s[1])
  }

  function DigitChar(n: int): char
    requires 0 <= n <= 9
  {
    ('0' as int + n) as char
  }

  /** `n` printed with two digits, zero-padded (the "dd", "MM", "yy", "HH", "mm" fields). */
  function TwoDigits(n: int): (s: string)
    requires 0 <= n < 100
    ensures |s| == 2 && AllDigits(s)
    ensures TwoDigitValue(s) == n
  {
    [DigitChar(n / 10), DigitChar(n % 10)]
  }

  /** Two digits are determined by their value. */
  lemma TwoDigitsOfValue(s: string)
    requires |s| == 2 && AllDigits(s)
    ensures 0 <= TwoDigitValue(s) < 100
    ensures TwoDigits(TwoDigitValue(s)) == s
  {
    assert IsDigit(s[0]) && IsDigit(s[1]);
  }

  /** A day as "dd MM yy" (DateTimeFormatter.ofPattern("dd MM yy")). */
  function FormatDay(d: Day): (s: string)
    requires ValidDay(d)
    ensures |s| == 8 && s[2] == ' ' && s[5] == ' '
    ensures AllDigits(s[0..2]) && AllDigits(s[3..5]) && AllDigits(s[6..8])
  {
    TwoDigits(d.day) + " " + TwoDigits(d.month) + " " + TwoDigits(d.year % 100)
  }

  /** A timestamp as "dd MM yy, HH:mm" (the SimpleDateFormat pattern of the crawler). */
  function FormatStamp(s: Stamp): (r: string)
    requires SmallFields(s)
    ensures |r| == 15
  {
    TwoDigits(s.day) + " " + TwoDigits(s.month) + " " + TwoDigits(s.year % 100)
      + ", " + TwoDigits(s.hour) + ":" + TwoDigits(s.minute)
  }

  // ---------------------------------------------------------------------------
  // Parsing "dd MM yy, HH:mm"
  // ---------------------------------------------------------------------------

  /**
   * The full year a two-digit year denotes: the one year of the 100-year
   * window starting at `pivot` that ends in those two digits.
   */
  function FullYear(yy: int, pivot: int): (y: int)
    ensures pivot <= y < pivot + 100
    ensures (y - yy) % 100 == 0
  {
    pivot + (yy - pivot) % 100
  }

  /** A year inside the window is recovered from its last two digits. */
  lemma FullYearOfLastTwoDigits(y: int, pivot: int)
    requires pivot <= y < pivot + 100
    ensures FullYear(y % 100, pivot) == y
  {
    var f := FullYear(y % 100, pivot);
    assert (f - y) % 100 == 0;
  }

  /** The window year ends in the two digits it was read from. */
  lemma FullYearDigits(yy: int, pivot: int)
    requires 0 <= yy < 100
    ensures FullYear(yy, pivot) % 100 == yy % 100 == yy
  {
    var q := (yy - pivot) / 100;
    assert FullYear(yy, pivot) == yy - 100 * q;
  }

  /** The text has the shape "dd MM yy, HH:mm" in its first fifteen characters. */
  predicate HasStampShape(s: string) {
    && |s| >= 15
    && AllDigits(s[0..2]) && s[2] == ' '
    && AllDigits(s[3..5]) && s[5] == ' '
    && AllDigits(s[6..8]) && s[8] == ',' && s[9] == ' '
    && AllDigits(s[10..12]) && s[12] == ':'
    && AllDigits(s[13..15])
  }

  /**
   * SimpleDateFormat("dd MM yy, HH:mm").parse: reads the fields from the
   * start of the text, ignores what follows, and fails (ParseException) on
   * any other shape.
   */
  function ParseStamp(s: string, pivot: int): Option<Stamp> {
    if HasStampShape(s) then
      Some(Stamp(FullYear(TwoDigitValue(s[6..8]), pivot), TwoDigitValue(s[3..5]),
                 TwoDigitValue(s[0..2]), TwoDigitValue(s[10..12]), TwoDigitValue(s[13..15])))
    else None
  }

  /** Formatting then parsing gives the timestamp back, when its year is in the window. */
  lemma ParseFormatStamp(st: Stamp, pivot: int, tail: string)
    requires SmallFields(st) && pivot <= st.year < pivot + 100
    ensures ParseStamp(FormatStamp(st) + tail, pivot) == Some(st)
  {
    var s := FormatStamp(st) + tail;
    assert s[0..2] == TwoDigits(st.day);
    assert s[3..5] == TwoDigits(st.month);
    assert s[6..8] == TwoDigits(st.year % 100);
    assert s[10..12] == TwoDigits(st.hour);
    assert s[13..15] == TwoDigits(st.minute);
    FullYearOfLastTwoDigits(st.year, pivot);
  }

  /** The formatted text of a timestamp depends on its year only through the last two digits. */
  lemma FormatStampYearDigits(a: Stamp, b: Stamp)
    requires SmallFields(a) && SmallFields(b)
    requires a.year % 100 == b.year % 100
    requires a.month == b.month && a.day == b.day && a.hour == b.hour && a.minute == b.minute
    ensures FormatStamp(a) == FormatStamp(b)
  {
  }

  /** Parsing then formatting gives back the parsed fifteen characters. */
  lemma FormatParsedStamp(s: string, pivot: int)
    requires ParseStamp(s, pivot).Some?
    ensures SmallFields(ParseStamp(s, pivot).value)
    ensures FormatStamp(ParseStamp(s, pivot).value) == s[..15]
  {
    var st := ParseStamp(s, pivot).value;
    TwoDigitsOfValue(s[0..2]);
    TwoDigitsOfValue(s[3..5]);
    TwoDigitsOfValue(s[6..8]);
    TwoDigitsOfValue(s[10..12]);
    TwoDigitsOfValue(s[13..15]);
    assert st.year % 100 == TwoDigitValue(s[6..8]);
    assert FormatStamp(st) == s[0..2] + " " + s[3..5] + " " + s[6..8] + ", " + s[10..12] + ":" + s[13..15];
  }
}
