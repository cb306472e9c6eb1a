/**
 * The date normaliser of the crawler: turns the date text of a forum row
 * ("сегодня, 14:30", "вчера, 09:05", "12 мар 21, 10:00") into the fixed shape
 * "dd MM yy, HH:mm" that the timestamp parser accepts.
 */
module DateNormalizer {
  import opened Wrappers
  import opened Dates
  import opened JavaStrings

  /** The site's word for "today"; the first token of such a date is this word and a comma. */
  const TODAY: string := "сегодня"
  /** The site's word for "yesterday". */
  const YESTERDAY: string := "вчера"

  /** The twelve three-letter month abbreviations of the site, January first. */
  const MONTH_NAMES: seq<string> :=
    ["янв", "фев", "мар", "апр", "май", "июн", "июл", "авг", "сен", "окт", "ноя", "дек"]

  /** Month abbreviation to its two-digit number (the static MOUNTS table). */
  const MOUNTS: map<string, string> := map[
    "янв" := "01", "фев" := "02", "мар" := "03", "апр" := "04",
    "май" := "05", "июн" := "06", "июл" := "07", "авг" := "08",
    "сен" := "09", "окт" := "10", "ноя" := "11", "дек" := "12"]

  /** The runtime exceptions normalizeDate can throw. */
  datatype Failure =
    | IndexOutOfBounds  // fewer tokens than the branch reads
    | NullPointer       // the month token is not in MOUNTS: replace(…, null)

  // ---------------------------------------------------------------------------
  // The month table
  // ---------------------------------------------------------------------------

  /** The site's abbreviation of month `m`. */
  function MonthName(m: int): string
    requires 1 <= m <= 12
  {
    MONTH_NAMES[m - 1]
  }

  /** Month `m` maps to its own two-digit number, and its name is three letters, none of them ASCII. */
  lemma MonthTableEntry(m: int)
    requires 1 <= m <= 12
    ensures MonthName(m) in MOUNTS && MOUNTS[MonthName(m)] == TwoDigits(m)
    ensures |MonthName(m)| == 3
    ensures forall k | 0 <= k < |MonthName(m)| :: MonthName(m)[k] as int >= 0x400
  {
    if m == 1 {} else if m == 2 {} else if m == 3 {} else if m == 4 {}
    else if m == 5 {} else if m == 6 {} else if m == 7 {} else if m == 8 {}
    else if m == 9 {} else if m == 10 {} else if m == 11 {} else {}
  }

  /** The table holds exactly the twelve month names and nothing else. */
  lemma MonthTableKeys(token: string)
    ensures token in MOUNTS <==> exists k :: 0 <= k < 12 && MONTH_NAMES[k] == token
  {
    if token in MOUNTS {
      var k := if token == "янв" then 0 else if token == "фев" then 1 else if token == "мар" then 2
        else if token == "апр" then 3 else if token == "май" then 4 else if token == "июн" then 5
        else if token == "июл" then 6 else if token == "авг" then 7 else if token == "сен" then 8
        else if token == "окт" then 9 else if token == "ноя" then 10 else 11;
      assert MONTH_NAMES[k] == token;
    }
  }

  /** Every key of the table is a three-letter word. */
  lemma MonthKeysAreWords()
    ensures forall token :: token in MOUNTS ==> |token| == 3
  {
  }

  // ---------------------------------------------------------------------------
  // normalizeDate
  // ---------------------------------------------------------------------------

  /**
   * normalizeDate with the clock's current day as a parameter: the relative
   * words are replaced by the day in "dd MM yy", otherwise the second token is
   * replaced by its month number.
   */
  function Normalize(raw: string, today: Day): Result<string, Failure>
    requires ValidDay(today)
  {
    var toks := JavaSplit(raw);
    if |toks| == 0 then Err(IndexOutOfBounds)
    else if toks[0] == TODAY + "," then Ok(Replace(raw, TODAY, FormatDay(today)))
    else if toks[0] == YESTERDAY + "," then Ok(Replace(raw, YESTERDAY, FormatDay(PrevDay(today))))
    else if |toks| < 2 then Err(IndexOutOfBounds)
    else if toks[1] !in MOUNTS then Err(NullPointer)
    else
      MonthKeysAreWords();
      Ok(Replace(raw, toks[1], MOUNTS[toks[1]]))
  }

  /** The first token of `raw` is a prefix of it. */
  lemma FirstTokenIsPrefix(raw: string)
    requires |JavaSplit(raw)| > 0
    ensures |JavaSplit(raw)[0]| <= |raw| && raw[..|JavaSplit(raw)[0]|] == JavaSplit(raw)[0]
  {
  }

  /**
   * A date whose first token is "сегодня,": the word becomes today's
   * "dd MM yy" and the rest of the text is replaced in independently; when
   * the word does not occur again the rest is unchanged.
   */
  lemma NormalizeToday(raw: string, today: Day)
    requires ValidDay(today)
    requires |JavaSplit(raw)| > 0 && JavaSplit(raw)[0] == TODAY + ","
    ensures |raw| > |TODAY| && raw[..|TODAY|] == TODAY
    ensures Normalize(raw, today) == Ok(FormatDay(today) + Replace(raw[|TODAY|..], TODAY, FormatDay(today)))
    ensures !Occurs(TODAY, raw[|TODAY|..]) ==> Normalize(raw, today) == Ok(FormatDay(today) + raw[|TODAY|..])
  {
    FirstTokenIsPrefix(raw);
    assert raw[..|TODAY|] == (TODAY + ",")[..|TODAY|];
    if !Occurs(TODAY, raw[|TODAY|..]) {
      ReplaceAbsent(raw[|TODAY|..], TODAY, FormatDay(today));
    }
  }

  /**
   * A date whose first token is "вчера,": the word becomes the "dd MM yy" of
   * the day exactly one before today.
   */
  lemma NormalizeYesterday(raw: string, today: Day)
    requires ValidDay(today)
    requires |JavaSplit(raw)| > 0 && JavaSplit(raw)[0] == YESTERDAY + ","
    ensures |raw| > |YESTERDAY| && raw[..|YESTERDAY|] == YESTERDAY
    ensures NextDay(PrevDay(today)) == today
    ensures Normalize(raw, today)
         == Ok(FormatDay(PrevDay(today)) + Replace(raw[|YESTERDAY|..], YESTERDAY, FormatDay(PrevDay(today))))
    ensures !Occurs(YESTERDAY, raw[|YESTERDAY|..])
         ==> Normalize(raw, today) == Ok(FormatDay(PrevDay(today)) + raw[|YESTERDAY|..])
  {
    FirstTokenIsPrefix(raw);
    assert raw[..|YESTERDAY|] == (YESTERDAY + ",")[..|YESTERDAY|];
    PrevDayIsOneDayBefore(today);
    if !Occurs(YESTERDAY, raw[|YESTERDAY|..]) {
      ReplaceAbsent(raw[|YESTERDAY|..], YESTERDAY, FormatDay(PrevDay(today)));
    }
  }

  /** A single token that is neither relative word has no second token to read. */
  lemma SingleTokenFails(raw: string, today: Day)
    requires ValidDay(today)
    requires ' ' !in raw && raw != TODAY + "," && raw != YESTERDAY + ","
    ensures Normalize(raw, today) == Err(IndexOutOfBounds)
  {
  }

  /** A second token outside the month table is a failure, never a result. */
  lemma UnknownMonthFails(first: string, month: string, rest: string, today: Day)
    requires ValidDay(today)
    requires ' ' !in first && first != TODAY + "," && first != YESTERDAY + ","
    requires ' ' !in month && month !in MOUNTS
    ensures Normalize(first + " " + month + " " + rest, today).Err?
  {
    var raw := first + " " + month + " " + rest;
    assert raw == first + " " + (month + " " + rest);
    PiecesAtSpace(first, month + " " + rest);
    PiecesAtSpace(month, rest);
    assert ' ' in raw by { assert raw[|first|] == ' '; }
    var toks := JavaSplit(raw);
    assert |toks| > 0 ==> toks[0] == first;
    assert |toks| > 1 ==> toks[1] == month;
    NoMonthFails(raw, today);
  }

  /** Helper: neither a relative word first nor a month second means failure. */
  lemma NoMonthFails(raw: string, today: Day)
    requires ValidDay(today)
    requires |JavaSplit(raw)| > 0 ==> JavaSplit(raw)[0] != TODAY + "," && JavaSplit(raw)[0] != YESTERDAY + ","
    requires |JavaSplit(raw)| > 1 ==> JavaSplit(raw)[1] !in MOUNTS
    ensures Normalize(raw, today).Err?
  {
  }

  // ---------------------------------------------------------------------------
  // The dates the site renders, and what they mean
  // ---------------------------------------------------------------------------

  /** A row date as the site shows it. */
  datatype SiteDate =
    | TodayAt(hour: int, minute: int)
    | YesterdayAt(hour: int, minute: int)
    | OnDate(day: int, month: int, yy: int, hour: int, minute: int)

  predicate WellFormed(sd: SiteDate) {
    && 0 <= sd.hour < 24 && 0 <= sd.minute < 60
    && (sd.OnDate? ==> 1 <= sd.month <= 12 && 1 <= sd.day <= 31 && 0 <= sd.yy < 100)
  }

  /** The text of the date cell: "сегодня, HH:mm", "вчера, HH:mm" or "dd <month> yy, HH:mm". */
  function Render(sd: SiteDate): string
    requires WellFormed(sd)
  {
    var time := ", " + TwoDigits(sd.hour) + ":" + TwoDigits(sd.minute);
    match sd
    case TodayAt(_, _) => TODAY + time
    case YesterdayAt(_, _) => YESTERDAY + time
    case OnDate(d, m, yy, _, _) => TwoDigits(d) + " " + MonthName(m) + " " + TwoDigits(yy) + time
  }

  /** The timestamp a site date denotes on day `today`, two-digit years read in the window at `pivot`. */
  function Meaning(sd: SiteDate, today: Day, pivot: int): Stamp
    requires ValidDay(today)
  {
    match sd
    case TodayAt(h, mi) => Stamp(today.year, today.month, today.day, h, mi)
    case YesterdayAt(h, mi) =>
      var y := PrevDay(today);
      Stamp(y.year, y.month, y.day, h, mi)
    case OnDate(d, m, yy, h, mi) => Stamp(FullYear(yy, pivot), m, d, h, mi)
  }

  /** Helper: a nonempty first piece without spaces is the first token. */
  lemma FirstTokenOf(first: string, rest: string)
    requires first != [] && ' ' !in first
    ensures |JavaSplit(first + " " + rest)| > 0 && JavaSplit(first + " " + rest)[0] == first
  {
    var raw := first + " " + rest;
    PiecesAtSpace(first, rest);
    assert ' ' in raw by { assert raw[|first|] == ' '; }
  }

  /** Helper: a day in "dd MM yy" followed by ", HH:mm" parses to that day at that time. */
  lemma ParseDayAndTime(day: Day, hour: int, minute: int, pivot: int)
    requires ValidDay(day) && 0 <= hour < 24 && 0 <= minute < 60
    requires pivot <= day.year < pivot + 100
    ensures ParseStamp(FormatDay(day) + (", " + TwoDigits(hour) + ":" + TwoDigits(minute)), pivot)
         == Some(Stamp(day.year, day.month, day.day, hour, minute))
  {
    var st := Stamp(day.year, day.month, day.day, hour, minute);
    assert FormatDay(day) + (", " + TwoDigits(hour) + ":" + TwoDigits(minute)) == FormatStamp(st) + [];
    ParseFormatStamp(st, pivot, []);
  }

  /** No character of a time text ", HH:mm" belongs to the site's Cyrillic words. */
  predicate IsAscii(s: string) {
    forall c :: c in s ==> c as int < 128
  }

  lemma TimeIsAscii(hour: int, minute: int)
    requires 0 <= hour < 100 && 0 <= minute < 100
    ensures IsAscii(", " + TwoDigits(hour) + ":" + TwoDigits(minute))
  {
  }

  /** Helper: the shape of a relative date text. */
  lemma RelativeText(word: string, time: string, hour: int, minute: int)
    requires word == TODAY || word == YESTERDAY
    requires 0 <= hour < 24 && 0 <= minute < 60
    requires time == ", " + TwoDigits(hour) + ":" + TwoDigits(minute)
    ensures |JavaSplit(word + time)| > 0 && JavaSplit(word + time)[0] == word + ","
    ensures (word + time)[|word|..] == time
    ensures !Occurs(word, time)
  {
    var hm := TwoDigits(hour) + ":" + TwoDigits(minute);
    assert word + time == (word + ",") + " " + hm;
    FirstTokenOf(word + ",", hm);
    TimeIsAscii(hour, minute);
    assert word[0] as int >= 0x400;
    FirstCharAbsent(word, time);
  }

  /** A relative word followed by ", HH:mm" normalises to the day's "dd MM yy" and the same time. */
  lemma RelativeNormalizes(word: string, time: string, hour: int, minute: int, today: Day)
    requires ValidDay(today)
    requires word == TODAY || word == YESTERDAY
    requires 0 <= hour < 24 && 0 <= minute < 60
    requires time == ", " + TwoDigits(hour) + ":" + TwoDigits(minute)
    ensures Normalize(word + time, today)
         == Ok(FormatDay(if word == TODAY then today else PrevDay(today)) + time)
  {
    RelativeText(word, time, hour, minute);
    if word == TODAY {
      NormalizeToday(word + time, today);
    } else {
      NormalizeYesterday(word + time, today);
    }
  }

  /** Helper: the tokens of an absolute date text. */
  lemma AbsoluteTokens(dd: string, mon: string, rest: string)
    requires |dd| == 2 && ' ' !in dd && mon != [] && ' ' !in mon
    ensures |JavaSplit(dd + " " + (mon + " " + rest))| >= 2
    ensures JavaSplit(dd + " " + (mon + " " + rest))[0] == dd
    ensures JavaSplit(dd + " " + (mon + " " + rest))[1] == mon
  {
    var raw := dd + " " + (mon + " " + rest);
    PiecesAtSpace(dd, mon + " " + rest);
    PiecesAtSpace(mon, rest);
    assert ' ' in raw by { assert raw[2] == ' '; }
    assert Pieces(raw)[1] == mon;
  }

  /** Without a relative word first, a month second is replaced by its number throughout. */
  lemma NormalizeMonth(raw: string, today: Day)
    requires ValidDay(today)
    requires |JavaSplit(raw)| >= 2 && JavaSplit(raw)[0] != TODAY + "," && JavaSplit(raw)[0] != YESTERDAY + ","
    requires JavaSplit(raw)[1] in MOUNTS
    ensures |JavaSplit(raw)[1]| == 3
    ensures Normalize(raw, today) == Ok(Replace(raw, JavaSplit(raw)[1], MOUNTS[JavaSplit(raw)[1]]))
  {
    MonthKeysAreWords();
  }

  /** Helper: a month name that occurs once, between two spaces, is the only text replaced. */
  lemma ReplaceMonth(dd: string, mon: string, rest: string, mm: string)
    requires |mon| > 0 && ' ' !in mon && mon[0] !in dd && mon[0] !in " " + rest
    ensures Replace(dd + " " + (mon + " " + rest), mon, mm) == dd + " " + (mm + " " + rest)
  {
    assert Replace(dd, mon, mm) == dd by {
      FirstCharAbsent(mon, dd);
      ReplaceAbsent(dd, mon, mm);
    }
    assert Replace(mon + " " + rest, mon, mm) == mm + " " + rest by {
      AppendAssoc(mon, " ", rest);
      ReplaceAtFront(mon, " " + rest, mm);
      FirstCharAbsent(mon, " " + rest);
      ReplaceAbsent(" " + rest, mon, mm);
      AppendAssoc(mm, " ", rest);
    }
    ReplaceAroundSpace(dd, mon + " " + rest, mon, mm);
  }

  /** Helper: the normalised text of an absolute date, field by field. */
  lemma AbsoluteText(sd: SiteDate)
    requires WellFormed(sd) && sd.OnDate?
    ensures TwoDigits(sd.day) + " " + (TwoDigits(sd.month) + " " + (TwoDigits(sd.yy)
              + (", " + TwoDigits(sd.hour) + ":" + TwoDigits(sd.minute))))
         == FormatStamp(Stamp(sd.yy, sd.month, sd.day, sd.hour, sd.minute))
  {
    var a, b, c := TwoDigits(sd.day), TwoDigits(sd.month), TwoDigits(sd.yy);
    var d, e := TwoDigits(sd.hour), TwoDigits(sd.minute);
    var t := ", " + d + ":" + e;
    assert sd.yy % 100 == sd.yy;
    var y := a + " " + b + " " + c;
    assert FormatStamp(Stamp(sd.yy, sd.month, sd.day, sd.hour, sd.minute)) == y + ", " + d + ":" + e;
    AppendAssoc(y, ", ", d);
    AppendAssoc(y, ", " + d, ":");
    AppendAssoc(y, ", " + d + ":", e);
    AppendAssoc(a + " " + b + " ", c, t);
    AppendAssoc(a + " " + b, " ", c + t);
    AppendAssoc(a + " ", b, " " + (c + t));
    AppendAssoc(b, " ", c + t);
  }

  /** Helper: an absolute date normalises by replacing its month name. */
  lemma AbsoluteReplaces(sd: SiteDate, today: Day)
    requires ValidDay(today) && WellFormed(sd) && sd.OnDate?
    ensures Render(sd) == TwoDigits(sd.day) + " " + (MonthName(sd.month) + " " + (TwoDigits(sd.yy)
              + (", " + TwoDigits(sd.hour) + ":" + TwoDigits(sd.minute))))
    ensures Normalize(Render(sd), today)
         == Ok(Replace(Render(sd), MonthName(sd.month), TwoDigits(sd.month)))
  {
    var dd, mon := TwoDigits(sd.day), MonthName(sd.month);
    var rest := TwoDigits(sd.yy) + (", " + TwoDigits(sd.hour) + ":" + TwoDigits(sd.minute));
    MonthTableEntry(sd.month);
    assert Render(sd) == dd + " " + (mon + " " + rest);
    AbsoluteTokens(dd, mon, rest);
    NormalizeMonth(Render(sd), today);
  }

  /** An absolute date "dd <month> yy, HH:mm" normalises to "dd MM yy, HH:mm". */
  lemma AbsoluteNormalizes(sd: SiteDate, today: Day)
    requires ValidDay(today) && WellFormed(sd) && sd.OnDate?
    ensures Normalize(Render(sd), today) == Ok(FormatStamp(Stamp(sd.yy, sd.month, sd.day, sd.hour, sd.minute)))
  {
    var dd, mon := TwoDigits(sd.day), MonthName(sd.month);
    var time := ", " + TwoDigits(sd.hour) + ":" + TwoDigits(sd.minute);
    var rest := TwoDigits(sd.yy) + time;
    AbsoluteReplaces(sd, today);
    MonthTableEntry(sd.month);
    assert ' ' !in mon;
    assert mon[0] !in dd by {
      assert dd == [dd[0], dd[1]];
    }
    assert mon[0] !in " " + rest by {
      TimeIsAscii(sd.hour, sd.minute);
      var yy := TwoDigits(sd.yy);
      assert " " + rest == [' ', yy[0], yy[1]] + time;
    }
    ReplaceMonth(dd, mon, rest, TwoDigits(sd.month));
    AbsoluteText(sd);
  }

  /** An absolute date means its own fields, with the year read in the window at `pivot`. */
  lemma AbsoluteRoundTrip(sd: SiteDate, today: Day, pivot: int)
    requires ValidDay(today) && WellFormed(sd) && sd.OnDate?
    ensures Normalize(Render(sd), today).Ok?
    ensures ParseStamp(Normalize(Render(sd), today).value, pivot) == Some(Meaning(sd, today, pivot))
  {
    AbsoluteNormalizes(sd, today);
    var st := Meaning(sd, today, pivot);
    assert st == Stamp(FullYear(sd.yy, pivot), sd.month, sd.day, sd.hour, sd.minute);
    FullYearDigits(sd.yy, pivot);
    FormatStampYearDigits(Stamp(sd.yy, sd.month, sd.day, sd.hour, sd.minute), st);
    ParseFormatStamp(st, pivot, []);
    assert FormatStamp(st) + [] == FormatStamp(st);
  }

  /**
   * Every well-formed site date normalises, and parsing the normalised text
   * gives the timestamp the site date denotes.
   */
  lemma NormalizeRoundTrip(sd: SiteDate, today: Day, pivot: int)
    requires ValidDay(today) && WellFormed(sd)
    requires pivot <= Meaning(sd, today, pivot).year < pivot + 100
    ensures Normalize(Render(sd), today).Ok?
    ensures ParseStamp(Normalize(Render(sd), today).value, pivot) == Some(Meaning(sd, today, pivot))
  {
    var time := ", " + TwoDigits(sd.hour) + ":" + TwoDigits(sd.minute);
    match sd
    case TodayAt(h, mi) =>
      RelativeNormalizes(TODAY, time, h, mi, today);
      ParseDayAndTime(today, h, mi, pivot);
    case YesterdayAt(h, mi) =>
      RelativeNormalizes(YESTERDAY, time, h, mi, today);
      ParseDayAndTime(PrevDay(today), h, mi, pivot);
    case OnDate(_, _, _, _, _) =>
      AbsoluteRoundTrip(sd, today, pivot);
  }
}
