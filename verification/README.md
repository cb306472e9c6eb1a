# sqlRuParser crawl core in Dafny

This project models the incremental crawler of the sql.ru vacancy forum. Each run goes through these steps:
- It reads the date of the newest stored vacancy. On a first run it uses 1 January of the current year instead.
- It walks the forum's pages from page 1 while the site reports more pages, skipping the four header rows of each page.
- For every row it normalises the date cell ("сегодня, 14:30", "вчера, 09:05", "12 мар 21, 10:00") into "dd MM yy, HH:mm" and parses it.
- It counts rows not newer than the last parsing date as stale, and stops once five have been seen.
- For a newer row whose title passes the Java relevance filter, it fetches the vacancy text and hands the vacancy to the store.

The launcher loads the configuration, checks it holds the five required keys, and only then schedules the crawl.

Modules:

- `Wrappers`: `Option` and `Result`.
- `Dates`:
  - calendar days, with the day before and after;
  - minute-precision timestamps and their order (`Date.before`);
  - the two-digit formats "dd MM yy" and "dd MM yy, HH:mm";
  - `ParseStamp`, which reads "dd MM yy, HH:mm" with a two-digit-year window.
- `JavaStrings`: `String.split(" ")` and the literal `String.replace`, as Java defines them.
- `DateNormalizer`:
  - `normalizeDate` with its month table `MOUNTS` and its failure cases;
  - `SiteDate`, the dates the forum renders, with the proof that normalising and then parsing such a date gives the timestamp it denotes.
- `RelevanceFilter`: `isRelevanceJavaTemplate`, and what it accepts, characterised.
- `CrawlEngine`:
  - `Examine`, the per-row decision.
  - `ScanPages`, `ScanRows` and `ContinuePage`: the crawl as a functional specification, producing the sequence of row visits and the exception that ended it, if any.
  - `VacancyStore`, the table.
  - The `ParserJob` class. `Parse` is its imperative nested loop, proved to hand the store exactly the postings of the specification, in order, and to count them. `Execute` is `execute()`.
- `Launcher`: `checkConfig` and the guard chain of `main`.

Each behaviour below may be unexpected; it is modelled as the code does it:

- The stale-row counter `oldViewed` is never reset. It counts all stale rows of the run, not consecutive ones.
- A date that fails `SimpleDateFormat.parse` aborts the whole remaining crawl (the catch at the end of `parse`). It does not skip just that row.
- An unknown month, or a date cell with only one token, throws an unchecked exception out of `execute`.
- `getCountPages()` is evaluated again before every page, not once per run.
- `numberOfAddedVacancy` counts `addVacancy` calls, including inserts the table drops as duplicate names.

## Model

| member | source | states |
|---|---|---|
| Dates.DaysInMonth | src/main/java/ru/job4j/vacancy/ParserJob.java:159 | a month has 28 to 31 days, and 29 exactly for February of a leap year |
| Dates.NextDay | src/main/java/ru/job4j/vacancy/ParserJob.java:159 | the next day is a valid day strictly after the given one |
| Dates.PrevDay | src/main/java/ru/job4j/vacancy/ParserJob.java:159 | `minusDays(1)` gives a valid day strictly before the given one |
| Dates.PrevDayIsOneDayBefore | src/main/java/ru/job4j/vacancy/ParserJob.java:159 | the previous and next day are inverse: one step back then forward returns the day, and vice versa |
| Dates.NothingBetweenPrevDayAndDay | src/main/java/ru/job4j/vacancy/ParserJob.java:159 | no valid day lies strictly between yesterday and today |
| Dates.BeforeIsKeyOrder | src/main/java/ru/job4j/vacancy/ParserJob.java:171-173 | the field-by-field order of timestamps is the order of a single growing number, as `Date.before` compares milliseconds |
| Dates.BeforeIsStrictTotalOrder | src/main/java/ru/job4j/vacancy/ParserJob.java:171-173 | `before` is irreflexive, transitive and total |
| Dates.TwoDigits | src/main/java/ru/job4j/vacancy/ParserJob.java:33-34 | a two-digit field is two decimal digits whose value is the number printed |
| Dates.TwoDigitsOfValue | src/main/java/ru/job4j/vacancy/ParserJob.java:33-34 | reading two digits and printing the value gives the same two digits back |
| Dates.FormatDay | src/main/java/ru/job4j/vacancy/ParserJob.java:34 | "dd MM yy" is eight characters: three digit pairs separated by spaces |
| Dates.FormatStamp | src/main/java/ru/job4j/vacancy/ParserJob.java:33 | "dd MM yy, HH:mm" is fifteen characters |
| Dates.FullYear | src/main/java/ru/job4j/vacancy/ParserJob.java:121 | a two-digit year is read as the year of the 100-year window that ends in those digits |
| Dates.FullYearOfLastTwoDigits | src/main/java/ru/job4j/vacancy/ParserJob.java:121 | a year inside the window is recovered from its last two digits |
| Dates.FullYearDigits | src/main/java/ru/job4j/vacancy/ParserJob.java:121 | the year read ends in the two digits read |
| Dates.ParseStamp | src/main/java/ru/job4j/vacancy/ParserJob.java:121 | `SimpleDateFormat("dd MM yy, HH:mm").parse`: the five fields read from the first fifteen characters, the year through the window; any other shape is a ParseException (None) |
| Dates.ParseFormatStamp | src/main/java/ru/job4j/vacancy/ParserJob.java:121 | parsing a formatted timestamp, whatever follows it, gives the timestamp back when its year is in the window |
| Dates.FormatParsedStamp | src/main/java/ru/job4j/vacancy/ParserJob.java:121 | a parsed text formats back to its first fifteen characters |
| Dates.FormatStampYearDigits | src/main/java/ru/job4j/vacancy/ParserJob.java:33 | the formatted text depends on the year only through its last two digits |
| JavaStrings.Pieces | src/main/java/ru/job4j/vacancy/ParserJob.java:154 | the first piece is the longest space-free prefix, and a space follows it unless it is the whole text |
| JavaStrings.DropTrailingEmpty | src/main/java/ru/job4j/vacancy/ParserJob.java:154 | only empty pieces at the end are removed, and the last piece kept is nonempty |
| JavaStrings.JavaSplit | src/main/java/ru/job4j/vacancy/ParserJob.java:154 | `split(" ")` gives the pieces between spaces, in order, with every trailing empty piece removed (the last piece kept is nonempty); a text without a space is its own single piece |
| JavaStrings.PiecesAtSpace | src/main/java/ru/job4j/vacancy/ParserJob.java:154 | a space-free word followed by a space is the first piece |
| JavaStrings.ReplaceAbsent | src/main/java/ru/job4j/vacancy/ParserJob.java:157 | `replace` leaves a text without the target unchanged |
| JavaStrings.ReplaceAtFront | src/main/java/ru/job4j/vacancy/ParserJob.java:157 | a target at the front is replaced and the rest is replaced independently |
| JavaStrings.ReplaceAroundSpace | src/main/java/ru/job4j/vacancy/ParserJob.java:161 | a space-free target never spans a space, so the two sides of a space are replaced independently |
| JavaStrings.Replace | src/main/java/ru/job4j/vacancy/ParserJob.java:157-161 | `String.replace`: every left-to-right, non-overlapping occurrence of the target becomes the replacement |
| DateNormalizer.MonthTableEntry | src/main/java/ru/job4j/vacancy/ParserJob.java:39-51 | month m's abbreviation is in the table with the two-digit value of m, and is three non-ASCII letters |
| DateNormalizer.MonthTableKeys | src/main/java/ru/job4j/vacancy/ParserJob.java:39-51 | the table's keys are exactly the twelve month abbreviations |
| DateNormalizer.MonthKeysAreWords | src/main/java/ru/job4j/vacancy/ParserJob.java:39-51 | every key of the table has three letters |
| DateNormalizer.Normalize | src/main/java/ru/job4j/vacancy/ParserJob.java:153-163 | `normalizeDate`: "сегодня," or "вчера," first replaces that word by the day's "dd MM yy"; otherwise the second token is replaced by its `MOUNTS` number; no token, a single token (index out of bounds) or a month outside the table (null replacement) is a failure |
| DateNormalizer.FirstTokenIsPrefix | src/main/java/ru/job4j/vacancy/ParserJob.java:154 | the first token of `split(" ")` is a prefix of the text |
| DateNormalizer.NormalizeToday | src/main/java/ru/job4j/vacancy/ParserJob.java:155-157 | with first token "сегодня,", every "сегодня" becomes today's "dd MM yy"; the rest is unchanged when the word does not recur |
| DateNormalizer.NormalizeYesterday | src/main/java/ru/job4j/vacancy/ParserJob.java:158-159 | with first token "вчера,", the word becomes the "dd MM yy" of the day exactly one before today |
| DateNormalizer.SingleTokenFails | src/main/java/ru/job4j/vacancy/ParserJob.java:160-161 | a one-token cell that is neither relative word throws, because the second token does not exist |
| DateNormalizer.UnknownMonthFails | src/main/java/ru/job4j/vacancy/ParserJob.java:160-161 | a second token outside the month table is a failure, never a result |
| DateNormalizer.NoMonthFails | src/main/java/ru/job4j/vacancy/ParserJob.java:155-161 | without a relative word first and a month second, normalisation always fails |
| DateNormalizer.RelativeNormalizes | src/main/java/ru/job4j/vacancy/ParserJob.java:155-159 | "сегодня, HH:mm" and "вчера, HH:mm" become that day's "dd MM yy, HH:mm" |
| DateNormalizer.NormalizeMonth | src/main/java/ru/job4j/vacancy/ParserJob.java:160-161 | when the first token is neither relative word and the second is a month, the result replaces that month name by its number throughout, whatever the first token is |
| DateNormalizer.AbsoluteNormalizes | src/main/java/ru/job4j/vacancy/ParserJob.java:160-161 | "dd <month> yy, HH:mm" becomes "dd MM yy, HH:mm" with the month's own number |
| DateNormalizer.AbsoluteRoundTrip | src/main/java/ru/job4j/vacancy/ParserJob.java:121 | an absolute site date normalises, and parses to its own fields with the year in the window |
| DateNormalizer.NormalizeRoundTrip | src/main/java/ru/job4j/vacancy/ParserJob.java:121 | every well-formed site date normalises, and parsing the result gives the timestamp the date denotes |
| RelevanceFilter.DecoyLength | src/main/java/ru/job4j/vacancy/ParserJob.java:31 | the alternation matches at a position exactly when one of the three phrases starts there, and the length consumed is that of the phrase matched |
| RelevanceFilter.ToLower | src/main/java/ru/job4j/vacancy/ParserJob.java:198 | `toLowerCase` on ASCII: capital letters become small ones, every other character stays, length unchanged |
| RelevanceFilter.StripDecoys | src/main/java/ru/job4j/vacancy/ParserJob.java:199 | `replaceAll("(javascript|java script|java-script)", " ")`: left to right, each match becomes one space and the scan resumes after it |
| RelevanceFilter.IsRelevant | src/main/java/ru/job4j/vacancy/ParserJob.java:196-201 | `isRelevanceJavaTemplate`: "java" occurs in the lower-cased title after the replacement |
| RelevanceFilter.RelevantIffGenuineJava | src/main/java/ru/job4j/vacancy/ParserJob.java:196-201 | a title is accepted exactly when its lower-cased text has a "java" that does not start "javascript", "java script" or "java-script" |
| RelevanceFilter.StripFindsOnlyGenuine | src/main/java/ru/job4j/vacancy/ParserJob.java:196-201 | a "java" left after the replacement was a genuine "java" of the lower-cased title |
| RelevanceFilter.StripKeepsGenuine | src/main/java/ru/job4j/vacancy/ParserJob.java:196-201 | a genuine "java" of the lower-cased title survives the replacement |
| RelevanceFilter.RelevantMentionsJava | src/main/java/ru/job4j/vacancy/ParserJob.java:196-201 | an accepted title contains "java" once lower-cased |
| RelevanceFilter.JavaWithoutDecoyIsRelevant | src/main/java/ru/job4j/vacancy/ParserJob.java:196-201 | a title with "java" and none of the three phrases is accepted |
| RelevanceFilter.OnlyDecoysIsNotRelevant | src/main/java/ru/job4j/vacancy/ParserJob.java:196-201 | a title whose every "java" starts one of the three phrases is rejected |
| CrawlEngine.ExamineMeaning | src/main/java/ru/job4j/vacancy/ParserJob.java:118-142 | a `normalizeDate` exception escapes and a ParseException is caught; stale iff not after the last parsing date; skipped iff newer and irrelevant; added iff newer, relevant and its detail page loads, and then with its own title, link and date and the fetched detail text |
| CrawlEngine.SameDateIsStale | src/main/java/ru/job4j/vacancy/ParserJob.java:171-173 | a row dated exactly the last parsing date is stale |
| CrawlEngine.IsAfterLastDate | src/main/java/ru/job4j/vacancy/ParserJob.java:171-173 | `isAfterLastDate`: the last parsing date is strictly before the row's date |
| CrawlEngine.RowDate | src/main/java/ru/job4j/vacancy/ParserJob.java:119-121 | the row's date: `normalizeDate` then parse, none when either throws |
| CrawlEngine.Examine | src/main/java/ru/job4j/vacancy/ParserJob.java:118-142 | the inner loop body for one row: failure (caught or escaping), stale, irrelevant, or the added posting with the fetched detail text |
| CrawlEngine.ScanRows | src/main/java/ru/job4j/vacancy/ParserJob.java:117-143 | the stale rows seen on a page never take the count past the limit of five |
| CrawlEngine.ScanPages | src/main/java/ru/job4j/vacancy/ParserJob.java:105-144 | the stale rows seen from a page on never take the count past the limit |
| CrawlEngine.ContinuePage | src/main/java/ru/job4j/vacancy/ParserJob.java:117-143 | the rest of a page and the following pages never take the count past the limit |
| CrawlEngine.StaleCountAppend | src/main/java/ru/job4j/vacancy/ParserJob.java:141 | the stale counts of consecutive stretches of visits add up |
| CrawlEngine.NewPostingsAppend | src/main/java/ru/job4j/vacancy/ParserJob.java:134 | the postings of consecutive stretches of visits concatenate |
| CrawlEngine.ContinuePageStep | src/main/java/ru/job4j/vacancy/ParserJob.java:117-142 | one inner iteration: a failing row ends the crawl with its exception; otherwise the crawl continues at the next row, one more stale row counted exactly for a stale verdict |
| CrawlEngine.PageStart | src/main/java/ru/job4j/vacancy/ParserJob.java:109-115 | the outer loop test and the page fetch decide how the crawl from a page begins: nothing, the rows after the skipped four, or an exception |
| CrawlEngine.PageEnd | src/main/java/ru/job4j/vacancy/ParserJob.java:117 | when the inner loop test fails, the crawl goes on with the next page |
| CrawlEngine.ScanRowsFacts | src/main/java/ru/job4j/vacancy/ParserJob.java:117-143 | a page's visits are admitted rows from index four on, in order, only the last failing, each below the stale limit |
| CrawlEngine.ScanPagesFacts | src/main/java/ru/job4j/vacancy/ParserJob.java:105-144 | the same facts for the visits from a page on |
| CrawlEngine.CrawlFacts | src/main/java/ru/job4j/vacancy/ParserJob.java:102-148 | the crawl visits only rows with index four or more on pages 1..count-1 that the loop test admitted, in page and row order; each row is judged as parse judges it; at most five stale rows are seen, each row is examined while fewer than five have been seen, and only the last row can fail |
| CrawlEngine.CrawlAddsOnlyNewRelevant | src/main/java/ru/job4j/vacancy/ParserJob.java:123-134 | every posting handed to the store is newer than the last parsing date and has a relevant title |
| CrawlEngine.CrawlAddsEveryNewRelevant | src/main/java/ru/job4j/vacancy/ParserJob.java:123-137 | every visited row that is newer, relevant and whose detail page loads is added, and its posting is handed to the store |
| CrawlEngine.SaturatedCrawlStops | src/main/java/ru/job4j/vacancy/ParserJob.java:109 | once five stale rows are seen, no further page or row is examined |
| CrawlEngine.Crawl | src/main/java/ru/job4j/vacancy/ParserJob.java:102-148 | `parse()`: the outer loop from page 1 with no stale rows, each row judged by `Examine` |
| CrawlEngine.FirstRunCollectsCurrentYear | src/main/java/ru/job4j/vacancy/ParserJob.java:180-189 | with an empty store every date of the current year is new except New Year's midnight, and no earlier date is |
| CrawlEngine.ObtainLastParsingDate | src/main/java/ru/job4j/vacancy/ParserJob.java:180-189 | `obtainLastParsingDate`: the store's latest date, or 1 January of the current year at 00:00 when the store has none |
| CrawlEngine.LatestDate | src/main/java/ru/job4j/vacancy/DataBaseController.java:118-130 | the maximum date is none exactly for an empty table; otherwise it is some row's date and no row is later |
| CrawlEngine.Kept | src/main/java/ru/job4j/vacancy/DataBaseController.java:40-46 | the table keeps inserted rows only, with unique names, and every inserted name is present |
| CrawlEngine.FirstOfNameKept | src/main/java/ru/job4j/vacancy/DataBaseController.java:40-46 | the first insert of each name is the row the table keeps |
| CrawlEngine.DuplicateInsertKeepsOne | src/main/java/ru/job4j/vacancy/DataBaseController.java:40-46 | two inserts with the same name leave only the first |
| CrawlEngine.VacancyStore.constructor | src/main/java/ru/job4j/vacancy/DataBaseController.java:55-65 | the store starts from the given rows |
| CrawlEngine.VacancyStore.AddVacancy | src/main/java/ru/job4j/vacancy/DataBaseController.java:103-113 | each call appends exactly one insert |
| CrawlEngine.VacancyStore.LastData | src/main/java/ru/job4j/vacancy/DataBaseController.java:118-130 | `getLastData`: the latest date among the rows the table keeps, none for an empty table |
| CrawlEngine.StoredRowsAreStaleNextRun | src/main/java/ru/job4j/vacancy/ParserJob.java:180-189 | on the next run every stored vacancy's date is not after the last parsing date |
| CrawlEngine.ParserJob.constructor | src/main/java/ru/job4j/vacancy/ParserJob.java:54-56 | a new job has no store and has counted nothing |
| CrawlEngine.ParserJob.VisitRow | src/main/java/ru/job4j/vacancy/ParserJob.java:118-142 | one row gets the verdict of the specification; only an added vacancy reaches the store, and it raises the counter by one |
| CrawlEngine.ParserJob.Parse | src/main/java/ru/job4j/vacancy/ParserJob.java:102-148 | the nested loops give the store exactly the crawl's postings in order, raise the counter by their number, and end with the crawl's exception |
| CrawlEngine.ParserJob.Execute | src/main/java/ru/job4j/vacancy/ParserJob.java:60-79 | a failed connection leaves everything unchanged; otherwise the last parsing date comes from the store and the crawl runs against it |
| Launcher.CheckConfig | src/main/java/ru/job4j/vacancy/SqlRuParser.java:64-75 | a missing configuration is rejected; a configuration passes iff it holds all five keys |
| Launcher.HasAllKeys | src/main/java/ru/job4j/vacancy/SqlRuParser.java:39 | each of the five `CONFIG_KEYS` (driver, url, username, password, cron time) is a key of the configuration |
| Launcher.OnlyRequiredKeysMatter | src/main/java/ru/job4j/vacancy/SqlRuParser.java:69-74 | only the presence of the five keys matters: values and other keys never change the result |
| Launcher.ExtraPropertiesKeepValid | src/main/java/ru/job4j/vacancy/SqlRuParser.java:69-74 | adding properties to a valid configuration keeps it valid |
| Launcher.Launch | src/main/java/ru/job4j/vacancy/SqlRuParser.java:107-122 | each failed guard stops with its own outcome; the job is scheduled iff there is an argument, the file loads and every key is present, and then with that configuration |

## Left out

- Network and HTML are not modelled. That covers `Jsoup.connect`, `getElementsByClass`, `getElementsByTag` and the body of `getCountPages` (ParserJob.java:86-97, 113-132). The site is data instead:
  - the page count seen by each loop test;
  - what fetching each page gives: its rows, an `IOException`, or a document without the expected element;
  - a detail function giving the vacancy text, an `IOException`, or a malformed document.
- `getCountPages` failures are not modelled separately. An `IOException` there makes it return 0, which the model covers as a count of 0. A missing element or a non-numeric page number would throw; the model has no such case because the count is always a number.
- A row whose cells are not where `parse` expects them is not modelled; a model row always has its title, link and date. Such a row can throw an unchecked exception that leaves `execute`:
  - a `NullPointerException` for any row without cells (`last()` returns null, ParserJob.java:119);
  - for a newer row only: an `IndexOutOfBoundsException` at `get(1)` (ParserJob.java:124), or a `NullPointerException` when the second cell has no link (`first()` returns null, ParserJob.java:124-125). A stale row with a date cell but no title cell throws nothing.
- The site must be finite: the page count must drop to the page number by the last listed page. Otherwise the model cannot state that the crawl ends. The real loop would keep fetching.
- JDBC is not modelled: schema checks, table creation, SQL and connections (DataBaseController.java). The model has these instead:
  - The store is the sequence of inserts. The table's unique name column is the function `Kept`.
  - `getLastData` is the latest stored date, or none when the table is empty. A stored date of exactly 0 ms, which the code would read as "no data", is not modelled.
  - A connection failure in `execute` is a null store. SQL errors inside `addVacancy` and `getLastData` are logged and swallowed by the code, and are not modelled.
- Quartz scheduling (`runParseJob`, SqlRuParser.java:82-102) is not modelled. `Launch` returns `Scheduled` with the configuration at the point where the job would be handed over.
- Reading the properties file (`getConfig`, SqlRuParser.java:47-56) is not modelled. It is the `load` parameter of `Launch`, with None for a file that cannot be read.
- Logging is left out.
- The clock is a set of parameters:
  - `LocalDate.now()` is the `today` parameter. The model reads it once per run, while the code reads it again for every row.
  - `Calendar.getInstance()` gives the `currentYear` parameter.
  - `SimpleDateFormat`'s two-digit-year window is the `pivot` parameter.
  - Time zones are not modelled.
- `SimpleDateFormat` leniency is not modelled. `ParseStamp` accepts only the exact "dd MM yy, HH:mm" digits, so out-of-range fields that the lenient parser would roll over are kept as read. One- or three-digit fields, which it would also accept, are rejected.
- RelevanceFilter.ToLower: lower-cases ASCII letters only, because `String.toLowerCase` depends on the default locale and on Unicode tables. Lower-casing any letter other than 'A'-'Z' is not modelled, so a non-ASCII character that lower-cases into a letter of "java" or "script" is not covered.
- CrawlEngine.ParserJob.Parse: is stated against a ghost judgement that agrees with `Examine` on every row, rather than against `Crawl` directly. `Execute` supplies `Examine` itself, so its contract is in terms of `Crawl`.
