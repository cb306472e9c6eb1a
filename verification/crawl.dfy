/**
 * The incremental crawl of the vacancy forum (ParserJob): pages of the
 * forum table are read from page 1 while the site reports more pages and
 * fewer than five stale rows have been seen; every row newer than the last
 * parsing date whose title passes the relevance filter is fetched and
 * handed to the store.
 *
 * The remote site is data: for the k-th test of the outer loop it gives the
 * page count reported at that moment and what fetching page k yields, and a
 * detail function gives what fetching a vacancy link yields.
 */
module CrawlEngine {
  import opened Wrappers
  import opened Dates
  import opened JavaStrings
  import opened DateNormalizer
  import opened RelevanceFilter

  /** How many stale rows end the crawl (MAX_NUMBER_OLD_VACANCIES). */
  const MAX_NUMBER_OLD_VACANCIES: nat := 5

  /** Header row plus three notice rows at the top of every page (SKIP_LINES_ON_EACH_PAGE). */
  const SKIP_LINES_ON_EACH_PAGE: nat := 4

  // ---------------------------------------------------------------------------
  // The site as data
  // ---------------------------------------------------------------------------

  /** A table row of the forum: the title link text, its href and the date cell text. */
  datatype Row = Row(name: string, link: string, rawDate: string)

  /** What the store receives through addVacancy. */
  datatype Posting = Posting(name: string, text: string, link: string, date: Stamp)

  /**
   * The result of a remote read: the document, an IOException (caught at the
   * end of parse), or a document without the expected element (an unchecked
   * exception that leaves execute).
   */
  datatype Fetch<T> = Fetched(value: T) | IoFailure | Malformed

  /** What the k-th evaluation of the outer loop test sees: getCountPages() and page k. */
  datatype Listing = Listing(count: int, page: Fetch<seq<Row>>)

  datatype Site = Site(listing: seq<Listing>, detail: string -> Fetch<string>)

  /**
   * The listing is long enough for the crawl: by the last listed page the
   * reported page count no longer exceeds the page number, so the outer
   * loop test fails there at the latest.
   */
  predicate Finite(site: Site) {
    |site.listing| > 0 && site.listing[|site.listing| - 1].count <= |site.listing|
  }

  /** getCountPages() as evaluated in the loop test before page `page`. */
  function CountAt(site: Site, page: int): int
    requires 1 <= page <= |site.listing|
  {
    site.listing[page - 1].count
  }

  /** Everything a run depends on: the site, the clock (today and the two-digit-year window) and lastParsingDate. */
  datatype Env = Env(site: Site, today: CalendarDay, pivot: int, last: Stamp)

  // ---------------------------------------------------------------------------
  // One row
  // ---------------------------------------------------------------------------

  /** An exception that ends the crawl: caught at the end of parse, or escaping execute. */
  datatype Abort = Caught | Escaped

  /** What happens to one examined row. */
  datatype Verdict = Stale | Irrelevant | Added(posting: Posting) | Failed(abort: Abort)

  /** isAfterLastDate: strictly after lastParsingDate (Date.before). */
  predicate IsAfterLastDate(last: Stamp, date: Stamp) {
    Before(last, date)
  }

  /** The date of a row: normalizeDate then DATE_AND_TIME_FORMAT.parse, None when either throws. */
  function RowDate(env: Env, row: Row): Option<Stamp> {
    match Normalize(row.rawDate, env.today)
    case Err(_) => None
    case Ok(text) => ParseStamp(text, env.pivot)
  }

  /** The body of the inner loop for one row. */
  function Examine(env: Env, row: Row): Verdict {
    match Normalize(row.rawDate, env.today)
    case Err(_) => Failed(Escaped)
    case Ok(text) =>
      match ParseStamp(text, env.pivot)
      case None => Failed(Caught)
      case Some(date) =>
        if !IsAfterLastDate(env.last, date) then Stale
        else if !IsRelevant(row.name) then Irrelevant
        else
          match env.site.detail(row.link)
          case Fetched(body) => Added(Posting(row.name, body, row.link, date))
          case IoFailure => Failed(Caught)
          case Malformed => Failed(Escaped)
  }

  /**
   * A row whose date cannot be obtained fails the crawl: a normalizeDate
   * exception escapes, a ParseException is caught. A row not newer than
   * lastParsingDate is stale; a newer row with an irrelevant title is
   * skipped; a newer relevant row is added, with its own title, link and
   * date and the fetched detail text, exactly when its detail page loads.
   */
  lemma ExamineMeaning(env: Env, row: Row)
    ensures var v := Examine(env, row);
            && (Normalize(row.rawDate, env.today).Err? ==> v == Failed(Escaped))
            && (Normalize(row.rawDate, env.today).Ok? && RowDate(env, row).None? ==> v == Failed(Caught))
            && (v.Stale? <==> RowDate(env, row).Some? && !IsAfterLastDate(env.last, RowDate(env, row).value))
            && (v.Irrelevant? <==>
                  RowDate(env, row).Some? && IsAfterLastDate(env.last, RowDate(env, row).value) && !IsRelevant(row.name))
            && (v.Added? <==>
                  && RowDate(env, row).Some? && IsAfterLastDate(env.last, RowDate(env, row).value)
                  && IsRelevant(row.name) && env.site.detail(row.link).Fetched?)
            && (v.Added? ==>
                  && v.posting == Posting(row.name, env.site.detail(row.link).value, row.link, RowDate(env, row).value))
  {
  }

  /** A row dated exactly lastParsingDate is stale. */
  lemma SameDateIsStale(env: Env, row: Row)
    requires RowDate(env, row) == Some(env.last)
    ensures Examine(env, row) == Stale
  {
    BeforeIsStrictTotalOrder(env.last, env.last, env.last);
  }

  // ---------------------------------------------------------------------------
  // The crawl as a sequence of visits
  // ---------------------------------------------------------------------------

  /** Row `index` of page `page` was examined with this verdict. */
  datatype Visit = Visit(page: int, index: int, verdict: Verdict)

  /** The rows examined, and the exception that ended the crawl, if any. */
  datatype Outcome = Outcome(visits: seq<Visit>, exit: Option<Abort>)

  function Prepend(vs: seq<Visit>, o: Outcome): Outcome {
    Outcome(vs + o.visits, o.exit)
  }

  /** The stale rows among the visits (the increments of oldViewed). */
  function StaleCount(vs: seq<Visit>): nat {
    if vs == [] then 0 else (if vs[0].verdict.Stale? then 1 else 0) + StaleCount(vs[1..])
  }

  /** The postings handed to addVacancy, in order. */
  function NewPostings(vs: seq<Visit>): seq<Posting> {
    if vs == [] then [] else (if vs[0].verdict.Added? then [vs[0].verdict.posting] else []) + NewPostings(vs[1..])
  }

  lemma {:induction false} StaleCountAppend(a: seq<Visit>, b: seq<Visit>)
    ensures StaleCount(a + b) == StaleCount(a) + StaleCount(b)
    decreases |a|
  {
    if a != [] {
      assert (a + b)[1..] == a[1..] + b;
      StaleCountAppend(a[1..], b);
    } else {
      assert a + b == b;
    }
  }

  lemma {:induction false} NewPostingsAppend(a: seq<Visit>, b: seq<Visit>)
    ensures NewPostings(a + b) == NewPostings(a) + NewPostings(b)
    decreases |a|
  {
    if a != [] {
      assert (a + b)[1..] == a[1..] + b;
      NewPostingsAppend(a[1..], b);
    } else {
      assert a + b == b;
    }
  }

  /*
   * The loops below take the judgement of a row as a parameter `judge`;
   * the crawl itself uses Examine (see JudgeOf).
   */

  /** The inner loop from row `i` with `ov` stale rows seen so far. */
  function ScanRows(judge: Row -> Verdict, page: int, rows: seq<Row>, i: nat, ov: nat): (o: Outcome)
    requires ov <= MAX_NUMBER_OLD_VACANCIES
    ensures ov + StaleCount(o.visits) <= MAX_NUMBER_OLD_VACANCIES
    decreases |rows| - i
  {
    if i >= |rows| || ov == MAX_NUMBER_OLD_VACANCIES then Outcome([], None)
    else
      var v := judge(rows[i]);
      if v.Failed? then Outcome([Visit(page, i, v)], Some(v.abort))
      else
        var rest := ScanRows(judge, page, rows, i + 1, ov + if v.Stale? then 1 else 0);
        assert ([Visit(page, i, v)] + rest.visits)[1..] == rest.visits;
        Prepend([Visit(page, i, v)], rest)
  }

  /** The outer loop from page `page` with `ov` stale rows seen so far. */
  function ScanPages(judge: Row -> Verdict, site: Site, page: nat, ov: nat): (o: Outcome)
    requires Finite(site) && 1 <= page <= |site.listing| && ov <= MAX_NUMBER_OLD_VACANCIES
    ensures ov + StaleCount(o.visits) <= MAX_NUMBER_OLD_VACANCIES
    decreases |site.listing| - page, 1
  {
    if !(page < CountAt(site, page) && ov != MAX_NUMBER_OLD_VACANCIES) then Outcome([], None)
    else
      match site.listing[page - 1].page
      case Fetched(rows) => ContinuePage(judge, site, page, rows, SKIP_LINES_ON_EACH_PAGE, ov)
      case IoFailure => Outcome([], Some(Caught))
      case Malformed => Outcome([], Some(Escaped))
  }

  /** The rest of page `page` from row `i`, then the following pages. */
  function ContinuePage(judge: Row -> Verdict, site: Site, page: nat, rows: seq<Row>, i: nat, ov: nat): (o: Outcome)
    requires Finite(site) && 1 <= page <= |site.listing| && page < CountAt(site, page)
    requires ov <= MAX_NUMBER_OLD_VACANCIES
    ensures ov + StaleCount(o.visits) <= MAX_NUMBER_OLD_VACANCIES
    decreases |site.listing| - page, 0
  {
    var r := ScanRows(judge, page, rows, i, ov);
    if r.exit.Some? then r
    else
      var rest := ScanPages(judge, site, page + 1, ov + StaleCount(r.visits));
      StaleCountAppend(r.visits, rest.visits);
      Prepend(r.visits, rest)
  }

  /** The judgement the crawl applies to every row. */
  function JudgeOf(env: Env): Row -> Verdict {
    row => Examine(env, row)
  }

  /**
   * `judge` gives every row the verdict Examine gives it under `env`; the
   * quantifier is only instantiated where an Examine term is at hand, so the
   * loop proofs work with `judge` without unfolding Examine.
   */
  ghost predicate Judges(judge: Row -> Verdict, env: Env) {
    forall row {:trigger Examine(env, row)} :: judge(row) == Examine(env, row)
  }

  /** JudgeOf is such a judgement. */
  lemma JudgeOfJudges(env: Env)
    ensures Judges(JudgeOf(env), env)
  {
  }

  /** parse(): the whole crawl. */
  function Crawl(env: Env): Outcome
    requires Finite(env.site)
  {
    ScanPages(JudgeOf(env), env.site, 1, 0)
  }

  /** One step of the inner loop. */
  lemma ContinuePageStep(judge: Row -> Verdict, site: Site, page: nat, rows: seq<Row>, i: nat, ov: nat)
    requires Finite(site) && 1 <= page <= |site.listing| && page < CountAt(site, page)
    requires ov < MAX_NUMBER_OLD_VACANCIES && i < |rows|
    ensures var v := judge(rows[i]);
            if v.Failed? then ContinuePage(judge, site, page, rows, i, ov) == Outcome([Visit(page, i, v)], Some(v.abort))
            else ContinuePage(judge, site, page, rows, i, ov)
                 == Prepend([Visit(page, i, v)], ContinuePage(judge, site, page, rows, i + 1, ov + if v.Stale? then 1 else 0))
  {
    var v := judge(rows[i]);
    if !v.Failed? {
      var head := [Visit(page, i, v)];
      var ov' := ov + if v.Stale? then 1 else 0;
      var r := ScanRows(judge, page, rows, i + 1, ov');
      ScanRowsStep(judge, page, rows, i, ov, v, ov');
      if r.exit.None? {
        StaleCountAppend(head, r.visits);
        assert StaleCount(head) == ov' - ov by { assert head[1..] == []; }
        var rest := ScanPages(judge, site, page + 1, ov' + StaleCount(r.visits));
        assert (head + r.visits) + rest.visits == head + (r.visits + rest.visits);
      }
    }
  }

  /** The outer loop test, and what fetching the page gives, decide how the pages from `page` on start. */
  lemma PageStart(judge: Row -> Verdict, site: Site, page: nat, ov: nat)
    requires Finite(site) && 1 <= page <= |site.listing| && ov <= MAX_NUMBER_OLD_VACANCIES
    ensures !(page < CountAt(site, page) && ov != MAX_NUMBER_OLD_VACANCIES) ==>
              ScanPages(judge, site, page, ov) == Outcome([], None)
    ensures page < CountAt(site, page) && ov != MAX_NUMBER_OLD_VACANCIES ==>
              match site.listing[page - 1].page
              case Fetched(rows) =>
                ScanPages(judge, site, page, ov) == ContinuePage(judge, site, page, rows, SKIP_LINES_ON_EACH_PAGE, ov)
              case IoFailure => ScanPages(judge, site, page, ov) == Outcome([], Some(Caught))
              case Malformed => ScanPages(judge, site, page, ov) == Outcome([], Some(Escaped))
  {
  }

  /** When the inner loop test fails, the rest of the crawl is the following pages. */
  lemma PageEnd(judge: Row -> Verdict, site: Site, page: nat, rows: seq<Row>, i: nat, ov: nat)
    requires Finite(site) && 1 <= page <= |site.listing| && page < CountAt(site, page)
    requires ov <= MAX_NUMBER_OLD_VACANCIES && !(i < |rows| && ov != MAX_NUMBER_OLD_VACANCIES)
    ensures page + 1 <= |site.listing|
    ensures ContinuePage(judge, site, page, rows, i, ov) == ScanPages(judge, site, page + 1, ov)
  {
    assert [] + ScanPages(judge, site, page + 1, ov).visits == ScanPages(judge, site, page + 1, ov).visits;
  }

  /** One more visit adds its posting, if any, to the postings handed over so far. */
  lemma NewPostingsSnoc(done: seq<Visit>, visit: Visit)
    ensures NewPostings(done + [visit])
         == NewPostings(done) + (if visit.verdict.Added? then [visit.verdict.posting] else [])
  {
    NewPostingsAppend(done, [visit]);
    assert [visit][1..] == [];
  }

  lemma PrependNothing(done: seq<Visit>, exit: Option<Abort>)
    ensures Prepend(done, Outcome([], exit)) == Outcome(done, exit)
  {
    assert done + [] == done;
  }

  /**
   * One step of the inner loop, seen from the whole crawl: the visit joins
   * the visits done so far (`done2`), and unless it failed the crawl goes on
   * from row `i + 1` with `ov2` stale rows.
   */
  lemma InnerStep(judge: Row -> Verdict, site: Site, page: nat, rows: seq<Row>, i: nat, ov: nat,
                  done: seq<Visit>, whole: Outcome, v: Verdict, done2: seq<Visit>, i2: nat, ov2: nat)
    requires Finite(site) && 1 <= page <= |site.listing| && page < CountAt(site, page)
    requires ov < MAX_NUMBER_OLD_VACANCIES && i < |rows| && v == judge(rows[i])
    requires whole == Prepend(done, ContinuePage(judge, site, page, rows, i, ov))
    requires done2 == done + [Visit(page, i, v)] && i2 == i + 1 && ov2 == ov + if v.Stale? then 1 else 0
    ensures v.Failed? ==> whole == Outcome(done2, Some(v.abort))
    ensures !v.Failed? ==> ov2 <= MAX_NUMBER_OLD_VACANCIES && whole == Prepend(done2, ContinuePage(judge, site, page, rows, i2, ov2))
  {
    var visit := Visit(page, i, v);
    ContinuePageStep(judge, site, page, rows, i, ov);
    if v.Failed? {
      assert done + ([visit] + []) == done2;
    } else {
      AppendAssoc(done, [visit], ContinuePage(judge, site, page, rows, i2, ov2).visits);
    }
  }

  // ---------------------------------------------------------------------------
  // Properties of the crawl
  // ---------------------------------------------------------------------------

  /** Row `v.index` of page `v.page` exists past the skipped rows, on a page the loop test admitted, and was judged. */
  predicate VisitedRow(judge: Row -> Verdict, site: Site, v: Visit) {
    && 1 <= v.page <= |site.listing|
    && v.page < CountAt(site, v.page)
    && site.listing[v.page - 1].page.Fetched?
    && SKIP_LINES_ON_EACH_PAGE <= v.index < |site.listing[v.page - 1].page.value|
    && v.verdict == judge(site.listing[v.page - 1].page.value[v.index])
  }

  predicate Precedes(a: Visit, b: Visit) {
    a.page < b.page || (a.page == b.page && a.index < b.index)
  }

  /** Pages in increasing order, rows of a page in increasing order. */
  predicate InOrder(vs: seq<Visit>) {
    forall k | 0 < k < |vs| :: Precedes(vs[k - 1], vs[k])
  }

  /** Only the last visit can fail, and then the crawl ends with that row's exception. */
  predicate FailsLast(o: Outcome) {
    forall k | 0 <= k < |o.visits| && o.visits[k].verdict.Failed? ::
      k == |o.visits| - 1 && o.exit == Some(o.visits[k].verdict.abort)
  }

  /** Every row was examined while fewer than MAX_NUMBER_OLD_VACANCIES stale rows had been seen. */
  predicate BelowLimitAtEachVisit(ov: nat, vs: seq<Visit>) {
    forall k | 0 <= k < |vs| :: ov + StaleCount(vs[..k]) < MAX_NUMBER_OLD_VACANCIES
  }

  lemma InOrderAppend(a: seq<Visit>, b: seq<Visit>)
    requires InOrder(a) && InOrder(b)
    requires |a| > 0 && |b| > 0 ==> Precedes(a[|a| - 1], b[0])
    ensures InOrder(a + b)
  {
    forall k | 0 < k < |a + b|
      ensures Precedes((a + b)[k - 1], (a + b)[k])
    {
      if k < |a| {
        assert Precedes(a[k - 1], a[k]);
      } else if k == |a| {
        assert (a + b)[k - 1] == a[|a| - 1] && (a + b)[k] == b[0];
      } else {
        assert Precedes(b[k - |a| - 1], b[k - |a|]);
      }
    }
  }

  lemma BelowLimitAppend(ov: nat, a: seq<Visit>, b: seq<Visit>)
    requires BelowLimitAtEachVisit(ov, a) && BelowLimitAtEachVisit(ov + StaleCount(a), b)
    ensures BelowLimitAtEachVisit(ov, a + b)
  {
    forall k | 0 <= k < |a + b|
      ensures ov + StaleCount((a + b)[..k]) < MAX_NUMBER_OLD_VACANCIES
    {
      if k < |a| {
        assert (a + b)[..k] == a[..k];
      } else {
        assert (a + b)[..k] == a + b[..k - |a|];
        StaleCountAppend(a, b[..k - |a|]);
      }
    }
  }

  /**
   * The visits `o` of page `page` from row `i` on: admitted rows of that page
   * at or after `i`, in order, only the last failing, each below the limit
   * counting from `ov`.
   */
  predicate RowFacts(judge: Row -> Verdict, site: Site, page: nat, i: nat, ov: nat, o: Outcome) {
    && (forall v | v in o.visits :: VisitedRow(judge, site, v) && v.page == page && i <= v.index)
    && InOrder(o.visits) && FailsLast(o) && BelowLimitAtEachVisit(ov, o.visits)
  }

  /** The facts about one page's rows. */
  lemma {:induction false} ScanRowsFacts(judge: Row -> Verdict, site: Site, page: nat, rows: seq<Row>, i: nat, ov: nat)
    requires Finite(site) && 1 <= page <= |site.listing| && page < CountAt(site, page)
    requires site.listing[page - 1].page == Fetched(rows)
    requires SKIP_LINES_ON_EACH_PAGE <= i && ov <= MAX_NUMBER_OLD_VACANCIES
    ensures RowFacts(judge, site, page, i, ov, ScanRows(judge, page, rows, i, ov))
    decreases |rows| - i
  {
    if !(i >= |rows| || ov == MAX_NUMBER_OLD_VACANCIES) {
      var v := judge(rows[i]);
      if v.Failed? {
        FailedRowFacts(judge, site, page, rows, i, ov);
      } else {
        ScanRowsFacts(judge, site, page, rows, i + 1, ov + if v.Stale? then 1 else 0);
        NextRowFacts(judge, site, page, rows, i, ov);
      }
    }
  }

  /** A failing row ends the page's visits with every fact kept. */
  lemma FailedRowFacts(judge: Row -> Verdict, site: Site, page: nat, rows: seq<Row>, i: nat, ov: nat)
    requires Finite(site) && 1 <= page <= |site.listing| && page < CountAt(site, page)
    requires site.listing[page - 1].page == Fetched(rows)
    requires SKIP_LINES_ON_EACH_PAGE <= i < |rows| && ov < MAX_NUMBER_OLD_VACANCIES
    requires judge(rows[i]).Failed?
    ensures RowFacts(judge, site, page, i, ov, ScanRows(judge, page, rows, i, ov))
  {
    var v := judge(rows[i]);
    var head := Visit(page, i, v);
    assert ScanRows(judge, page, rows, i, ov) == Outcome([head], Some(v.abort));
    assert VisitedRow(judge, site, head);
    LastFacts(judge, site, head, ov);
  }

  /** A row that does not fail, followed by the facts of the rows after it, keeps every fact. */
  lemma NextRowFacts(judge: Row -> Verdict, site: Site, page: nat, rows: seq<Row>, i: nat, ov: nat)
    requires Finite(site) && 1 <= page <= |site.listing| && page < CountAt(site, page)
    requires site.listing[page - 1].page == Fetched(rows)
    requires SKIP_LINES_ON_EACH_PAGE <= i < |rows| && ov < MAX_NUMBER_OLD_VACANCIES
    requires !judge(rows[i]).Failed?
    requires var ov' := ov + if judge(rows[i]).Stale? then 1 else 0;
             RowFacts(judge, site, page, i + 1, ov', ScanRows(judge, page, rows, i + 1, ov'))
    ensures RowFacts(judge, site, page, i, ov, ScanRows(judge, page, rows, i, ov))
  {
    var v := judge(rows[i]);
    var head := Visit(page, i, v);
    var ov2 := ov + if v.Stale? then 1 else 0;
    var rest := ScanRows(judge, page, rows, i + 1, ov2);
    ScanRowsStep(judge, page, rows, i, ov, v, ov2);
    assert VisitedRow(judge, site, head);
    ConsFacts(judge, site, head, ov, rest);
  }

  /** The inner loop past a row that does not fail: that row's visit, then the loop from the next row. */
  lemma ScanRowsStep(judge: Row -> Verdict, page: nat, rows: seq<Row>, i: nat, ov: nat, v: Verdict, ov2: nat)
    requires i < |rows| && ov < MAX_NUMBER_OLD_VACANCIES && v == judge(rows[i]) && !v.Failed?
    requires ov2 == ov + if v.Stale? then 1 else 0
    ensures ScanRows(judge, page, rows, i, ov) == Prepend([Visit(page, i, v)], ScanRows(judge, page, rows, i + 1, ov2))
  {
  }

  /** A failed visit alone keeps every fact. */
  lemma LastFacts(judge: Row -> Verdict, site: Site, head: Visit, ov: nat)
    requires VisitedRow(judge, site, head) && head.verdict.Failed? && ov < MAX_NUMBER_OLD_VACANCIES
    ensures RowFacts(judge, site, head.page, head.index, ov, Outcome([head], Some(head.verdict.abort)))
  {
    assert [head][..0] == [];
  }

  /** A visit that is not a failure, followed by the later visits of its page, keeps every fact. */
  lemma ConsFacts(judge: Row -> Verdict, site: Site, head: Visit, ov: nat, rest: Outcome)
    requires VisitedRow(judge, site, head) && !head.verdict.Failed? && ov < MAX_NUMBER_OLD_VACANCIES
    requires RowFacts(judge, site, head.page, head.index + 1, ov + if head.verdict.Stale? then 1 else 0, rest)
    ensures RowFacts(judge, site, head.page, head.index, ov, Prepend([head], rest))
  {
    var o := Prepend([head], rest);
    assert o.visits == [head] + rest.visits;
    assert forall w | w in o.visits :: VisitedRow(judge, site, w) && w.page == head.page && head.index <= w.index by {
      forall w | w in o.visits
        ensures VisitedRow(judge, site, w) && w.page == head.page && head.index <= w.index
      {
        if w != head {
          assert w in rest.visits;
        }
      }
    }
    assert InOrder(o.visits) by {
      if |rest.visits| > 0 {
        assert rest.visits[0] in rest.visits;
      }
      InOrderAppend([head], rest.visits);
    }
    assert BelowLimitAtEachVisit(ov, o.visits) by {
      assert [head][..0] == [] && [head][1..] == [];
      assert BelowLimitAtEachVisit(ov, [head]);
      BelowLimitAppend(ov, [head], rest.visits);
    }
    assert FailsLast(o) by {
      forall k | 0 <= k < |o.visits| && o.visits[k].verdict.Failed?
        ensures k == |o.visits| - 1 && o.exit == Some(o.visits[k].verdict.abort)
      {
        assert o.visits[k] == rest.visits[k - 1];
        assert rest.visits[k - 1].verdict.Failed?;
      }
    }
  }

  /** The visits `o` from page `page` on, as RowFacts but across pages. */
  predicate PageFacts(judge: Row -> Verdict, site: Site, page: nat, ov: nat, o: Outcome) {
    && (forall v | v in o.visits :: VisitedRow(judge, site, v) && page <= v.page)
    && InOrder(o.visits) && FailsLast(o) && BelowLimitAtEachVisit(ov, o.visits)
  }

  /** The facts about the pages from `page` on. */
  lemma {:induction false} ScanPagesFacts(judge: Row -> Verdict, site: Site, page: nat, ov: nat)
    requires Finite(site) && 1 <= page <= |site.listing| && ov <= MAX_NUMBER_OLD_VACANCIES
    ensures PageFacts(judge, site, page, ov, ScanPages(judge, site, page, ov))
    decreases |site.listing| - page, 1
  {
    if page < CountAt(site, page) && ov != MAX_NUMBER_OLD_VACANCIES {
      match site.listing[page - 1].page
      case Fetched(rows) =>
        ContinuePageFacts(judge, site, page, rows, SKIP_LINES_ON_EACH_PAGE, ov);
      case IoFailure =>
      case Malformed =>
    }
  }

  lemma {:induction false} ContinuePageFacts(judge: Row -> Verdict, site: Site, page: nat, rows: seq<Row>, i: nat, ov: nat)
    requires Finite(site) && 1 <= page <= |site.listing| && page < CountAt(site, page)
    requires site.listing[page - 1].page == Fetched(rows)
    requires SKIP_LINES_ON_EACH_PAGE <= i && ov <= MAX_NUMBER_OLD_VACANCIES
    ensures PageFacts(judge, site, page, ov, ContinuePage(judge, site, page, rows, i, ov))
    decreases |site.listing| - page, 0
  {
    var r := ScanRows(judge, page, rows, i, ov);
    if r.exit.None? {
      var ov' := ov + StaleCount(r.visits);
      var rest := ScanPages(judge, site, page + 1, ov');
      assert ContinuePage(judge, site, page, rows, i, ov) == Prepend(r.visits, rest);
      ScanRowsFacts(judge, site, page, rows, i, ov);
      ScanPagesFacts(judge, site, page + 1, ov');
      JoinFacts(judge, site, page, i, ov, r, rest);
    } else {
      assert ContinuePage(judge, site, page, rows, i, ov) == r;
      ScanRowsFacts(judge, site, page, rows, i, ov);
    }
  }

  /** A finished page followed by the later pages keeps every fact. */
  lemma JoinFacts(judge: Row -> Verdict, site: Site, page: nat, i: nat, ov: nat, r: Outcome, rest: Outcome)
    requires r.exit.None? && RowFacts(judge, site, page, i, ov, r)
    requires PageFacts(judge, site, page + 1, ov + StaleCount(r.visits), rest)
    ensures PageFacts(judge, site, page, ov, Prepend(r.visits, rest))
  {
    var o := Prepend(r.visits, rest);
    assert forall w | w in o.visits :: VisitedRow(judge, site, w) && page <= w.page by {
      forall w | w in o.visits
        ensures VisitedRow(judge, site, w) && page <= w.page
      {
        if w !in r.visits {
          assert w in rest.visits;
        }
      }
    }
    assert InOrder(o.visits) by {
      if |r.visits| > 0 && |rest.visits| > 0 {
        assert r.visits[|r.visits| - 1] in r.visits && rest.visits[0] in rest.visits;
      }
      InOrderAppend(r.visits, rest.visits);
    }
    assert BelowLimitAtEachVisit(ov, o.visits) by {
      BelowLimitAppend(ov, r.visits, rest.visits);
    }
    assert FailsLast(o) by {
      assert forall k | 0 <= k < |r.visits| :: o.visits[k] == r.visits[k] && !r.visits[k].verdict.Failed?;
      forall k | 0 <= k < |o.visits| && o.visits[k].verdict.Failed?
        ensures k == |o.visits| - 1 && o.exit == Some(o.visits[k].verdict.abort)
      {
        assert o.visits[k] == rest.visits[k - |r.visits|];
        assert rest.visits[k - |r.visits|].verdict.Failed?;
      }
    }
  }

  /**
   * What parse() does, as a whole: it examines rows of admitted pages only,
   * past the skipped rows, in page and row order; each row is judged by
   * Examine; the stale rows never exceed the limit and each row is examined
   * while fewer than the limit have been seen; and only the last examined
   * row can have failed, ending the crawl with its exception.
   */
  lemma CrawlFacts(env: Env)
    requires Finite(env.site)
    ensures forall v | v in Crawl(env).visits :: VisitedRow(JudgeOf(env), env.site, v)
    ensures InOrder(Crawl(env).visits)
    ensures FailsLast(Crawl(env))
    ensures BelowLimitAtEachVisit(0, Crawl(env).visits)
    ensures StaleCount(Crawl(env).visits) <= MAX_NUMBER_OLD_VACANCIES
  {
    ScanPagesFacts(JudgeOf(env), env.site, 1, 0);
  }

  lemma {:induction false} NewPostingsFromVisits(vs: seq<Visit>, p: Posting)
    requires p in NewPostings(vs)
    ensures exists v | v in vs :: v.verdict == Added(p)
    decreases |vs|
  {
    if vs[0].verdict.Added? && p == vs[0].verdict.posting {
      assert vs[0] in vs;
    } else {
      NewPostingsFromVisits(vs[1..], p);
      var v :| v in vs[1..] && v.verdict == Added(p);
      assert v in vs;
    }
  }

  /** Every posting the crawl hands to the store is newer than lastParsingDate and has a relevant title. */
  lemma CrawlAddsOnlyNewRelevant(env: Env, p: Posting)
    requires Finite(env.site) && p in NewPostings(Crawl(env).visits)
    ensures IsAfterLastDate(env.last, p.date) && IsRelevant(p.name)
  {
    CrawlFacts(env);
    NewPostingsFromVisits(Crawl(env).visits, p);
    var v :| v in Crawl(env).visits && v.verdict == Added(p);
    var row := env.site.listing[v.page - 1].page.value[v.index];
    assert Examine(env, row) == Added(p);
    ExamineMeaning(env, row);
  }

  lemma {:induction false} AddedVisitPosted(vs: seq<Visit>, v: Visit)
    requires v in vs && v.verdict.Added?
    ensures v.verdict.posting in NewPostings(vs)
    decreases |vs|
  {
    if vs[0] != v {
      assert v in vs[1..];
      AddedVisitPosted(vs[1..], v);
    }
  }

  /**
   * Every row the crawl visits that is newer than lastParsingDate, has a
   * relevant title and whose detail page loads is handed to the store.
   */
  lemma CrawlAddsEveryNewRelevant(env: Env, v: Visit)
    requires Finite(env.site) && v in Crawl(env).visits
    ensures VisitedRow(JudgeOf(env), env.site, v)
    ensures var row := env.site.listing[v.page - 1].page.value[v.index];
            RowDate(env, row).Some? && IsAfterLastDate(env.last, RowDate(env, row).value)
            && IsRelevant(row.name) && env.site.detail(row.link).Fetched?
            ==> v.verdict.Added? && v.verdict.posting in NewPostings(Crawl(env).visits)
  {
    CrawlFacts(env);
    var row := env.site.listing[v.page - 1].page.value[v.index];
    assert v.verdict == Examine(env, row);
    ExamineMeaning(env, row);
    if v.verdict.Added? {
      AddedVisitPosted(Crawl(env).visits, v);
    }
  }

  /** Once the limit of stale rows is reached, no further page or row is examined. */
  lemma SaturatedCrawlStops(judge: Row -> Verdict, site: Site, page: nat)
    requires Finite(site) && 1 <= page <= |site.listing|
    ensures ScanPages(judge, site, page, MAX_NUMBER_OLD_VACANCIES) == Outcome([], None)
  {
  }

  // ---------------------------------------------------------------------------
  // The last parsing date and the store
  // ---------------------------------------------------------------------------

  /**
   * obtainLastParsingDate: the latest stored date, or 1 January of the
   * current year at 00:00 when the store has none (getLastData() == 0).
   */
  function ObtainLastParsingDate(lastData: Option<Stamp>, currentYear: int): Stamp {
    match lastData
    case Some(d) => d
    case None => Stamp(currentYear, 1, 1, 0, 0)
  }

  /** A timestamp with calendar-sized fields. */
  predicate Plausible(d: Stamp) {
    1 <= d.month && 1 <= d.day && 0 <= d.hour && 0 <= d.minute
  }

  /**
   * On a first run everything from the current year is new except a row
   * dated exactly New Year's midnight, and nothing from an earlier year is.
   */
  lemma FirstRunCollectsCurrentYear(currentYear: int, d: Stamp)
    requires Plausible(d)
    ensures IsAfterLastDate(ObtainLastParsingDate(None, currentYear), d) <==>
              d.year > currentYear
              || (d.year == currentYear && !(d.month == 1 && d.day == 1 && d.hour == 0 && d.minute == 0))
  {
  }

  /** The latest date among the postings (SELECT MAX(dateAdd)), or None for none. */
  function LatestDate(ps: seq<Posting>): (r: Option<Stamp>)
    ensures r.None? <==> ps == []
    ensures r.Some? ==> exists p | p in ps :: p.date == r.value
    ensures r.Some? ==> forall p | p in ps :: !Before(r.value, p.date)
  {
    if ps == [] then None
    else
      match LatestDate(ps[1..])
      case None => Some(ps[0].date)
      case Some(m) =>
        BeforeIsStrictTotalOrder(m, ps[0].date, ps[0].date);
        assert forall p | p in ps[1..] :: !Before(m, p.date);
        assert forall p | p in ps :: p == ps[0] || p in ps[1..];
        if Before(m, ps[0].date) then
          assert forall p | p in ps[1..] :: !Before(ps[0].date, p.date) by {
            forall p | p in ps[1..] ensures !Before(ps[0].date, p.date) {
              BeforeIsStrictTotalOrder(m, ps[0].date, p.date);
            }
          }
          Some(ps[0].date)
        else
          BeforeIsStrictTotalOrder(m, ps[0].date, ps[0].date);
          Some(m)
  }

  predicate HasName(ps: seq<Posting>, name: string) {
    exists q | q in ps :: q.name == name
  }

  predicate NamesUnique(ps: seq<Posting>) {
    forall j, k | 0 <= j < k < |ps| :: ps[j].name != ps[k].name
  }

  /**
   * What the table keeps of a sequence of inserts: the name column is
   * unique, so an insert whose name is already stored is dropped.
   */
  function Kept(ps: seq<Posting>): (r: seq<Posting>)
    ensures |r| <= |ps|
    ensures NamesUnique(r)
    ensures forall q | q in r :: q in ps
    ensures forall p | p in ps :: HasName(r, p.name)
  {
    if ps == [] then []
    else
      var prev := Kept(ps[..|ps| - 1]);
      var p := ps[|ps| - 1];
      assert forall q | q in ps[..|ps| - 1] :: q in ps;
      assert forall q | q in ps :: q == p || q in ps[..|ps| - 1];
      if HasName(prev, p.name) then prev
      else
        assert forall q | q in prev :: HasName(prev + [p], q.name) by {
          forall q | q in prev ensures HasName(prev + [p], q.name) {
            assert q in prev + [p];
          }
        }
        assert p in prev + [p];
        prev + [p]
  }

  /** The vacancy table: every addVacancy call, in order. */
  class VacancyStore {
    var submitted: seq<Posting>

    constructor (initial: seq<Posting>)
      ensures submitted == initial
    {
      submitted := initial;
    }

    /** addVacancy: one insert; a duplicate name is dropped by the table, not here. */
    method AddVacancy(p: Posting)
      modifies this
      ensures submitted == old(submitted) + [p]
    {
      submitted := submitted + [p];
    }

    /** The rows the table holds. */
    function Stored(): seq<Posting>
      reads this
    {
      Kept(submitted)
    }

    /** getLastData, with None for the 0 it returns on an empty table. */
    function LastData(): Option<Stamp>
      reads this
    {
      LatestDate(Stored())
    }
  }

  /** On the next run, every stored vacancy's row counts as stale. */
  lemma StoredRowsAreStaleNextRun(store: VacancyStore, currentYear: int, p: Posting)
    requires p in store.Stored()
    ensures !IsAfterLastDate(ObtainLastParsingDate(store.LastData(), currentYear), p.date)
  {
  }

  /** The first insert of each name is the one the table keeps. */
  lemma {:induction false} FirstOfNameKept(ps: seq<Posting>, j: int)
    requires 0 <= j < |ps|
    requires forall i | 0 <= i < j :: ps[i].name != ps[j].name
    ensures ps[j] in Kept(ps)
    decreases |ps|
  {
    var init := ps[..|ps| - 1];
    var prev := Kept(init);
    if j == |ps| - 1 {
      assert !HasName(prev, ps[j].name) by {
        forall q | q in prev ensures q.name != ps[j].name {
          var i :| 0 <= i < |init| && init[i] == q;
          assert ps[i] == q;
        }
      }
      assert ps[j] in prev + [ps[j]];
    } else {
      assert init[j] == ps[j];
      FirstOfNameKept(init, j);
    }
  }

  /** Two inserts of the same name leave one row, although two addVacancy calls were counted. */
  lemma DuplicateInsertKeepsOne(p: Posting, q: Posting)
    requires p.name == q.name
    ensures Kept([p, q]) == [p]
  {
    assert [p, q][..1] == [p];
    assert [p][..0] == [];
    assert HasName([p], q.name) by { assert p in [p]; }
  }

  // ---------------------------------------------------------------------------
  // The job
  // ---------------------------------------------------------------------------

  class ParserJob {
    var db: VacancyStore?
    var lastParsingDate: Stamp
    var numberOfAddedVacancy: int

    constructor ()
      ensures db == null && numberOfAddedVacancy == 0
    {
      db := null;
      lastParsingDate := Stamp(1970, 1, 1, 0, 0);
      numberOfAddedVacancy := 0;
    }

    /**
     * parse(): walks the pages and rows, hands every new relevant posting to
     * the store and counts it; the store receives exactly the postings of
     * Crawl, in order, and the counter grows by their number. The result is
     * the exception that ended the crawl, if any.
     */
    method Parse(site: Site, today: CalendarDay, pivot: int, ghost judge: Row -> Verdict)
      returns (exit: Option<Abort>)
      requires db != null && Finite(site)
      requires Judges(judge, Env(site, today, pivot, lastParsingDate))
      modifies this, db
      ensures db == old(db) && lastParsingDate == old(lastParsingDate)
      ensures var o := ScanPages(judge, site, 1, 0);
              && db.submitted == old(db.submitted) + NewPostings(o.visits)
              && numberOfAddedVacancy == old(numberOfAddedVacancy) + |NewPostings(o.visits)|
              && exit == o.exit
    {
      var env := Env(site, today, pivot, lastParsingDate);
      ghost var whole := ScanPages(judge, site, 1, 0);
      ghost var done: seq<Visit> := [];
      var oldViewed := 0;
      var page := 1;
      while page < CountAt(site, page) && oldViewed != MAX_NUMBER_OLD_VACANCIES
        invariant 1 <= page <= |site.listing| && oldViewed <= MAX_NUMBER_OLD_VACANCIES
        invariant db == old(db) && lastParsingDate == env.last
        invariant whole == Prepend(done, ScanPages(judge, site, page, oldViewed))
        invariant db.submitted == old(db.submitted) + NewPostings(done)
        invariant numberOfAddedVacancy == old(numberOfAddedVacancy) + |NewPostings(done)|
        decreases |site.listing| - page
      {
        PageStart(judge, site, page, oldViewed);
        var rows: seq<Row>;
        match site.listing[page - 1].page {
          case IoFailure =>
            PrependNothing(done, Some(Caught));
            return Some(Caught);
          case Malformed =>
            PrependNothing(done, Some(Escaped));
            return Some(Escaped);
          case Fetched(r) => rows := r;
        }
        var i := SKIP_LINES_ON_EACH_PAGE;
        while i < |rows| && oldViewed != MAX_NUMBER_OLD_VACANCIES
          invariant SKIP_LINES_ON_EACH_PAGE <= i && oldViewed <= MAX_NUMBER_OLD_VACANCIES
          invariant db == old(db) && lastParsingDate == env.last
          invariant whole == Prepend(done, ContinuePage(judge, site, page, rows, i, oldViewed))
          invariant db.submitted == old(db.submitted) + NewPostings(done)
          invariant numberOfAddedVacancy == old(numberOfAddedVacancy) + |NewPostings(done)|
          decreases |rows| - i
        {
          var v := VisitRow(env, rows[i], judge);
          ghost var done2 := done + [Visit(page, i, v)];
          var viewed := oldViewed + if v.Stale? then 1 else 0;
          var next := i + 1;
          InnerStep(judge, site, page, rows, i, oldViewed, done, whole, v, done2, next, viewed);
          NewPostingsSnoc(done, Visit(page, i, v));
          AppendAssoc(old(db.submitted), NewPostings(done), if v.Added? then [v.posting] else []);
          done := done2;
          if v.Failed? {
            return Some(v.abort);
          }
          oldViewed := viewed;
          i := next;
        }
        PageEnd(judge, site, page, rows, i, oldViewed);
        page := page + 1;
      }
      PageStart(judge, site, page, oldViewed);
      PrependNothing(done, None);
      return None;
    }

    /**
     * The body of the inner loop for one row: obtain its date, compare it
     * with lastParsingDate, filter the title, fetch the detail text and add
     * the vacancy. The verdict is Examine's; only an added posting changes
     * the store and the counter.
     */
    method VisitRow(env: Env, row: Row, ghost judge: Row -> Verdict) returns (v: Verdict)
      requires db != null && env.last == lastParsingDate && Judges(judge, env)
      modifies this, db
      ensures v == judge(row)
      ensures db == old(db) && lastParsingDate == old(lastParsingDate)
      ensures db.submitted == old(db.submitted) + if v.Added? then [v.posting] else []
      ensures numberOfAddedVacancy == old(numberOfAddedVacancy) + if v.Added? then 1 else 0
    {
      assert judge(row) == Examine(env, row);
      var normalized := Normalize(row.rawDate, env.today);
      if normalized.Err? {
        return Failed(Escaped);
      }
      var date := ParseStamp(normalized.value, env.pivot);
      if date.None? {
        return Failed(Caught);
      }
      if !IsAfterLastDate(lastParsingDate, date.value) {
        return Stale;
      }
      if !IsRelevant(row.name) {
        return Irrelevant;
      }
      match env.site.detail(row.link) {
        case IoFailure => return Failed(Caught);
        case Malformed => return Failed(Escaped);
        case Fetched(text) =>
          var posting := Posting(row.name, text, row.link, date.value);
          db.AddVacancy(posting);
          numberOfAddedVacancy := numberOfAddedVacancy + 1;
          return Added(posting);
      }
    }

    /**
     * execute(): connects the store (a failed connection is caught and the
     * run does nothing else), sets lastParsingDate from the store and crawls.
     */
    method Execute(store: VacancyStore?, site: Site, today: CalendarDay, pivot: int, currentYear: int)
      returns (exit: Option<Abort>)
      requires Finite(site)
      modifies this, store
      ensures store == null ==> exit == None && unchanged(this)
      ensures store != null ==>
                && db == store
                && lastParsingDate == ObtainLastParsingDate(old(store.LastData()), currentYear)
                && var o := Crawl(Env(site, today, pivot, lastParsingDate));
                   && store.submitted == old(store.submitted) + NewPostings(o.visits)
                   && numberOfAddedVacancy == old(numberOfAddedVacancy) + |NewPostings(o.visits)|
                   && exit == o.exit
    {
      if store == null {
        return None;
      }
      db := store;
      lastParsingDate := ObtainLastParsingDate(store.LastData(), currentYear);
      JudgeOfJudges(Env(site, today, pivot, lastParsingDate));
      exit := Parse(site, today, pivot, JudgeOf(Env(site, today, pivot, lastParsingDate)));
    }
  }
}
