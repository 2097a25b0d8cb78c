/** The page loop of one NVD window, and what a server with a fixed feed makes of it. */
module NvdSync {
  import opened Wrappers
  import opened NvdIngest
  import opened NvdReplay

  const MAX_PAGES := 100000
  const MAX_RESULTS_PER_PAGE := 2000
  const MAX_TOTAL_RESULTS := 100000000
  const INT_MAX := 2147483647

  datatype SyncResult = SyncOk | SyncInvalidArg | FetchError | IngestError | ProtocolError

  datatype SyncCounts = SyncCounts(pagesFetched: nat, cveIngested: nat, cveSkipped: nat)

  /** What the server answers in this window for each start index; None is a failed fetch. */
  type Server = int -> Option<Page>

  /** The configured page size, clamped on both ends. */
  function PerPage(configured: int): (per: int)
    ensures 1 <= per <= MAX_RESULTS_PER_PAGE
  {
    if configured < 1 then 1 else if configured > MAX_RESULTS_PER_PAGE then MAX_RESULTS_PER_PAGE else configured
  }

  /** Of the page sizes from 1 to 2000 it is the one nearest to the configured size. */
  lemma PerPageIsNearest(configured: int, p: int)
    requires 1 <= p <= 2000
    ensures 1 <= PerPage(configured) <= 2000
    ensures var per := PerPage(configured);
            (if per < configured then configured - per else per - configured) <=
            (if p < configured then configured - p else p - configured)
  {
  }

  /** The advertised total, refused unless it lies between 0 and the ceiling. */
  function TotalOf(page: Page): Option<nat> {
    if page.totalResults.Some? && 0.0 <= page.totalResults.value <= MAX_TOTAL_RESULTS as real
    then Some(page.totalResults.value.Floor)
    else None
  }

  ghost function PageAt(server: Server, start: int): Page {
    if server(start).Some? then server(start).value else Page(None, None)
  }

  /** The first `n` pages of the window. */
  ghost function Pages(server: Server, per: int, n: nat): (pages: seq<Page>)
    ensures |pages| == n
  {
    if n == 0 then [] else Pages(server, per, n - 1) + [PageAt(server, (n - 1) * per)]
  }

  /** No results lie beyond the page at `start`. */
  ghost predicate IsFinal(server: Server, per: int, start: int) {
    server(start).Some? &&
    var total := TotalOf(PageAt(server, start));
    total.Some? && (total.value == 0 || start + per >= total.value)
  }

  // ---- a server whose feed does not change during the window ----

  function Min(a: int, b: int): int {
    if a < b then a else b
  }

  /** Every answered request returns the total and some records of the feed from its start
      index on, at most one page of them. Requests may still fail. */
  ghost predicate ServesPages(server: Server, per: int, feed: seq<Element>) {
    per > 0 &&
    forall start :: 0 <= start && server(start).Some? ==>
      var page := server(start).value;
      && page.totalResults == Some(|feed| as real) && page.vulnerabilities.Some?
      && |page.vulnerabilities.value| <= per && page.vulnerabilities.value <= feed[Min(start, |feed|)..]
  }

  /** The records that page k should hold. */
  function PageSize(per: int, feed: seq<Element>, k: nat): int {
    Min(per, |feed| - Min(k * per, |feed|))
  }

  ghost predicate IsFull(server: Server, per: int, feed: seq<Element>, k: nat) {
    |ElementsOf(PageAt(server, k * per))| == PageSize(per, feed, k)
  }

  ghost predicate AllFull(server: Server, per: int, feed: seq<Element>, n: nat) {
    forall k :: 0 <= k < n ==> IsFull(server, per, feed, k)
  }

  lemma AllFullStep(server: Server, per: int, feed: seq<Element>, n: nat)
    ensures n == 0 ==> AllFull(server, per, feed, n)
    ensures n > 0 ==>
              (AllFull(server, per, feed, n) <==>
               && AllFull(server, per, feed, n - 1)
               && |ElementsOf(PageAt(server, (n - 1) * per))| == PageSize(per, feed, n - 1))
  {
    hide ElementsOf, PageAt, PageSize;
    assert n > 0 ==>
      (IsFull(server, per, feed, n - 1) <==> |ElementsOf(PageAt(server, (n - 1) * per))| == PageSize(per, feed, n - 1));
    hide IsFull;
  }

  lemma NothingFetched(server: Server, per: int)
    ensures ElementsOfPages(Pages(server, per, 0)) == []
  {
  }

  /** All pages are full: the last one holds what is left, the others a page size each. */
  ghost predicate ServesFeed(server: Server, per: int, feed: seq<Element>) {
    ServesPages(server, per, feed) && forall k: nat :: server(k * per).Some? ==> IsFull(server, per, feed, k)
  }

  lemma PageIsSlice(server: Server, per: int, feed: seq<Element>, k: nat)
    requires 1 <= per <= MAX_RESULTS_PER_PAGE && ServesPages(server, per, feed) && server(k * per).Some?
    ensures var es, low := ElementsOf(PageAt(server, k * per)), Min(k * per, |feed|);
            0 <= low && |es| <= PageSize(per, feed, k) && es == feed[low..low + |es|]
  {
    assert 0 <= k * per;
  }

  lemma PageSizesAdd(per: int, feed: seq<Element>, n: nat)
    requires per >= 1
    ensures 0 <= n * per && 0 <= Min(n * per, |feed|) <= |feed|
    ensures n == 0 ==> Min(n * per, |feed|) == 0
    ensures n > 0 ==> Min(n * per, |feed|) == Min((n - 1) * per, |feed|) + PageSize(per, feed, n - 1)
  {
    if n > 0 {
      assert (n - 1) * per + per == n * per;
    }
  }

  lemma LastPage(server: Server, per: int, n: nat)
    requires n > 0
    ensures ElementsOfPages(Pages(server, per, n)) ==
            ElementsOfPages(Pages(server, per, n - 1)) + ElementsOf(PageAt(server, (n - 1) * per))
  {
    hide ElementsOf, PageAt;
    var pages := Pages(server, per, n - 1);
    assert (pages + [PageAt(server, (n - 1) * per)])[..n - 1] == pages;
  }

  /** Two pieces that fit what is due of a feed make up all of it exactly when neither is short. */
  lemma CoverStep(feed: seq<Element>, before: seq<Element>, es: seq<Element>, low: int, size: int)
    requires |before| <= low && |es| <= size && low + size <= |feed|
    requires es == feed[low..low + |es|] && (|before| == low ==> before == feed[..low])
    ensures |before + es| <= low + size
    ensures |before + es| == low + size <==> |before| == low && |es| == size
    ensures |before + es| == low + size ==> before + es == feed[..low + size]
  {
  }

  /** The first `n` pages hold at most the first `n` page sizes of the feed, and all of that
      exactly when each of them is full. */
  lemma {:induction false} PagesCoverExactly(server: Server, per: int, feed: seq<Element>, n: nat)
    requires 1 <= per <= MAX_RESULTS_PER_PAGE && ServesPages(server, per, feed)
    requires forall k :: 0 <= k < n ==> server(k * per).Some?
    ensures var got, due := ElementsOfPages(Pages(server, per, n)), Min(n * per, |feed|);
            && 0 <= n * per && |got| <= due
            && (|got| == due <==> AllFull(server, per, feed, n))
            && (|got| == due ==> got == feed[..due])
  {
    hide ElementsOf, ServesPages, PageAt, Min, PageSize, AllFull, ElementsOfPages, Pages;
    PageSizesAdd(per, feed, n);
    AllFullStep(server, per, feed, n);
    if n == 0 {
      NothingFetched(server, per);
    } else {
      PagesCoverExactly(server, per, feed, n - 1);
      PageIsSlice(server, per, feed, n - 1);
      LastPage(server, per, n);
      var before, es := ElementsOfPages(Pages(server, per, n - 1)), ElementsOf(PageAt(server, (n - 1) * per));
      CoverStep(feed, before, es, Min((n - 1) * per, |feed|), PageSize(per, feed, n - 1));
    }
  }

  lemma TotalIsKnown(server: Server, per: int, feed: seq<Element>, start: int)
    requires ServesPages(server, per, feed) && |feed| <= MAX_TOTAL_RESULTS && 0 <= start && server(start).Some?
    ensures TotalOf(PageAt(server, start)) == Some(|feed|) && server(start).value.vulnerabilities.Some?
  {
    assert (|feed| as real).Floor == |feed|;
  }

  lemma FinalReachesEnd(server: Server, per: int, feed: seq<Element>, k: nat)
    requires 1 <= per && ServesPages(server, per, feed) && |feed| <= MAX_TOTAL_RESULTS && server(k * per).Some?
    ensures IsFinal(server, per, k * per) <==> feed == [] || k * per + per >= |feed|
  {
    hide ServesPages;
    assert 0 <= k * per;
    TotalIsKnown(server, per, feed, k * per);
  }

  /** The request was answered with a total between 0 and 100 million. */
  ghost predicate IsAnswered(server: Server, start: int) {
    && server(start).Some? && server(start).value.totalResults.Some?
    && 0.0 <= server(start).value.totalResults.value <= 100000000.0
  }

  ghost predicate AllAnswered(server: Server, per: int, n: nat) {
    forall k :: 0 <= k < n ==> IsAnswered(server, k * per)
  }

  /** The first `n` pages are a whole window: all answered, the last of them the first final one. */
  ghost predicate IsWholeWindow(server: Server, per: int, n: nat) {
    && n > 0 && AllAnswered(server, per, n)
    && IsFinal(server, per, (n - 1) * per) && forall k :: 0 <= k < n - 1 ==> !IsFinal(server, per, k * per)
  }

  lemma WholeIsAnswered(server: Server, per: int, n: nat)
    requires IsWholeWindow(server, per, n)
    ensures forall k :: 0 <= k < n ==> server(k * per).Some?
  {
    forall k | 0 <= k < n
      ensures server(k * per).Some?
    {
      assert IsAnswered(server, k * per);
    }
  }

  lemma WindowLength(server: Server, per: int, feed: seq<Element>, n: nat)
    requires 1 <= per <= MAX_RESULTS_PER_PAGE && ServesPages(server, per, feed) && |feed| <= MAX_TOTAL_RESULTS
    requires IsWholeWindow(server, per, n)
    ensures (n - 1) * per < |feed| <= n * per || (feed == [] && n == 1)
  {
    hide IsFinal, ServesPages, AllAnswered;
    WholeIsAnswered(server, per, n);
    FinalReachesEnd(server, per, feed, n - 1);
    assert (n - 1) * per + per == n * per;
    if n > 1 {
      assert !IsFinal(server, per, (n - 2) * per);
      FinalReachesEnd(server, per, feed, n - 2);
      assert (n - 2) * per + per == (n - 1) * per;
    }
  }

  /** A window that ends with its final page has handed over the feed, every record once and in
      order, exactly when each of its pages was full. The loop steps by the page size whatever
      came back, so a short page loses records although the window counts as done. */
  lemma WindowIsWholeExactly(server: Server, per: int, feed: seq<Element>, n: nat)
    requires 1 <= per <= MAX_RESULTS_PER_PAGE && ServesPages(server, per, feed) && |feed| <= MAX_TOTAL_RESULTS
    requires IsWholeWindow(server, per, n)
    ensures ElementsOfPages(Pages(server, per, n)) == feed <==> AllFull(server, per, feed, n)
    ensures ElementsOfPages(Pages(server, per, n)) != feed ==> |ElementsOfPages(Pages(server, per, n))| < |feed|
  {
    hide IsWholeWindow, ServesPages, AllFull, Pages, ElementsOfPages;
    WholeIsAnswered(server, per, n);
    WindowLength(server, per, feed, n);
    PagesCoverExactly(server, per, feed, n);
    assert feed[..|feed|] == feed;
  }

  /** With full pages, a window that ends with its final page has handed every record of the feed
      to ingest exactly once, in feed order, in the fewest pages that can hold it. */
  lemma WindowPartitionsFeed(server: Server, per: int, feed: seq<Element>, n: nat)
    requires 1 <= per <= MAX_RESULTS_PER_PAGE && ServesFeed(server, per, feed) && |feed| <= MAX_TOTAL_RESULTS
    requires IsWholeWindow(server, per, n)
    ensures ElementsOfPages(Pages(server, per, n)) == feed
    ensures (n - 1) * per < |feed| <= n * per || (feed == [] && n == 1)
  {
    hide IsWholeWindow, ServesPages, IsFull, Pages, ElementsOfPages;
    WholeIsAnswered(server, per, n);
    WindowLength(server, per, feed, n);
    WindowIsWholeExactly(server, per, feed, n);
  }

  // ---- the page loop ----

  function Limit(maxPages: int): (limit: nat)
    ensures limit > 0
  {
    if maxPages > 0 then maxPages else MAX_PAGES
  }

  /** Why a window was given up after `n` pages: each failure has its cause in the answer to
      the next request, in a page limit or offset limit reached, or in the database. */
  ghost predicate StopsBecause(reliable: bool, server: Server, per: int, n: nat, maxPages: int, status: SyncResult) {
    var body := server(n * per);
    match status
    case FetchError => n * per <= INT_MAX && body.None?
    case ProtocolError => n == Limit(maxPages) || n * per > INT_MAX || (body.Some? && TotalOf(body.value).None?)
    case IngestError => body.Some? && TotalOf(body.value).Some? && (body.value.vulnerabilities.None? || !reliable)
    case _ => false
  }

  /** Every request is answered from a fixed feed that fits the page limit. */
  ghost predicate ServesWhole(server: Server, per: int, feed: seq<Element>, maxPages: int) {
    && ServesFeed(server, per, feed) && |feed| <= MAX_TOTAL_RESULTS && |feed| <= Limit(maxPages) * per
    && forall start :: 0 <= start ==> server(start).Some?
  }

  /** With every request answered and a reliable database, a feed that fits the page limit is
      always synced to its end: no failure of a window has any other cause. */
  lemma HealthyWindowSucceeds(server: Server, per: int, feed: seq<Element>, n: nat, maxPages: int, status: SyncResult)
    requires 1 <= per <= MAX_RESULTS_PER_PAGE && ServesWhole(server, per, feed, maxPages) && n <= Limit(maxPages)
    requires forall k :: 0 <= k < n ==> !IsFinal(server, per, k * per)
    ensures !StopsBecause(true, server, per, n, maxPages, status)
  {
    hide IsFinal, ServesPages, IsFull, TotalOf;
    assert 0 <= n * per;
    TotalIsKnown(server, per, feed, n * per);
    if n > 0 {
      assert !IsFinal(server, per, (n - 1) * per);
      FinalReachesEnd(server, per, feed, n - 1);
      assert (n - 1) * per + per == n * per;
    }
  }

  /** What serving a window whole asks for, in figures: full pages, no unanswered request, and at
      most the pages allowed, 100000 when none are configured. */
  lemma ServedWhole(server: Server, per: int, feed: seq<Element>, maxPages: int)
    requires 1 <= per <= 2000 && ServesFeed(server, per, feed) && |feed| <= 100000000
    requires |feed| <= (if maxPages > 0 then maxPages else 100000) * per
    requires forall start :: 0 <= start ==> server(start).Some?
    ensures ServesWhole(server, per, feed, maxPages)
  {
    hide ServesFeed;
  }

  lemma HealthIsKnown(server: Server, per: int, n: nat, maxPages: int, status: SyncResult)
    requires 1 <= per <= MAX_RESULTS_PER_PAGE && n <= Limit(maxPages)
    requires forall k :: 0 <= k < n ==> !IsFinal(server, per, k * per)
    requires StopsBecause(true, server, per, n, maxPages, status)
    ensures forall feed :: !ServesWhole(server, per, feed, maxPages)
  {
    hide IsFinal, ServesWhole, StopsBecause;
    forall feed | ServesWhole(server, per, feed, maxPages)
      ensures false
    {
      HealthyWindowSucceeds(server, per, feed, n, maxPages, status);
    }
  }

  /** The cause is known, and with a reliable database it lies with the server. */
  ghost predicate Stopped(reliable: bool, server: Server, per: int, n: nat, maxPages: int, status: SyncResult) {
    && StopsBecause(reliable, server, per, n, maxPages, status)
    && (reliable ==> forall feed :: !ServesWhole(server, per, feed, maxPages))
  }

  lemma StopIsKnown(reliable: bool, server: Server, per: int, n: nat, maxPages: int, status: SyncResult)
    requires 1 <= per <= MAX_RESULTS_PER_PAGE && n <= Limit(maxPages)
    requires forall k :: 0 <= k < n ==> !IsFinal(server, per, k * per)
    requires StopsBecause(reliable, server, per, n, maxPages, status)
    ensures Stopped(reliable, server, per, n, maxPages, status)
  {
    hide IsFinal, ServesWhole, StopsBecause;
    if reliable {
      HealthIsKnown(server, per, n, maxPages, status);
    }
  }

  /** What the answer to request `n` makes of the window: a cause to stop, or a page that is
      final or not. */
  lemma NextAnswer(reliable: bool, server: Server, per: int, n: nat, maxPages: int)
    requires 1 <= per <= MAX_RESULTS_PER_PAGE && n < Limit(maxPages)
    requires forall k :: 0 <= k < n ==> !IsFinal(server, per, k * per)
    ensures var start, body := n * per, server(n * per);
            && (start > INT_MAX ==> Stopped(reliable, server, per, n, maxPages, ProtocolError))
            && (start <= INT_MAX && body.None? ==> Stopped(reliable, server, per, n, maxPages, FetchError))
            && (body.Some? && TotalOf(body.value).None? ==> Stopped(reliable, server, per, n, maxPages, ProtocolError))
            && (body.Some? && TotalOf(body.value).Some? ==>
                  && IsAnswered(server, start)
                  && (body.value.vulnerabilities.None? || !reliable ==>
                        Stopped(reliable, server, per, n, maxPages, IngestError))
                  && (IsFinal(server, per, start) <==>
                        TotalOf(body.value).value == 0 || start + per >= TotalOf(body.value).value))
  {
    hide ServesWhole;
    var start, body := n * per, server(n * per);
    if start > INT_MAX || (body.Some? && TotalOf(body.value).None?) {
      StopIsKnown(reliable, server, per, n, maxPages, ProtocolError);
    }
    if start <= INT_MAX && body.None? {
      StopIsKnown(reliable, server, per, n, maxPages, FetchError);
    }
    if body.Some? && TotalOf(body.value).Some? && (body.value.vulnerabilities.None? || !reliable) {
      StopIsKnown(reliable, server, per, n, maxPages, IngestError);
    }
  }

  lemma LimitReached(reliable: bool, server: Server, per: int, maxPages: int)
    requires 1 <= per <= MAX_RESULTS_PER_PAGE
    requires forall k :: 0 <= k < Limit(maxPages) ==> !IsFinal(server, per, k * per)
    ensures Stopped(reliable, server, per, Limit(maxPages), maxPages, ProtocolError)
  {
    hide IsFinal, ServesWhole;
    StopIsKnown(reliable, server, per, Limit(maxPages), maxPages, ProtocolError);
  }

  lemma PagesGrow(server: Server, per: int, n: nat)
    ensures Pages(server, per, 0) == []
    ensures Pages(server, per, n + 1) == Pages(server, per, n) + [PageAt(server, n * per)]
  {
  }

  lemma NoPages(schema: Schema, t: Tables)
    ensures ApplyPages(schema, t, []) == t
  {
  }

  lemma NothingKept(reliable: bool)
    ensures PagesKept(reliable, [], [])
  {
  }

  lemma OneMoreKept(reliable: bool, pages: seq<Page>, seen: seq<Page>, page: Page, kept: Page)
    requires PagesKept(reliable, pages, seen) && PageKept(reliable, page, kept)
    ensures PagesKept(reliable, pages + [page], seen + [kept])
  {
    hide PageKept;
  }

  lemma OneMorePage(schema: Schema, t: Tables, pages: seq<Page>, page: Page)
    ensures ApplyPages(schema, t, pages + [page]) ==
            ApplyElements(schema, ApplyPages(schema, t, pages), ElementsOf(page))
  {
    hide ElementsOf, ApplyElements;
    ApplyConcat(schema, t, ElementsOfPages(pages), ElementsOf(page));
    assert (pages + [page])[..|pages|] == pages;
  }

  method SyncWindow(db: NvdDb, resultsPerPage: int, server: Server, endDate: string, maxPages: int)
    returns (status: SyncResult, counts: SyncCounts, ghost seen: seq<Page>)
    modifies db
    ensures var per, n := PerPage(resultsPerPage), counts.pagesFetched;
            && n <= Limit(maxPages)
            && PagesKept(db.reliable, Pages(server, per, n), seen) && |seen| == n
            && db.tables == ApplyPages(db.schema, old(db.tables), seen)
            && (forall k :: 0 <= k < n - 1 ==> !IsFinal(server, per, k * per))
            && (status == SyncOk <==> IsWholeWindow(server, per, n))
            && (status != SyncInvalidArg ==>
                  db.totalRecords == old(db.totalRecords) + counts.cveIngested + counts.cveSkipped)
    ensures db.watermark == if status == SyncOk then Some(endDate) else old(db.watermark)
    ensures status == SyncInvalidArg <==> endDate == []
    ensures status == FetchError || status == ProtocolError || status == IngestError ==>
              StopsBecause(db.reliable, server, PerPage(resultsPerPage), counts.pagesFetched, maxPages, status)
    ensures db.reliable && endDate != [] ==>
              status == SyncOk || forall feed :: !ServesWhole(server, PerPage(resultsPerPage), feed, maxPages)
  {
    hide ApplyPages, Pages, PageKept, PagesKept, StopsBecause, IsFinal, IsAnswered, ServesWhole;
    seen := [];
    counts := SyncCounts(0, 0, 0);
    NoPages(db.schema, db.tables);
    NothingKept(db.reliable);
    PagesGrow(server, PerPage(resultsPerPage), 0);
    if endDate == [] {
      return SyncInvalidArg, counts, seen;
    }
    var per := PerPage(resultsPerPage);
    var effectiveMax := Limit(maxPages);
    var start := 0;
    for page := 0 to effectiveMax
      invariant counts.pagesFetched == page && start == page * per
      invariant PagesKept(db.reliable, Pages(server, per, page), seen) && |seen| == page
      invariant db.tables == ApplyPages(db.schema, old(db.tables), seen)
      invariant AllAnswered(server, per, page) && forall k :: 0 <= k < page ==> !IsFinal(server, per, k * per)
      invariant db.watermark == old(db.watermark)
      invariant db.totalRecords == old(db.totalRecords) + counts.cveIngested + counts.cveSkipped
    {
      NextAnswer(db.reliable, server, per, page, maxPages);
      if start > INT_MAX {
        return ProtocolError, counts, seen;
      }
      var body := server(start);
      if body.None? {
        return FetchError, counts, seen;
      }
      var total := TotalOf(body.value);
      if total.None? {
        return ProtocolError, counts, seen;
      }
      var isLast := total.value == 0 || start + per >= total.value;
      var ingested, pageCounts, kept := db.IngestPage(body.value, endDate, isLast);
      if ingested != Ok {
        return IngestError, counts, seen;
      }
      OneMorePage(db.schema, old(db.tables), seen, kept);
      PagesGrow(server, per, page);
      OneMoreKept(db.reliable, Pages(server, per, page), seen, body.value, kept);
      seen := seen + [kept];
      counts := SyncCounts(counts.pagesFetched + 1, counts.cveIngested + pageCounts.cveIngested,
                           counts.cveSkipped + pageCounts.cveSkipped);
      if isLast {
        return SyncOk, counts, seen;
      }
      start := start + per;
    }
    LimitReached(db.reliable, server, per, maxPages);
    return ProtocolError, counts, seen;
  }

  /** A window abandoned after some pages, and then the window that takes its place, which may
      end later and carry newer states of the same records: what the first left behind cannot
      be told once the second is through. */
  lemma AbandonedWindowIsRepaired(schema: Schema, t: Tables, abandoned: seq<Page>, server: Server, per: int,
                                  feed: seq<Element>, n: nat)
    requires 1 <= per <= MAX_RESULTS_PER_PAGE && ServesFeed(server, per, feed) && |feed| <= MAX_TOTAL_RESULTS
    requires IsWholeWindow(server, per, n)
    requires IsSuperseded(schema, ElementsOfPages(abandoned), feed)
    ensures ApplyPages(schema, ApplyPages(schema, t, abandoned), Pages(server, per, n)) ==
            ApplyElements(schema, t, feed)
  {
    hide ApplyElements, IsWholeWindow, ServesFeed, IsSuperseded;
    WindowPartitionsFeed(server, per, feed, n);
    SupersededIsAbsorbed(schema, t, ElementsOfPages(abandoned), feed);
  }
}
