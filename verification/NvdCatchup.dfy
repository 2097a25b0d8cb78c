/** The catch-up driver: contiguous windows from the stored watermark to now, each committed
    before the next begins, and what any sequence of such runs does to the watermark. */
module NvdCatchup {
  import opened Wrappers
  import opened Calendar
  import opened Timestamp
  import opened NvdIngest
  import opened NvdReplay
  import opened NvdSync

  const WINDOW_DAYS := 120
  const BULK_WINDOW_DAYS := 30
  const MAX_WINDOWS := 1000
  const WATERMARK_MAX_LEN := 40

  /** 1999-01-01T00:00:00.000Z. */
  const EPOCH_START := Instant(10592, 0)

  datatype CatchupResult = CatchupOk | BadArgument | DbFailure | MalformedWatermark | SyncFailure | TooManyWindows

  datatype CatchupCounts = CatchupCounts(windowsCompleted: nat, pagesFetched: nat, cveIngested: nat, cveSkipped: nat)

  datatype Window = Window(start: Instant, end: Instant)

  predicate Earlier(a: Instant, b: Instant) {
    InstantCompare(a, b) < 0
  }

  // ---- what a run may do ----

  /** The instant a stored watermark resumes from; none means the initial bulk load. */
  ghost predicate ResumesAt(watermark: Option<string>, cursor: Instant) {
    if watermark.None? || watermark.value == [] then cursor == EPOCH_START
    else Reads(Clip(watermark.value, WATERMARK_MAX_LEN), cursor)
  }

  function WindowDays(watermark: Option<string>): (days: int)
    ensures days > 0
  {
    if watermark.None? || watermark.value == [] then BULK_WINDOW_DAYS else WINDOW_DAYS
  }

  function WindowEnd(start: Instant, days: int, now: Instant): Instant {
    if Earlier(AddDays(start, days), now) then AddDays(start, days) else now
  }

  /** Where the windows have got to. */
  function Tip(cursor: Instant, windows: seq<Window>): Instant {
    if windows == [] then cursor else windows[|windows| - 1].end
  }

  /** Window k starts where the one before it ended, is not empty, and ends after `days` days or
      at `now`, whichever comes first. */
  ghost predicate Follows(cursor: Instant, windows: seq<Window>, k: nat, days: int, now: Instant)
    requires k < |windows|
  {
    && windows[k].start == Tip(cursor, windows[..k])
    && Earlier(windows[k].start, windows[k].end)
    && windows[k].end == WindowEnd(windows[k].start, days, now)
  }

  ghost predicate Chained(cursor: Instant, windows: seq<Window>, days: int, now: Instant) {
    forall k :: 0 <= k < |windows| ==> Follows(cursor, windows, k, days, now)
  }

  /** One catch-up run, from the stored watermark `before` to the stored watermark `after`. */
  datatype Run = Run(before: Option<string>, after: Option<string>, result: CatchupResult,
                     cursor: Instant, now: Instant, windows: seq<Window>)

  ghost predicate IsRun(r: Run) {
    && InRange(r.cursor) && InRange(r.now)
    && Chained(r.cursor, r.windows, WindowDays(r.before), r.now)
    && (r.windows == [] ==> r.after == r.before)
    && (r.windows != [] ==> InRange(Tip(r.cursor, r.windows)) && r.after == Some(Canonical(Tip(r.cursor, r.windows))))
    && (r.result == BadArgument || r.result == DbFailure || r.result == MalformedWatermark ==> r.windows == [])
    && (r.windows != [] ==> ResumesAt(r.before, r.cursor))
    && (r.result == CatchupOk ==>
          ResumesAt(r.before, r.cursor) && !Earlier(Tip(r.cursor, r.windows), r.now) &&
          (Earlier(r.cursor, r.now) ==> Tip(r.cursor, r.windows) == r.now))
    && (r.result == TooManyWindows ==> |r.windows| == MAX_WINDOWS && Earlier(Tip(r.cursor, r.windows), r.now))
    && |r.windows| <= MAX_WINDOWS
  }

  // ---- the driver as it runs ----

  /** What the server answers, by window start, window end and start index. */
  type Feed = (string, string, int) -> Option<Page>

  function InWindow(feed: Feed, start: string, end: string): Server {
    i => feed(start, end, i)
  }

  ghost function ServerOf(feed: Feed, w: Window): Server {
    if InRange(w.start) && InRange(w.end) then InWindow(feed, Canonical(w.start), Canonical(w.end)) else i => None
  }

  /** The window was given up with `partial` ingested, for one of the known causes; with a
      reliable database the cause lies with the server. */
  ghost predicate WindowStopped(reliable: bool, server: Server, per: int, partial: seq<Page>) {
    && (exists n: nat, status :: PagesKept(reliable, Pages(server, per, n), partial) &&
                                 StopsBecause(reliable, server, per, n, 0, status))
    && (reliable ==> forall records :: !ServesWhole(server, per, records, 0))
  }

  /** Every window that may be asked for is answered whole. */
  ghost predicate ServesEveryWindow(feed: Feed, per: int) {
    forall w: Window :: InRange(w.start) && InRange(w.end) ==>
      exists records :: ServesWhole(ServerOf(feed, w), per, records, 0)
  }

  /** Every window was fetched to its final page; ns[k] pages for window k. */
  ghost predicate AllWhole(feed: Feed, per: int, windows: seq<Window>, ns: seq<nat>) {
    |ns| == |windows| && forall k :: 0 <= k < |windows| ==> IsWholeWindow(ServerOf(feed, windows[k]), per, ns[k])
  }

  /** All pages of all windows, in the order they were committed. */
  ghost function WindowPages(feed: Feed, per: int, windows: seq<Window>, ns: seq<nat>): seq<Page>
    requires |ns| == |windows|
  {
    if windows == [] then []
    else
      var last := |windows| - 1;
      WindowPages(feed, per, windows[..last], ns[..last]) + Pages(ServerOf(feed, windows[last]), per, ns[last])
  }

  /** The windows were fetched whole, and `committed` is what was ingested of their pages. */
  ghost predicate AreCommitted(reliable: bool, feed: Feed, per: int, windows: seq<Window>, ns: seq<nat>,
                               committed: seq<Page>) {
    AllWhole(feed, per, windows, ns) && PagesKept(reliable, WindowPages(feed, per, windows, ns), committed)
  }

  lemma WindowPagesSnoc(feed: Feed, per: int, windows: seq<Window>, ns: seq<nat>, w: Window, n: nat)
    requires AllWhole(feed, per, windows, ns) && IsWholeWindow(ServerOf(feed, w), per, n)
    ensures WindowPages(feed, per, windows + [w], ns + [n]) ==
            WindowPages(feed, per, windows, ns) + Pages(ServerOf(feed, w), per, n)
    ensures AllWhole(feed, per, windows + [w], ns + [n])
  {
    hide ServerOf, Pages, IsWholeWindow;
    assert (windows + [w])[..|windows|] == windows && (ns + [n])[..|ns|] == ns;
  }

  lemma CommitOneMore(reliable: bool, feed: Feed, per: int, windows: seq<Window>, ns: seq<nat>, committed: seq<Page>,
                      w: Window, n: nat, seen: seq<Page>)
    requires AreCommitted(reliable, feed, per, windows, ns, committed) && IsWholeWindow(ServerOf(feed, w), per, n)
    requires PagesKept(reliable, Pages(ServerOf(feed, w), per, n), seen)
    ensures AreCommitted(reliable, feed, per, windows + [w], ns + [n], committed + seen)
  {
    hide PageKept, ServerOf, Pages, IsWholeWindow, WindowPages, AllWhole;
    WindowPagesSnoc(feed, per, windows, ns, w, n);
  }

  /** Between two instants that can be written, every instant can be written: formatting a
      window bound never fails. */
  lemma BetweenIsInRange(a: Instant, b: Instant, c: Instant)
    requires InRange(a) && InRange(c) && a.days <= b.days <= c.days && (b.ms == a.ms || b.ms == c.ms)
    ensures InRange(b)
  {
    hide CivilFromDays, DaysFromCivil;
    var s, t, u := CivilFromDays(a.days), CivilFromDays(b.days), CivilFromDays(c.days);
    DayRoundTrip(a.days);
    DayRoundTrip(b.days);
    DayRoundTrip(c.days);
    DayNumbersFollowDates(t, s);
    DayNumbersFollowDates(u, t);
  }

  /** Syncs the next window: at most `days` long and never past `now`. */
  method SyncNextWindow(db: NvdDb, resultsPerPage: int, cursor: Instant, days: int, now: Instant, feed: Feed)
    returns (ok: bool, end: Instant, counts: SyncCounts, ghost seen: seq<Page>)
    requires InRange(cursor) && InRange(now) && Earlier(cursor, now) && days > 0
    modifies db
    ensures end == WindowEnd(cursor, days, now) && InRange(end)
    ensures db.watermark == if ok then Some(Canonical(end)) else old(db.watermark)
    ensures var server, per := ServerOf(feed, Window(cursor, end)), PerPage(resultsPerPage);
            && PagesKept(db.reliable, Pages(server, per, counts.pagesFetched), seen) && |seen| == counts.pagesFetched
            && db.tables == ApplyPages(db.schema, old(db.tables), seen)
            && (ok ==> IsWholeWindow(server, per, counts.pagesFetched))
            && (!ok ==> WindowStopped(db.reliable, server, per, seen))
  {
    hide CivilFromDays, DaysFromCivil, Canonical, Reads, ApplyPages, Pages, PagesKept, IsFinal, StopsBecause,
         ServesWhole;
    var startText := FormatInstant(cursor);
    var candidate := AddDays(cursor, days);
    end := if Earlier(candidate, now) then candidate else now;
    BetweenIsInRange(cursor, end, now);
    var endText := FormatInstant(end);
    CanonicalReads(end);
    var server, status := InWindow(feed, startText.value, endText.value), SyncOk;
    status, counts, seen := SyncWindow(db, resultsPerPage, server, endText.value, 0);
    ok := status == SyncOk;
  }

  lemma NothingCommitted(feed: Feed, per: int, reliable: bool)
    ensures AreCommitted(reliable, feed, per, [], [], [])
  {
  }

  /** A window given up with a reliable database was not served whole. */
  lemma GivenUp(reliable: bool, feed: Feed, per: int, w: Window, partial: seq<Page>)
    requires WindowStopped(reliable, ServerOf(feed, w), per, partial) && InRange(w.start) && InRange(w.end)
    ensures reliable ==> !ServesEveryWindow(feed, per)
  {
    hide StopsBecause, ServesWhole, ServerOf, Pages, PagesKept, InRange;
  }

  lemma EmptyRun(watermark: Option<string>, result: CatchupResult, cursor: Instant, now: Instant)
    requires result != CatchupOk && result != TooManyWindows && InRange(cursor) && InRange(now)
    ensures IsRun(Run(watermark, watermark, result, cursor, now, [])) && Tip(cursor, []) == cursor
  {
    hide InRange, Canonical, ResumesAt;
  }

  lemma StoppedByCap(r: Run)
    requires IsRun(r) && r.result == SyncFailure
    requires |r.windows| == MAX_WINDOWS && Earlier(Tip(r.cursor, r.windows), r.now)
    ensures IsRun(r.(result := TooManyWindows))
  {
    hide InRange, Canonical, ResumesAt, Chained;
  }

  lemma CaughtUp(r: Run)
    requires IsRun(r) && r.result == SyncFailure && ResumesAt(r.before, r.cursor)
    requires !Earlier(Tip(r.cursor, r.windows), r.now)
    requires r.windows != [] ==> !Earlier(r.now, Tip(r.cursor, r.windows))
    ensures IsRun(r.(result := CatchupOk))
  {
    hide InRange, Canonical, ResumesAt, Chained;
  }

  lemma FollowsStill(cursor: Instant, windows: seq<Window>, k: nat, days: int, now: Instant, w: Window)
    requires k <= |windows|
    requires if k < |windows| then Follows(cursor, windows, k, days, now)
             else w.start == Tip(cursor, windows) && Earlier(w.start, w.end) && w.end == WindowEnd(w.start, days, now)
    ensures Follows(cursor, windows + [w], k, days, now)
  {
    hide Earlier, WindowEnd, Tip;
    assert (windows + [w])[..k] == windows[..k];
    if k == |windows| {
      assert windows[..k] == windows;
    }
  }

  lemma ChainedOneMore(cursor: Instant, windows: seq<Window>, days: int, now: Instant, w: Window)
    requires Chained(cursor, windows, days, now)
    requires w.start == Tip(cursor, windows) && Earlier(w.start, w.end) && w.end == WindowEnd(w.start, days, now)
    ensures Chained(cursor, windows + [w], days, now) && Tip(cursor, windows + [w]) == w.end
  {
    hide Earlier, WindowEnd, Follows;
    forall k | 0 <= k < |windows + [w]|
      ensures Follows(cursor, windows + [w], k, days, now)
    {
      FollowsStill(cursor, windows, k, days, now, w);
    }
  }

  /** Without its last window a chain is still one, and the last follows it. */
  lemma ChainedFront(cursor: Instant, windows: seq<Window>, days: int, now: Instant)
    requires Chained(cursor, windows, days, now) && windows != []
    ensures var n := |windows| - 1;
            Chained(cursor, windows[..n], days, now) && Follows(cursor, windows, n, days, now)
  {
    hide Earlier, WindowEnd, Tip;
    var front := windows[..|windows| - 1];
    forall k | 0 <= k < |front|
      ensures Follows(cursor, front, k, days, now)
    {
      assert Follows(cursor, windows, k, days, now);
      assert front[..k] == windows[..k];
    }
  }

  /** A window that is due is not empty and does not reach beyond `now`. */
  lemma DueWindow(start: Instant, days: int, now: Instant)
    requires days > 0 && Earlier(start, now)
    ensures var end := WindowEnd(start, days, now); Earlier(start, end) && !Earlier(now, end)
  {
  }

  /** Committing one more window keeps a run a run. */
  lemma ExtendRun(r: Run, end: Instant, after: Option<string>)
    requires IsRun(r) && r.result == SyncFailure && ResumesAt(r.before, r.cursor) && |r.windows| < MAX_WINDOWS
    requires var tip := Tip(r.cursor, r.windows);
             Earlier(tip, r.now) && end == WindowEnd(tip, WindowDays(r.before), r.now)
    requires InRange(end) && after == Some(Canonical(end))
    ensures var w := Window(Tip(r.cursor, r.windows), end);
            IsRun(r.(windows := r.windows + [w], after := after)) && Tip(r.cursor, r.windows + [w]) == end
    ensures !Earlier(r.now, end)
  {
    hide InRange, Canonical, ResumesAt, Chained, Earlier, WindowEnd;
    var w := Window(Tip(r.cursor, r.windows), end);
    DueWindow(w.start, WindowDays(r.before), r.now);
    ChainedOneMore(r.cursor, r.windows, WindowDays(r.before), r.now, w);
  }

  lemma EpochIsInRange()
    ensures InRange(EPOCH_START) && CivilFromDays(EPOCH_START.days) == Date(1999, 1, 1) && EPOCH_START.ms == 0
  {
    assert DaysFromCivil(1999, 1, 1) == 10592;
    DateRoundTrip(Date(1999, 1, 1));
  }

  /** The cursor and the window length to start with: the stored watermark, or the epoch. */
  method StartingPoint(watermark: Option<string>) returns (cursor: Option<Instant>, windowDays: int)
    ensures windowDays == WindowDays(watermark) == if watermark in {None, Some("")} then 30 else 120
    ensures cursor.Some? ==> InRange(cursor.value) && ResumesAt(watermark, cursor.value)
    ensures cursor.None? ==> forall c :: !ResumesAt(watermark, c)
  {
    hide CivilFromDays, DaysFromCivil, Canonical, Reads, InRange;
    EpochIsInRange();
    if watermark.None? || watermark.value == [] {
      return Some(EPOCH_START), BULK_WINDOW_DAYS;
    }
    cursor := ParseInstant(Clip(watermark.value, WATERMARK_MAX_LEN));
    if cursor.Some? {
      ReadableHasCanonicalForm(Clip(watermark.value, WATERMARK_MAX_LEN), cursor.value);
    }
    return cursor, WINDOW_DAYS;
  }

  /** One run. What it leaves in the tables is every page of every committed window and, only
      if a window failed, some pages of that window; the watermark covers the former alone.
      Unless the database is reliable a page may lack records that could not be bound. */
  method Catchup(db: NvdDb, resultsPerPage: int, now: string, feed: Feed)
    returns (result: CatchupResult, counts: CatchupCounts, ghost run: Run, ghost ns: seq<nat>, ghost pass: Pass)
    modifies db
    ensures IsRun(run) && run.before == old(db.watermark) && run.after == db.watermark && run.result == result
    ensures result == BadArgument <==> forall i :: !Reads(now, i)
    ensures result != BadArgument ==> Reads(now, run.now)
    ensures result == MalformedWatermark ==> forall c :: !ResumesAt(old(db.watermark), c)
    ensures result == DbFailure ==> !db.reliable
    ensures result == SyncFailure ==>
              var tip := Tip(run.cursor, run.windows);
              && |run.windows| < MAX_WINDOWS && Earlier(tip, run.now)
              && var w := Window(tip, WindowEnd(tip, WindowDays(run.before), run.now));
                 WindowStopped(db.reliable, ServerOf(feed, w), PerPage(resultsPerPage), pass.abandoned)
    ensures db.reliable && ServesEveryWindow(feed, PerPage(resultsPerPage)) &&
            result != BadArgument && result != MalformedWatermark ==>
              result == CatchupOk || result == TooManyWindows
    ensures counts.windowsCompleted == |run.windows| && counts.pagesFetched == |pass.committed|
    ensures AreCommitted(db.reliable, feed, PerPage(resultsPerPage), run.windows, ns, pass.committed)
    ensures db.tables == AfterPasses(db.schema, old(db.tables), [pass])
    ensures result != SyncFailure ==> pass.abandoned == []
  {
    hide CivilFromDays, DaysFromCivil, Canonical, Reads, IsRun, Chained, InRange, ApplyPages, AreCommitted,
         IsWholeWindow, WindowStopped, ServerOf, Pages, PagesKept, ServesEveryWindow, AfterPasses,
         Earlier, WindowEnd, ResumesAt, WindowDays, PerPage, Clip, Tip;
    counts := CatchupCounts(0, 0, 0, 0);
    ns, pass := [], Pass([], []);
    ghost var per := PerPage(resultsPerPage);
    EpochIsInRange();
    EmptyRun(db.watermark, BadArgument, EPOCH_START, EPOCH_START);
    NothingCommitted(feed, per, db.reliable);
    EmptyPass(db.schema, db.tables);
    run := Run(db.watermark, db.watermark, BadArgument, EPOCH_START, EPOCH_START, []);
    var nowInstant := ParseInstant(now);
    if nowInstant.None? {
      return BadArgument, counts, run, ns, pass;
    }
    ReadableHasCanonicalForm(now, nowInstant.value);
    EmptyRun(db.watermark, DbFailure, EPOCH_START, nowInstant.value);
    EmptyRun(db.watermark, MalformedWatermark, EPOCH_START, nowInstant.value);
    run := run.(now := nowInstant.value);
    var readFails: bool := *;
    if readFails && !db.reliable {
      return DbFailure, counts, run.(result := DbFailure), ns, pass;
    }
    var start, windowDays := StartingPoint(db.watermark);
    if start.None? {
      return MalformedWatermark, counts, run.(result := MalformedWatermark), ns, pass;
    }
    var cursor := start.value;
    EmptyRun(db.watermark, SyncFailure, cursor, nowInstant.value);
    run := run.(cursor := cursor, result := SyncFailure);
    while Earlier(cursor, nowInstant.value)
      invariant run.before == old(db.watermark) && run.after == db.watermark && run.now == nowInstant.value
      invariant InRange(cursor) && InRange(nowInstant.value) && cursor == Tip(run.cursor, run.windows)
      invariant IsRun(run) && run.result == SyncFailure && ResumesAt(run.before, run.cursor)
      invariant windowDays == WindowDays(run.before)
      invariant counts.windowsCompleted == |run.windows| <= MAX_WINDOWS && counts.pagesFetched == |pass.committed|
      invariant run.windows != [] ==> !Earlier(nowInstant.value, cursor)
      invariant AreCommitted(db.reliable, feed, per, run.windows, ns, pass.committed) && pass.abandoned == []
      invariant db.tables == AfterPasses(db.schema, old(db.tables), [pass])
      decreases MAX_WINDOWS - |run.windows|
    {
      if counts.windowsCompleted >= MAX_WINDOWS {
        StoppedByCap(run);
        return TooManyWindows, counts, run.(result := TooManyWindows), ns, pass;
      }
      var ok, end, c, seen := SyncNextWindow(db, resultsPerPage, cursor, windowDays, nowInstant.value, feed);
      ghost var w, n := Window(cursor, end), c.pagesFetched;
      PassGrows(db.schema, old(db.tables), pass.committed, seen);
      if !ok {
        GivenUp(db.reliable, feed, per, w, seen);
        return SyncFailure, counts, run, ns, Pass(pass.committed, seen);
      }
      counts := CatchupCounts(counts.windowsCompleted + 1, counts.pagesFetched + c.pagesFetched,
                              counts.cveIngested + c.cveIngested, counts.cveSkipped + c.cveSkipped);
      ExtendRun(run, end, db.watermark);
      CommitOneMore(db.reliable, feed, per, run.windows, ns, pass.committed, w, n, seen);
      pass := Pass(pass.committed + seen, []);
      run := run.(windows := run.windows + [w], after := db.watermark);
      ns := ns + [n];
      cursor := end;
    }
    CaughtUp(run);
    return CatchupOk, counts, run.(result := CatchupOk), ns, pass;
  }

  // ---- what a caught-up database holds ----

  /** The records of each window, one after the other. */
  function Records(feeds: seq<seq<Element>>): seq<Element> {
    if feeds == [] then [] else Records(feeds[..|feeds| - 1]) + feeds[|feeds| - 1]
  }

  /** While window k was synced the server answered from the fixed records feeds[k], with pages
      of any length up to the page size. */
  ghost predicate ServesWindows(feed: Feed, per: int, windows: seq<Window>, ns: seq<nat>, feeds: seq<seq<Element>>) {
    |feeds| == |windows| == |ns| &&
    forall k :: 0 <= k < |windows| ==>
      ServesPages(ServerOf(feed, windows[k]), per, feeds[k]) && |feeds[k]| <= MAX_TOTAL_RESULTS
  }

  ghost predicate AllPagesFull(feed: Feed, per: int, windows: seq<Window>, ns: seq<nat>, feeds: seq<seq<Element>>)
    requires |feeds| == |windows| == |ns|
  {
    forall k :: 0 <= k < |windows| ==> AllFull(ServerOf(feed, windows[k]), per, feeds[k], ns[k])
  }

  lemma NoWindowIsShort(feed: Feed, per: int)
    ensures AllPagesFull(feed, per, [], [], [])
  {
  }

  lemma NoElements()
    ensures ElementsOfPages([]) == []
  {
  }

  lemma AllPagesFullStep(feed: Feed, per: int, windows: seq<Window>, ns: seq<nat>, feeds: seq<seq<Element>>)
    requires |feeds| == |windows| == |ns| && windows != []
    ensures var last := |windows| - 1;
            AllPagesFull(feed, per, windows, ns, feeds) <==>
            && AllPagesFull(feed, per, windows[..last], ns[..last], feeds[..last])
            && AllFull(ServerOf(feed, windows[last]), per, feeds[last], ns[last])
  {
    hide AllFull, ServerOf;
    var last := |windows| - 1;
    if AllPagesFull(feed, per, windows[..last], ns[..last], feeds[..last]) {
      forall k | 0 <= k < last
        ensures AllFull(ServerOf(feed, windows[k]), per, feeds[k], ns[k])
      {
        assert AllFull(ServerOf(feed, windows[..last][k]), per, feeds[..last][k], ns[..last][k]);
      }
    }
  }

  /** The pages behind the watermark are the records of the committed windows, each once and in
      order, exactly when all those pages were full; otherwise some records are missing, and the
      watermark has passed them all the same. */
  lemma {:induction false} WatermarkCoversExactly(feed: Feed, per: int, windows: seq<Window>, ns: seq<nat>,
                                                  feeds: seq<seq<Element>>)
    requires 1 <= per <= MAX_RESULTS_PER_PAGE
    requires AllWhole(feed, per, windows, ns) && ServesWindows(feed, per, windows, ns, feeds)
    ensures var got := ElementsOfPages(WindowPages(feed, per, windows, ns));
            && (got == Records(feeds) <==> AllPagesFull(feed, per, windows, ns, feeds))
            && (got != Records(feeds) ==> |got| < |Records(feeds)|)
  {
    hide ServesPages, IsFinal, ServerOf, Pages, ElementsOfPages, AllPagesFull, AllFull;
    if windows != [] {
      var last := |windows| - 1;
      assert AllWhole(feed, per, windows[..last], ns[..last]);
      assert ServesWindows(feed, per, windows[..last], ns[..last], feeds[..last]);
      WatermarkCoversExactly(feed, per, windows[..last], ns[..last], feeds[..last]);
      var server := ServerOf(feed, windows[last]);
      WindowIsWholeExactly(server, per, feeds[last], ns[last]);
      ElementsOfPagesConcat(WindowPages(feed, per, windows[..last], ns[..last]), Pages(server, per, ns[last]));
      AllPagesFullStep(feed, per, windows, ns, feeds);
    } else {
      NoElements();
      NoWindowIsShort(feed, per);
    }
  }

  // ---- any sequence of runs ----

  ghost predicate AreRuns(runs: seq<Run>) {
    && (forall i :: 0 <= i < |runs| ==> IsRun(runs[i]))
    && (forall i :: 0 <= i < |runs| - 1 ==> runs[i].after == runs[i + 1].before)
  }

  function AllWindows(runs: seq<Run>): seq<Window> {
    if runs == [] then [] else AllWindows(runs[..|runs| - 1]) + runs[|runs| - 1].windows
  }

  /** At most 120 days long. */
  predicate IsShort(w: Window) {
    w.end.days < w.start.days + 120 || (w.end.days == w.start.days + 120 && w.end.ms <= w.start.ms)
  }

  /** No gap and no overlap: every window starts where its predecessor ended. */
  ghost predicate Contiguous(cursor: Instant, windows: seq<Window>) {
    forall k :: 0 <= k < |windows| ==>
      windows[k].start == Tip(cursor, windows[..k]) && Earlier(windows[k].start, windows[k].end) && IsShort(windows[k])
  }

  lemma ContiguousConcat(cursor: Instant, a: seq<Window>, b: seq<Window>)
    requires Contiguous(cursor, a) && Contiguous(Tip(cursor, a), b)
    ensures Contiguous(cursor, a + b) && Tip(cursor, a + b) == Tip(Tip(cursor, a), b)
  {
    hide IsShort, Earlier;
    var ws := a + b;
    forall k | 0 <= k < |ws|
      ensures ws[k].start == Tip(cursor, ws[..k])
    {
      if k < |a| {
        assert ws[..k] == a[..k];
      } else {
        assert ws[..k] == a + b[..k - |a|];
        assert b[k - |a|].start == Tip(Tip(cursor, a), b[..k - |a|]);
      }
    }
  }

  lemma RunIsContiguous(r: Run)
    requires IsRun(r)
    ensures Contiguous(r.cursor, r.windows)
  {
    hide InRange, Canonical, ResumesAt;
    forall k | 0 <= k < |r.windows|
      ensures r.windows[k].start == Tip(r.cursor, r.windows[..k]) && Earlier(r.windows[k].start, r.windows[k].end)
      ensures IsShort(r.windows[k])
    {
      assert Follows(r.cursor, r.windows, k, WindowDays(r.before), r.now);
    }
  }

  /** The next run resumes exactly at the last committed window's end. */
  lemma ResumesAtTip(r: Run, cursor: Instant)
    requires IsRun(r) && r.windows != [] && ResumesAt(r.after, cursor)
    ensures cursor == Tip(r.cursor, r.windows)
  {
    hide Reads, Canonical, InRange;
    var tip := Tip(r.cursor, r.windows);
    CanonicalReads(tip);
    ReadsIsUnambiguous(Canonical(tip), cursor, tip);
  }

  lemma ResumesAtOnePlace(watermark: Option<string>, c: Instant, d: Instant)
    requires ResumesAt(watermark, c) && ResumesAt(watermark, d)
    ensures c == d
  {
    hide Reads;
    if watermark.Some? && watermark.value != [] {
      ReadsIsUnambiguous(Clip(watermark.value, WATERMARK_MAX_LEN), c, d);
    }
  }

  lemma NoWindows(cursor: Instant)
    ensures Contiguous(cursor, [])
  {
  }

  lemma ResumesAtItsTip(r: Run)
    requires IsRun(r) && r.windows != []
    ensures ResumesAt(r.after, Tip(r.cursor, r.windows))
  {
    hide Reads, Canonical;
    CanonicalReads(Tip(r.cursor, r.windows));
  }

  /** Over any sequence of runs, whatever failed in each, the committed windows tile time from
      the first cursor without gap or overlap, none longer than 120 days, and the stored
      watermark resumes exactly where they end. */
  lemma {:induction false} RunsTileTime(runs: seq<Run>, cursor: Instant)
    requires AreRuns(runs) && runs != [] && ResumesAt(runs[0].before, cursor)
    ensures Contiguous(cursor, AllWindows(runs))
    ensures ResumesAt(runs[|runs| - 1].after, Tip(cursor, AllWindows(runs)))
  {
    hide Reads, Canonical, InRange, Chained, Contiguous, ResumesAt;
    var last := runs[|runs| - 1];
    var before := runs[..|runs| - 1];
    var tip := cursor;
    NoWindows(cursor);
    if before != [] {
      RunsTileTime(before, cursor);
      tip := Tip(cursor, AllWindows(before));
    }
    assert ResumesAt(last.before, tip);
    RunIsContiguous(last);
    if last.windows != [] {
      ResumesAtOnePlace(last.before, tip, last.cursor);
      ResumesAtItsTip(last);
    } else {
      NoWindows(tip);
    }
    ContiguousConcat(cursor, AllWindows(before), last.windows);
  }

  lemma {:induction false} TipNeverMovesBack(cursor: Instant, windows: seq<Window>)
    requires Contiguous(cursor, windows)
    ensures !Earlier(Tip(cursor, windows), cursor)
  {
    if windows != [] {
      var before := windows[..|windows| - 1];
      assert forall k :: 0 <= k < |before| ==> windows[..k] == before[..k];
      TipNeverMovesBack(cursor, before);
    }
  }

  /** The watermark never moves back over any sequence of runs. */
  lemma WatermarkNeverMovesBack(runs: seq<Run>, first: Instant, last: Instant)
    requires AreRuns(runs) && runs != []
    requires ResumesAt(runs[0].before, first) && ResumesAt(runs[|runs| - 1].after, last)
    ensures !Earlier(last, first)
  {
    hide Contiguous, ResumesAt, IsRun;
    RunsTileTime(runs, first);
    TipNeverMovesBack(first, AllWindows(runs));
    ResumesAtOnePlace(runs[|runs| - 1].after, last, Tip(first, AllWindows(runs)));
  }

  /** A successful run that starts behind `now` leaves the watermark at `now`, exactly. */
  lemma OkRunCatchesUp(r: Run, resumed: Instant)
    requires IsRun(r) && r.result == CatchupOk && Earlier(r.cursor, r.now) && ResumesAt(r.after, resumed)
    ensures resumed == r.now
  {
    hide Reads, Canonical, InRange;
    ResumesAtTip(r, resumed);
  }

  // ---- the tables after any sequence of runs ----

  /** A run with what the server did during it: `records[k]` is the feed of window k. */
  datatype Session = Session(run: Run, ns: seq<nat>, pass: Pass, feed: Feed, records: seq<seq<Element>>)

  /** What Catchup guarantees of a run on a reliable database, for feeds that did not change
      while their own window was synced and were served in full pages. */
  ghost predicate IsSession(per: int, s: Session) {
    && IsRun(s.run)
    && AreCommitted(true, s.feed, per, s.run.windows, s.ns, s.pass.committed)
    && ServesWindows(s.feed, per, s.run.windows, s.ns, s.records)
    && AllPagesFull(s.feed, per, s.run.windows, s.ns, s.records)
  }

  function PassesOf(sessions: seq<Session>): seq<Pass> {
    if sessions == [] then [] else [sessions[0].pass] + PassesOf(sessions[1..])
  }

  /** The records of every committed window of every run, in order. */
  function AllRecords(sessions: seq<Session>): seq<Element> {
    if sessions == [] then [] else Records(sessions[0].records) + AllRecords(sessions[1..])
  }

  lemma SessionCommitsItsRecords(per: int, s: Session)
    requires 1 <= per <= MAX_RESULTS_PER_PAGE && IsSession(per, s)
    ensures ElementsOfPages(s.pass.committed) == Records(s.records)
  {
    hide IsRun, IsWholeWindow, ServesWindows, ElementsOfPages, PagesKept, WindowPages;
    ReliableKeepsAll(WindowPages(s.feed, per, s.run.windows, s.ns), s.pass.committed);
    WatermarkCoversExactly(s.feed, per, s.run.windows, s.ns, s.records);
  }

  lemma {:induction false} SessionsCommitTheirRecords(per: int, sessions: seq<Session>)
    requires 1 <= per <= MAX_RESULTS_PER_PAGE && forall i :: 0 <= i < |sessions| ==> IsSession(per, sessions[i])
    ensures CommittedRecords(PassesOf(sessions)) == AllRecords(sessions)
  {
    hide IsSession, ElementsOfPages;
    if sessions != [] {
      SessionCommitsItsRecords(per, sessions[0]);
      SessionsCommitTheirRecords(per, sessions[1..]);
      assert PassesOf(sessions)[1..] == PassesOf(sessions[1..]);
    }
  }

  lemma {:induction false} PassesOfAt(sessions: seq<Session>, i: nat)
    requires i < |sessions|
    ensures |PassesOf(sessions)| == |sessions| && PassesOf(sessions)[i] == sessions[i].pass
  {
    if i > 0 {
      PassesOfAt(sessions[1..], i - 1);
    } else if |sessions| > 1 {
      PassesOfAt(sessions[1..], 0);
    }
  }

  /** After any runs, failed at any page or window, the tables are what ingesting the records of
      all committed windows once, in order, makes of them, followed by what the last run
      committed of a window it gave up: the windows the watermark has passed decide the tables,
      as long as what earlier runs abandoned is handed over again. */
  lemma TablesFollowWatermark(schema: Schema, t: Tables, per: int, sessions: seq<Session>)
    requires 1 <= per <= MAX_RESULTS_PER_PAGE && forall i :: 0 <= i < |sessions| ==> IsSession(per, sessions[i])
    requires sessions != [] && AbandonedIsSuperseded(schema, PassesOf(sessions))
    ensures AfterPasses(schema, t, PassesOf(sessions)) ==
            ApplyElements(schema, t, AllRecords(sessions) + ElementsOfPages(sessions[|sessions| - 1].pass.abandoned))
  {
    hide IsSession, AbandonedIsSuperseded, AfterPasses, ApplyElements, ElementsOfPages;
    PassesConverge(schema, t, PassesOf(sessions));
    SessionsCommitTheirRecords(per, sessions);
    PassesOfAt(sessions, |sessions| - 1);
  }

  // ---- run after run ----

  /** One call of the driver: the time, and what the server answers during it. */
  datatype Call = Call(now: string, feed: Feed)

  /** What one call of the driver comes to: the windows of the run were fetched whole, their pages
      committed, and nothing was abandoned unless a window failed. */
  ghost predicate IsOutcome(reliable: bool, per: int, call: Call, run: Run, ns: seq<nat>, pass: Pass) {
    && (run.result != BadArgument ==> Reads(call.now, run.now))
    && AreCommitted(reliable, call.feed, per, run.windows, ns, pass.committed)
    && (run.result != SyncFailure ==> pass.abandoned == [])
  }

  lemma NoPasses(schema: Schema, t: Tables)
    ensures AfterPasses(schema, t, []) == t
  {
  }

  lemma OutcomeOf(reliable: bool, per: int, call: Call, run: Run, ns: seq<nat>, pass: Pass)
    requires run.result != BadArgument ==> Reads(call.now, run.now)
    requires AreCommitted(reliable, call.feed, per, run.windows, ns, pass.committed)
    requires run.result != SyncFailure ==> pass.abandoned == []
    ensures IsOutcome(reliable, per, call, run, ns, pass)
  {
  }

  lemma OneMoreRun(runs: seq<Run>, run: Run)
    requires AreRuns(runs) && IsRun(run) && (runs != [] ==> runs[|runs| - 1].after == run.before)
    ensures AreRuns(runs + [run])
  {
    hide IsRun;
  }

  lemma NoRuns()
    ensures AreRuns([])
  {
  }

  /** Runs the driver once for each call, whatever comes of it. The runs are chained by the stored
      watermark and the tables are those after all passes, so that RunsTileTime and
      TablesFollowWatermark speak of what these calls leave behind. */
  method CatchupRepeatedly(db: NvdDb, resultsPerPage: int, calls: seq<Call>)
    returns (results: seq<CatchupResult>, ghost runs: seq<Run>, ghost nss: seq<seq<nat>>, ghost passes: seq<Pass>)
    modifies db
    ensures |results| == |runs| == |nss| == |passes| == |calls| && AreRuns(runs)
    ensures calls != [] ==> runs[0].before == old(db.watermark) && runs[|runs| - 1].after == db.watermark
    ensures db.tables == AfterPasses(db.schema, old(db.tables), passes)
    ensures forall i :: 0 <= i < |calls| ==>
              results[i] == runs[i].result &&
              IsOutcome(db.reliable, PerPage(resultsPerPage), calls[i], runs[i], nss[i], passes[i])
  {
    hide IsRun, AreRuns, IsOutcome, AreCommitted, AfterPasses, WindowStopped, ServesEveryWindow, WindowEnd, Reads,
         ResumesAt, PerPage, Tip, ServerOf, Earlier, WindowDays;
    results, runs, nss, passes := [], [], [], [];
    NoPasses(db.schema, db.tables);
    NoRuns();
    for i := 0 to |calls|
      invariant |results| == |runs| == |nss| == |passes| == i && AreRuns(runs)
      invariant if i == 0 then db.watermark == old(db.watermark)
                else runs[0].before == old(db.watermark) && runs[i - 1].after == db.watermark
      invariant db.tables == AfterPasses(db.schema, old(db.tables), passes)
      invariant forall j :: 0 <= j < i ==>
                  results[j] == runs[j].result &&
                  IsOutcome(db.reliable, PerPage(resultsPerPage), calls[j], runs[j], nss[j], passes[j])
    {
      var result, _, run, ns, pass := Catchup(db, resultsPerPage, calls[i].now, calls[i].feed);
      AfterOneMorePass(db.schema, old(db.tables), passes, pass);
      OneMoreRun(runs, run);
      OutcomeOf(db.reliable, PerPage(resultsPerPage), calls[i], run, ns, pass);
      results, runs, nss, passes := results + [result], runs + [run], nss + [ns], passes + [pass];
    }
  }

  // ---- when the window cap is enough ----

  /** Days covered by `n` full windows. */
  function Span(n: nat, days: int): int {
    if n == 0 then 0 else Span(n - 1, days) + days
  }

  /** As long as `now` is not reached every window is full. */
  lemma {:induction false} FullWindowsAddUp(cursor: Instant, windows: seq<Window>, days: int, now: Instant)
    requires days > 0 && Chained(cursor, windows, days, now) && Earlier(Tip(cursor, windows), now)
    ensures Tip(cursor, windows) == AddDays(cursor, Span(|windows|, days))
  {
    if windows != [] {
      var before := windows[..|windows| - 1];
      ChainedFront(cursor, windows, days, now);
      FullWindowsAddUp(cursor, before, days, now);
    }
  }

  lemma {:induction false} SpanIsProduct(n: nat, days: int)
    ensures Span(n, days) == n * days
  {
    if n > 0 {
      SpanIsProduct(n - 1, days);
    }
  }

  lemma {:induction false} TipIsWithinSpan(cursor: Instant, windows: seq<Window>, days: int, now: Instant)
    requires days > 0 && Chained(cursor, windows, days, now)
    ensures !Earlier(AddDays(cursor, Span(|windows|, days)), Tip(cursor, windows))
  {
    if windows != [] {
      var before := windows[..|windows| - 1];
      ChainedFront(cursor, windows, days, now);
      TipIsWithinSpan(cursor, before, days, now);
    }
  }

  lemma {:induction false} SpanGrows(m: nat, n: nat, days: int)
    requires days > 0 && m <= n
    ensures 0 <= Span(m, days) <= Span(n, days)
  {
    if m < n {
      SpanGrows(m, n - 1, days);
    } else if m > 0 {
      SpanGrows(m - 1, m - 1, days);
    }
  }

  /** Among the runs no window of which failed, the cap stops exactly those whose `now` lies
      beyond 1000 windows of the cursor. */
  lemma CapStopsExactlyFarBehind(r: Run)
    requires IsRun(r) && (r.result == CatchupOk || r.result == TooManyWindows)
    ensures r.result == TooManyWindows <==>
            var days := if r.before in {None, Some("")} then 30000 else 120000;
            Earlier(Instant(r.cursor.days + days, r.cursor.ms), r.now)
  {
    hide InRange, Canonical, ResumesAt, Chained;
    var days := WindowDays(r.before);
    SpanIsProduct(MAX_WINDOWS, days);
    assert 1000 * days == if r.before in {None, Some("")} then 30000 else 120000;
    assert AddDays(r.cursor, 1000 * days) == Instant(r.cursor.days + 1000 * days, r.cursor.ms);
    if r.result == TooManyWindows {
      FullWindowsAddUp(r.cursor, r.windows, days, r.now);
    } else {
      TipIsWithinSpan(r.cursor, r.windows, days, r.now);
      SpanGrows(|r.windows|, MAX_WINDOWS, days);
    }
  }
}
