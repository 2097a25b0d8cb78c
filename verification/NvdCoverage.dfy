/** What a catch-up run brings in from a server that answers each window with the records modified
    in it: every record modified between the old watermark and the new one, and no other. */
module NvdCoverage {
  import opened Wrappers
  import opened Timestamp
  import opened NvdIngest
  import opened NvdSync
  import opened NvdCatchup

  /** A record and when it was last modified. */
  datatype Stamped = Stamped(modified: Instant, element: Element)

  predicate IsBetween(a: Instant, x: Instant, b: Instant) {
    !Earlier(x, a) && !Earlier(b, x)
  }

  /** The records modified from `a` to `b`, both included. */
  function Selected(world: seq<Stamped>, a: Instant, b: Instant): (es: seq<Element>)
    ensures |es| <= |world|
  {
    if world == [] then []
    else
      var last := world[|world| - 1];
      Selected(world[..|world| - 1], a, b) + if IsBetween(a, last.modified, b) then [last.element] else []
  }

  /** Some record is the element, and was modified in between. */
  ghost predicate IsSelected(world: seq<Stamped>, a: Instant, b: Instant, e: Element) {
    exists i :: 0 <= i < |world| && world[i].element == e && IsBetween(a, world[i].modified, b)
  }

  lemma {:induction false} SelectedExactly(world: seq<Stamped>, a: Instant, b: Instant, e: Element)
    ensures e in Selected(world, a, b) <==> IsSelected(world, a, b, e)
  {
    hide IsBetween;
    if world != [] {
      var front := world[..|world| - 1];
      SelectedExactly(front, a, b, e);
      if i :| 0 <= i < |front| && front[i].element == e && IsBetween(a, front[i].modified, b) {
        assert world[i] == front[i];
      }
      if i :| 0 <= i < |world| && world[i].element == e && IsBetween(a, world[i].modified, b) {
        assert i < |front| ==> front[i] == world[i];
      }
    }
  }

  /** Asked for a window by the texts of its bounds, the server answers in full pages of the
      records modified in it. Single requests may still fail. */
  ghost predicate IsHonest(feed: Feed, per: int, world: seq<Stamped>) {
    && |world| <= 100000000
    && forall a, b, server: Server {:trigger ServesFeed(server, per, Selected(world, a, b))} ::
         InRange(a) && InRange(b) && (forall i :: server(i) == feed(Canonical(a), Canonical(b), i)) ==>
           ServesFeed(server, per, Selected(world, a, b))
  }

  lemma WholeWindowIsPrintable(feed: Feed, per: int, w: Window, n: nat)
    requires IsWholeWindow(ServerOf(feed, w), per, n)
    ensures InRange(w.start) && InRange(w.end)
  {
    hide InRange, Canonical;
    WholeIsAnswered(ServerOf(feed, w), per, n);
    assert ServerOf(feed, w)((n - 1) * per).Some?;
  }

  /** What the server is asked for a window is answered from the records modified in it. */
  lemma WindowIsServed(feed: Feed, per: int, world: seq<Stamped>, w: Window)
    requires IsHonest(feed, per, world) && InRange(w.start) && InRange(w.end)
    ensures ServesFeed(ServerOf(feed, w), per, Selected(world, w.start, w.end))
  {
    hide InRange, Canonical, ServesFeed, Selected;
    var server := ServerOf(feed, w);
    assert forall i :: server(i) == feed(Canonical(w.start), Canonical(w.end), i);
  }

  ghost function FeedsOf(world: seq<Stamped>, windows: seq<Window>): (feeds: seq<seq<Element>>)
    ensures |feeds| == |windows|
  {
    seq(|windows|, k requires 0 <= k < |windows| => Selected(world, windows[k].start, windows[k].end))
  }

  lemma FullWhenServed(server: Server, per: int, feed: seq<Element>, n: nat)
    requires ServesFeed(server, per, feed) && IsWholeWindow(server, per, n)
    ensures ServesPages(server, per, feed) && AllFull(server, per, feed, n)
  {
    hide ServesPages, IsFull, IsFinal, IsAnswered;
    WholeIsAnswered(server, per, n);
  }

  lemma WorldIsBounded(feed: Feed, per: int, world: seq<Stamped>)
    requires IsHonest(feed, per, world)
    ensures |world| <= MAX_TOTAL_RESULTS
  {
  }

  lemma CommittedAreSelected(feed: Feed, per: int, world: seq<Stamped>, windows: seq<Window>, ns: seq<nat>,
                             committed: seq<Page>)
    requires 1 <= per <= 2000 && IsHonest(feed, per, world)
    requires AreCommitted(true, feed, per, windows, ns, committed)
    ensures ElementsOfPages(committed) == Records(FeedsOf(world, windows))
  {
    hide IsWholeWindow, ServerOf, InRange, Canonical, ServesFeed, ServesPages, IsFull, Selected, ElementsOfPages,
         PagesKept, WindowPages, IsHonest, AllFull;
    ReliableKeepsAll(WindowPages(feed, per, windows, ns), committed);
    forall k | 0 <= k < |windows|
      ensures ServesPages(ServerOf(feed, windows[k]), per, Selected(world, windows[k].start, windows[k].end))
      ensures AllFull(ServerOf(feed, windows[k]), per, Selected(world, windows[k].start, windows[k].end), ns[k])
    {
      WholeWindowIsPrintable(feed, per, windows[k], ns[k]);
      WindowIsServed(feed, per, world, windows[k]);
      FullWhenServed(ServerOf(feed, windows[k]), per, Selected(world, windows[k].start, windows[k].end), ns[k]);
    }
    WorldIsBounded(feed, per, world);
    WatermarkCoversExactly(feed, per, windows, ns, FeedsOf(world, windows));
  }

  lemma {:induction false} RecordsHold(feeds: seq<seq<Element>>, e: Element)
    ensures e in Records(feeds) <==> exists k :: 0 <= k < |feeds| && e in feeds[k]
  {
    if feeds != [] {
      var front := feeds[..|feeds| - 1];
      RecordsHold(front, e);
      if k :| 0 <= k < |front| && e in front[k] {
        assert feeds[k] == front[k];
      }
      if k :| 0 <= k < |feeds| && e in feeds[k] {
        assert k < |front| ==> front[k] == feeds[k];
      }
    }
  }

  // ---- chained windows leave nothing out ----

  lemma {:induction false} SomeWindowHolds(cursor: Instant, windows: seq<Window>, days: int, now: Instant, x: Instant)
    returns (k: nat)
    requires days > 0 && Chained(cursor, windows, days, now) && windows != []
    requires IsBetween(cursor, x, Tip(cursor, windows))
    ensures k < |windows| && IsBetween(windows[k].start, x, windows[k].end)
  {
    hide WindowEnd;
    var last := |windows| - 1;
    ChainedFront(cursor, windows, days, now);
    if Earlier(x, windows[last].start) {
      k := SomeWindowHolds(cursor, windows[..last], days, now, x);
    } else {
      k := last;
    }
  }

  lemma {:induction false} WindowsStayWithin(cursor: Instant, windows: seq<Window>, days: int, now: Instant, k: nat)
    requires days > 0 && Chained(cursor, windows, days, now) && k < |windows|
    ensures !Earlier(windows[k].start, cursor) && !Earlier(Tip(cursor, windows), windows[k].end)
    ensures !Earlier(Tip(cursor, windows), cursor)
  {
    hide WindowEnd;
    var last := |windows| - 1;
    ChainedFront(cursor, windows, days, now);
    if last > 0 {
      WindowsStayWithin(cursor, windows[..last], days, now, if k < last then k else last - 1);
    }
  }

  lemma SelectedByWindows(run: Run, world: seq<Stamped>, e: Element)
    requires IsRun(run) && run.windows != []
    ensures e in Records(FeedsOf(world, run.windows)) <==>
            IsSelected(world, run.cursor, Tip(run.cursor, run.windows), e)
  {
    hide InRange, Canonical, ResumesAt, Chained, Records, Tip, Selected;
    var feeds, days, end := FeedsOf(world, run.windows), WindowDays(run.before), Tip(run.cursor, run.windows);
    RecordsHold(feeds, e);
    if k :| 0 <= k < |feeds| && e in feeds[k] {
      SelectedExactly(world, run.windows[k].start, run.windows[k].end, e);
      WindowsStayWithin(run.cursor, run.windows, days, run.now, k);
      var i :| 0 <= i < |world| && world[i].element == e &&
               IsBetween(run.windows[k].start, world[i].modified, run.windows[k].end);
      assert IsBetween(run.cursor, world[i].modified, end);
    }
    if i :| 0 <= i < |world| && world[i].element == e && IsBetween(run.cursor, world[i].modified, end) {
      var k := SomeWindowHolds(run.cursor, run.windows, days, run.now, world[i].modified);
      assert IsSelected(world, run.windows[k].start, run.windows[k].end, e);
      SelectedExactly(world, run.windows[k].start, run.windows[k].end, e);
      assert e in feeds[k];
    }
  }

  /** A run on a reliable database against an honest server: the records it has committed are
      exactly those modified from where the run resumed to where its last window ended, and the
      watermark it leaves is that end. */
  lemma EveryChangeArrives(run: Run, feed: Feed, per: int, ns: seq<nat>, committed: seq<Page>, world: seq<Stamped>)
    requires 1 <= per <= 2000 && IsHonest(feed, per, world)
    requires IsRun(run) && AreCommitted(true, feed, per, run.windows, ns, committed) && run.windows != []
    ensures var end := Tip(run.cursor, run.windows);
            && (forall e :: e in ElementsOfPages(committed) <==> IsSelected(world, run.cursor, end, e))
            && InRange(end) && run.after == Some(Canonical(end)) && ResumesAt(run.before, run.cursor)
  {
    hide InRange, Canonical, ResumesAt, AreCommitted, IsHonest, Chained, ElementsOfPages, IsSelected, Records,
         FeedsOf, Tip;
    CommittedAreSelected(feed, per, world, run.windows, ns, committed);
    forall e
      ensures e in ElementsOfPages(committed) <==> IsSelected(world, run.cursor, Tip(run.cursor, run.windows), e)
    {
      SelectedByWindows(run, world, e);
    }
  }
}
