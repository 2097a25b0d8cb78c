/** The offset loop of the EPSS pull, which advances by what the server really returned. */
module EpssSync {
  import opened Wrappers
  import Ascii

  const MAX_PAGES := 200000
  const DEFAULT_PAGE_SIZE := 2000
  const MAX_TOTAL := 100000000
  const URL_BUFFER := 1024
  const DEFAULT_URL := "https://api.first.org/data/v1/epss"

  datatype Record = Record(cveId: string, score: string)

  /** A response envelope; `total` and `data` are None when absent or ill-typed. */
  datatype Envelope = Envelope(total: Option<real>, data: Option<seq<Record>>)

  datatype PullResult = PullOk | FetchFailed | IngestFailed | ProtocolFailed

  /** Where pages are asked for: the base of the URL and the page size. */
  datatype Source = Source(base: string, limit: nat)

  function PageUrl(src: Source, offset: nat): string {
    src.base + "?limit=" + Ascii.Decimal(src.limit) + "&offset=" + Ascii.Decimal(offset)
  }

  /** The URL of the request fits its buffer. */
  predicate Fits(src: Source, offset: nat) {
    |PageUrl(src, offset)| < URL_BUFFER
  }

  /** The answer for each offset; None is a failed fetch. */
  type Server = int -> Option<Envelope>

  predicate IsUsable(e: Envelope) {
    e.total.Some? && e.data.Some? && 0.0 <= e.total.value <= MAX_TOTAL as real
  }

  function DataAt(server: Server, offset: int): seq<Record> {
    if server(offset).Some? && IsUsable(server(offset).value) then server(offset).value.data.value else []
  }

  /** The page at `offset` reaches the advertised total. */
  predicate IsLast(server: Server, offset: int) {
    server(offset).Some? && IsUsable(server(offset).value) &&
    offset + |DataAt(server, offset)| >= server(offset).value.total.value.Floor
  }

  /** The offset of request `k`: everything returned before it. */
  ghost function OffsetAt(server: Server, k: nat): nat {
    if k == 0 then 0 else OffsetAt(server, k - 1) + |DataAt(server, OffsetAt(server, k - 1))|
  }

  /** All records of the first `n` responses. */
  ghost function Received(server: Server, n: nat): (rs: seq<Record>)
    ensures |rs| == OffsetAt(server, n)
  {
    if n == 0 then [] else Received(server, n - 1) + DataAt(server, OffsetAt(server, n - 1))
  }

  /** `reliable` says that no page transaction fails. */
  class EpssDb {
    const reliable: bool
    var ingested: seq<Record>
    var watermarkMoves: nat

    constructor (reliable: bool)
      ensures this.reliable == reliable && ingested == [] && watermarkMoves == 0
    {
      this.reliable := reliable;
      ingested, watermarkMoves := [], 0;
    }

    /** One page in one transaction; the last page also moves the watermark. */
    method Ingest(data: seq<Record>, isLast: bool) returns (ok: bool)
      modifies this
      ensures ok ==> ingested == old(ingested) + data && watermarkMoves == old(watermarkMoves) + if isLast then 1 else 0
      ensures !ok ==> !reliable && ingested == old(ingested) && watermarkMoves == old(watermarkMoves)
    {
      ok := *;
      ok := ok || reliable;
      if ok {
        ingested := ingested + data;
        if isLast {
          watermarkMoves := watermarkMoves + 1;
        }
      }
    }
  }

  /** Each of the first `n` requests was answered, was not the last, and moved the offset. */
  ghost predicate Advances(server: Server, n: nat) {
    forall k :: 0 <= k < n ==>
      && server(OffsetAt(server, k)).Some? && !IsLast(server, OffsetAt(server, k))
      && OffsetAt(server, k) < OffsetAt(server, k + 1)
  }

  /** Request `n` was answered with the last page, after `n` that were not. */
  ghost predicate EndsWithLast(server: Server, n: nat) {
    Advances(server, n) && IsLast(server, OffsetAt(server, n))
  }

  /** Why a pull was given up after `n` pages: an unanswered or unusable response, one that
      makes no progress, the page cap, a URL too long for its buffer, or the database. */
  ghost predicate StopsBecause(reliable: bool, src: Source, server: Server, n: nat, result: PullResult) {
    var offset := OffsetAt(server, n);
    var body := server(offset);
    match result
    case FetchFailed => Fits(src, offset) && body.None?
    case ProtocolFailed =>
      || n == MAX_PAGES || !Fits(src, offset)
      || (body.Some? && (!IsUsable(body.value) || (body.value.data.value == [] && !IsLast(server, offset))))
    case IngestFailed => Fits(src, offset) && body.Some? && IsUsable(body.value) && !reliable
    case PullOk => false
  }

  lemma AdvancesOneMore(server: Server, n: nat)
    requires Advances(server, n)
    requires server(OffsetAt(server, n)).Some? && !IsLast(server, OffsetAt(server, n))
    requires DataAt(server, OffsetAt(server, n)) != []
    ensures Advances(server, n + 1)
  {
  }

  lemma NothingYet(server: Server)
    ensures Advances(server, 0) && OffsetAt(server, 0) == 0 && Received(server, 0) == []
  {
  }

  /** What the answer to request `n` makes of the pull. */
  lemma Answered(reliable: bool, src: Source, server: Server, n: nat, offset: nat)
    requires Advances(server, n) && offset == OffsetAt(server, n)
    ensures !Fits(src, offset) ==> StopsBecause(reliable, src, server, n, ProtocolFailed)
    ensures Fits(src, offset) && server(offset).None? ==> StopsBecause(reliable, src, server, n, FetchFailed)
    ensures server(offset).Some? && !IsUsable(server(offset).value) ==>
              StopsBecause(reliable, src, server, n, ProtocolFailed)
    ensures server(offset).Some? && IsUsable(server(offset).value) ==>
              var data := server(offset).value.data.value;
              && Received(server, n + 1) == Received(server, n) + data
              && OffsetAt(server, n + 1) == offset + |data|
              && (reliable || !Fits(src, offset) || StopsBecause(reliable, src, server, n, IngestFailed))
              && (IsLast(server, offset) ==> EndsWithLast(server, n))
              && (!IsLast(server, offset) && data == [] ==> StopsBecause(reliable, src, server, n, ProtocolFailed))
              && (!IsLast(server, offset) && data != [] ==> Advances(server, n + 1))
  {
    hide IsLast, IsUsable, Fits;
    if server(offset).Some? && !IsLast(server, offset) && DataAt(server, offset) != [] {
      AdvancesOneMore(server, n);
    }
  }

  lemma CapReached(reliable: bool, src: Source, server: Server)
    ensures StopsBecause(reliable, src, server, MAX_PAGES, ProtocolFailed)
  {
  }

  function SourceOf(baseUrl: string, pageSize: int): Source {
    Source(if baseUrl != "" then baseUrl else DEFAULT_URL, if pageSize > 0 then pageSize else DEFAULT_PAGE_SIZE)
  }

  /** The server behind a source. */
  function From(src: Source, get: string -> Option<Envelope>): Server {
    offset => if offset < 0 then None else get(PageUrl(src, offset))
  }

  // ---- a feed of fixed total, served in pages of any length ----

  /** Every usable answer continues the feed at the requested offset, with at most what is
      left of it and possibly far less than was asked for. */
  ghost predicate ServesFeed(server: Server, feed: seq<Record>) {
    forall offset :: 0 <= offset <= |feed| && server(offset).Some? ==>
      && IsUsable(server(offset).value)
      && server(offset).value.total == Some(|feed| as real)
      && DataAt(server, offset) <= feed[offset..]
  }

  lemma DataIsSlice(server: Server, feed: seq<Record>, offset: nat)
    requires ServesFeed(server, feed) && offset <= |feed| && server(offset).Some?
    ensures var data := DataAt(server, offset);
            offset + |data| <= |feed| && feed[..offset] + data == feed[..offset + |data|]
  {
    hide DataAt;
    var data := DataAt(server, offset);
    assert data == feed[offset..][..|data|];
  }

  lemma {:induction false} ReceivedIsPrefix(server: Server, feed: seq<Record>, n: nat)
    requires ServesFeed(server, feed)
    requires forall k :: 0 <= k < n ==> server(OffsetAt(server, k)).Some?
    ensures OffsetAt(server, n) <= |feed| && Received(server, n) == feed[..OffsetAt(server, n)]
  {
    if n > 0 {
      hide ServesFeed, DataAt;
      ReceivedIsPrefix(server, feed, n - 1);
      DataIsSlice(server, feed, OffsetAt(server, n - 1));
    }
  }

  /** A successful pull has handed every record of the feed to ingest exactly once and in
      order, however short the pages were. */
  lemma PullPartitionsFeed(server: Server, feed: seq<Record>, n: nat)
    requires ServesFeed(server, feed) && n > 0 && EndsWithLast(server, n - 1)
    ensures Received(server, n) == feed
  {
    ReceivedIsPrefix(server, feed, n - 1);
    ReceivedIsPrefix(server, feed, n);
    assert (|feed| as real).Floor == |feed|;
  }

  lemma {:induction false} OffsetsGrow(server: Server, n: nat)
    requires Advances(server, n)
    ensures n <= OffsetAt(server, n)
  {
    if n > 0 {
      OffsetsGrow(server, n - 1);
      assert OffsetAt(server, n - 1) < OffsetAt(server, n - 1 + 1);
    }
  }

  /** Offsets grow by at least one a page, so a feed cannot take more pages than records. */
  lemma PullIsBounded(server: Server, feed: seq<Record>, n: nat)
    requires ServesFeed(server, feed)
    requires Advances(server, n)
    ensures n <= |feed|
  {
    ReceivedIsPrefix(server, feed, n);
    OffsetsGrow(server, n);
  }

  /** Every request is answered from a fixed feed, with at least `least` records until it is
      exhausted; URLs fit, and the feed fits the page cap. */
  ghost predicate ServesWhole(src: Source, server: Server, feed: seq<Record>, least: nat) {
    && ServesFeed(server, feed) && least > 0 && |feed| <= MAX_PAGES * least
    && forall offset :: 0 <= offset <= |feed| ==>
         Fits(src, offset) && server(offset).Some? && (|DataAt(server, offset)| >= least || IsLast(server, offset))
  }

  lemma {:induction false} OffsetsGrowBy(src: Source, server: Server, feed: seq<Record>, least: nat, n: nat)
    requires ServesWhole(src, server, feed, least) && Advances(server, n)
    ensures n * least <= OffsetAt(server, n) <= |feed|
    ensures n > 0 ==> OffsetAt(server, n) < |feed|
  {
    hide Fits;
    if n > 0 {
      OffsetsGrowBy(src, server, feed, least, n - 1);
      var offset := OffsetAt(server, n - 1);
      assert server(offset).Some? && !IsLast(server, offset);
      assert (|feed| as real).Floor == |feed|;
      assert n * least == (n - 1) * least + least;
    }
  }

  /** With every request answered and a reliable database, no cause of failure is left. */
  lemma HealthyPullSucceeds(src: Source, server: Server, feed: seq<Record>, least: nat, n: nat, result: PullResult)
    requires ServesWhole(src, server, feed, least) && Advances(server, n)
    ensures !StopsBecause(true, src, server, n, result)
  {
    hide Fits, Advances, IsLast;
    OffsetsGrowBy(src, server, feed, least, n);
  }

  lemma HealthIsKnown(src: Source, server: Server, n: nat, result: PullResult)
    requires Advances(server, n) && StopsBecause(true, src, server, n, result)
    ensures forall feed, least :: !ServesWhole(src, server, feed, least)
  {
    hide Advances, StopsBecause, ServesWhole;
    forall feed, least | ServesWhole(src, server, feed, least)
      ensures false
    {
      HealthyPullSucceeds(src, server, feed, least, n, result);
    }
  }

  lemma Diagnosed(reliable: bool, src: Source, server: Server, n: nat)
    requires Advances(server, n)
    ensures reliable && (exists result :: StopsBecause(reliable, src, server, n, result)) ==>
              forall feed, least :: !ServesWhole(src, server, feed, least)
  {
    hide Advances, StopsBecause, ServesWhole;
    if reliable {
      if result :| StopsBecause(reliable, src, server, n, result) {
        HealthIsKnown(src, server, n, result);
      }
    }
  }

  /** `get` fetches a URL; without a base URL or a page size the defaults apply. */
  method Pull(db: EpssDb, baseUrl: string, get: string -> Option<Envelope>, pageSize: int)
    returns (result: PullResult, pagesFetched: nat)
    modifies db
    ensures var src := SourceOf(baseUrl, pageSize);
            var s := From(src, get);
            && pagesFetched <= MAX_PAGES
            && db.ingested == old(db.ingested) + Received(s, pagesFetched)
            && (result == PullOk ==> pagesFetched > 0 && EndsWithLast(s, pagesFetched - 1))
            && (result != PullOk ==>
                  Advances(s, pagesFetched) && StopsBecause(db.reliable, src, s, pagesFetched, result))
    ensures db.watermarkMoves == old(db.watermarkMoves) + if result == PullOk then 1 else 0
    ensures var src := SourceOf(baseUrl, pageSize);
            db.reliable ==> result == PullOk || forall feed, least :: !ServesWhole(src, From(src, get), feed, least)
  {
    hide ServesWhole, Advances, EndsWithLast, StopsBecause, OffsetAt, Received, PageUrl;
    var src := SourceOf(baseUrl, pageSize);
    ghost var s := From(src, get);
    NothingYet(s);
    var offset := 0;
    pagesFetched := 0;
    for page := 0 to MAX_PAGES
      invariant pagesFetched == page && offset == OffsetAt(s, page)
      invariant db.ingested == old(db.ingested) + Received(s, page)
      invariant db.watermarkMoves == old(db.watermarkMoves)
      invariant Advances(s, page)
    {
      Answered(db.reliable, src, s, page, offset);
      Diagnosed(db.reliable, src, s, page);
      var url := PageUrl(src, offset);
      if |url| >= URL_BUFFER {
        return ProtocolFailed, pagesFetched;
      }
      var body := get(url);
      assert s(offset) == body;
      if body.None? {
        return FetchFailed, pagesFetched;
      }
      if !IsUsable(body.value) {
        return ProtocolFailed, pagesFetched;
      }
      var data := body.value.data.value;
      var isLast := offset + |data| >= body.value.total.value.Floor;
      if |data| == 0 && !isLast {
        return ProtocolFailed, pagesFetched;
      }
      var ok := db.Ingest(data, isLast);
      if !ok {
        return IngestFailed, pagesFetched;
      }
      pagesFetched := pagesFetched + 1;
      if isLast {
        return PullOk, pagesFetched;
      }
      offset := offset + |data|;
    }
    CapReached(db.reliable, src, s);
    Diagnosed(db.reliable, src, s, MAX_PAGES);
    return ProtocolFailed, pagesFetched;
  }

  // ---- a server that reads its URLs ----

  /** Decimal digits that denote the number. */
  ghost predicate Denotes(digits: string, n: nat) {
    digits != "" && Ascii.AllDigits(digits) && Ascii.Value(digits) == n
  }

  /** Every URL "base?limit=L&offset=O" with an offset within the feed is answered with the total
      and the next L records from O on, or what is left. */
  ghost predicate ReadsUrls(get: string -> Option<Envelope>, base: string, limit: nat, feed: seq<Record>) {
    forall l, o, offset: nat ::
      Denotes(l, limit) && Denotes(o, offset) && offset <= |feed| ==>
        get(base + "?limit=" + l + "&offset=" + o) ==
        Some(Envelope(Some(|feed| as real),
                      Some(feed[offset..if offset + limit <= |feed| then offset + limit else |feed|])))
  }

  lemma UrlIsRead(src: Source, get: string -> Option<Envelope>, feed: seq<Record>, offset: nat)
    requires ReadsUrls(get, src.base, src.limit, feed) && offset <= |feed|
    ensures get(PageUrl(src, offset)) ==
            Some(Envelope(Some(|feed| as real),
                          Some(feed[offset..if offset + src.limit <= |feed| then offset + src.limit else |feed|])))
  {
    hide Ascii.Decimal, Ascii.Value;
    Ascii.DecimalIsValue(src.limit);
    Ascii.DecimalIsValue(offset);
    assert Denotes(Ascii.Decimal(src.limit), src.limit) && Denotes(Ascii.Decimal(offset), offset);
  }

  lemma SlicesServe(src: Source, get: string -> Option<Envelope>, feed: seq<Record>, offset: nat)
    requires ReadsUrls(get, src.base, src.limit, feed) && offset <= |feed| <= 100000000 && src.limit > 0
    ensures var server := From(src, get);
            && server(offset).Some? && IsUsable(server(offset).value)
            && server(offset).value.total == Some(|feed| as real)
            && DataAt(server, offset) <= feed[offset..]
            && (|DataAt(server, offset)| >= src.limit || IsLast(server, offset))
  {
    hide PageUrl, ReadsUrls;
    UrlIsRead(src, get, feed, offset);
    assert (|feed| as real).Floor == |feed|;
  }

  /** Over such a server the pull has nothing to stop for, and brings in the whole feed, each
      record once and in order: the base and the page size are those configured, or
      "https://api.first.org/data/v1/epss" and 2000, and every URL carries its own offset. */
  lemma PullOverUrls(baseUrl: string, pageSize: int, get: string -> Option<Envelope>, feed: seq<Record>)
    requires var base := if baseUrl != "" then baseUrl else "https://api.first.org/data/v1/epss";
             ReadsUrls(get, base, if pageSize > 0 then pageSize else 2000, feed)
    requires |feed| <= 100000000 && |feed| <= 200000 * (if pageSize > 0 then pageSize else 2000)
    requires forall offset :: 0 <= offset <= |feed| ==> Fits(SourceOf(baseUrl, pageSize), offset)
    ensures var src := SourceOf(baseUrl, pageSize);
            var server := From(src, get);
            && ServesWhole(src, server, feed, src.limit)
            && forall n: nat :: n > 0 && EndsWithLast(server, n - 1) ==> Received(server, n) == feed
  {
    hide ReadsUrls, Fits, EndsWithLast, Received, IsUsable, DataAt, IsLast, From;
    var src := SourceOf(baseUrl, pageSize);
    var server := From(src, get);
    forall offset | 0 <= offset <= |feed| {
      SlicesServe(src, get, feed, offset);
    }
    forall n: nat | n > 0 && EndsWithLast(server, n - 1) {
      PullPartitionsFeed(server, feed, n);
    }
  }
}
