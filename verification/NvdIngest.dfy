/** Ingesting one NVD page inside one transaction: upserts into the cves table, insert-or-ignore
    into the cve_cpe_matches table, and the sync_state update. */
module NvdIngest {
  import opened Wrappers
  import Ascii
  import opened Splitting

  const CVE_ID_MAX_LEN := 64
  const TS_MAX_LEN := 48
  const CPE_URI_MAX_LEN := 1024
  const VENDOR_PRODUCT_MAX_LEN := 256
  const VERSION_MAX_LEN := 128
  const MAX_CPE_PER_CVE := 4096
  const MAX_CVES_PER_PAGE := 20000

  // ---- a page, already decoded from JSON ----

  datatype Cvss = Cvss(vector: Option<string>, score: Option<real>, severity: Option<string>)

  /** One "cpeMatch" entry; absent version bounds are empty. */
  datatype MatchEntry =
    | NotAnObject
    | MatchEntry(criteria: Option<string>, startIncluding: string, startExcluding: string,
                 endIncluding: string, endExcluding: string, vulnerable: bool)

  type Node = seq<MatchEntry>

  /** One "vulnerabilities" element: configurations hold nodes, nodes hold match entries. */
  datatype Element = Element(id: Option<string>, published: Option<string>, lastModified: Option<string>,
                             description: string, v3: Cvss, v2: Cvss, configurations: seq<seq<Node>>)

  /** A fetched body: `totalResults` and `vulnerabilities` are None when absent or ill-typed. */
  datatype Page = Page(totalResults: Option<real>, vulnerabilities: Option<seq<Element>>)

  // ---- the tables ----

  datatype CveRow = CveRow(published: string, lastModified: string, description: string,
                           v3: Cvss, v2: Cvss, severity: int)

  /** The columns of the uniqueness constraint of cve_cpe_matches. */
  datatype CpeKey = CpeKey(cveId: string, uri: string, startIncluding: string, startExcluding: string,
                           endIncluding: string, endExcluding: string, vulnerable: bool)

  datatype CpeData = CpeData(part: string, vendor: string, product: string, version: string)

  datatype Tables = Tables(cves: map<string, CveRow>, cpes: map<CpeKey, CpeData>)

  /** The CHECK constraints, as predicates of the row offered. */
  datatype Schema = Schema(acceptsCve: (string, CveRow) -> bool, acceptsCpe: (CpeKey, CpeData) -> bool)

  // ---- reading one element ----

  function Clip(s: string, n: nat): string {
    if |s| <= n then s else s[..n]
  }

  predicate IsCveId(s: string) {
    |s| >= 13 && s[..4] == "CVE-" && Ascii.AllDigits(s[4..8]) && s[8] == '-' && Ascii.AllDigits(s[9..])
  }

  /** Timestamps are clipped, and closed with "Z" unless they already end in one. */
  function NormalizeTimestamp(raw: Option<string>): Option<string> {
    if raw.None? || raw.value == [] then None
    else
      var t := Clip(raw.value, TS_MAX_LEN);
      if t[|t| - 1] == 'Z' || t[|t| - 1] == 'z' then Some(t) else Some(t + ['Z'])
  }

  function SeverityFromV3(score: real): int {
    if score <= 0.0 then 0 else if score < 4.0 then 1 else if score < 7.0 then 2 else if score < 9.0 then 3 else 4
  }

  function SeverityFromV2(score: real): int {
    if score <= 0.0 then 0 else if score < 4.0 then 1 else if score < 7.0 then 2 else 3
  }

  function SeverityOf(v3: Cvss, v2: Cvss): int {
    if v3.score.Some? then SeverityFromV3(v3.score.value)
    else if v2.score.Some? then SeverityFromV2(v2.score.value)
    else 0
  }

  /** The row an element offers, or None when a required field is missing or malformed. */
  function OfferedRow(e: Element): Option<CveRow> {
    var published, lastModified := NormalizeTimestamp(e.published), NormalizeTimestamp(e.lastModified);
    if e.id.None? || |e.id.value| > CVE_ID_MAX_LEN || !IsCveId(e.id.value) then None
    else if published.None? || lastModified.None? then None
    else Some(CveRow(published.value, lastModified.value, e.description, e.v3, e.v2, SeverityOf(e.v3, e.v2)))
  }

  predicate IsIngested(schema: Schema, e: Element): (b: bool)
    ensures b ==> e.id.Some? && OfferedRow(e).Some?
  {
    OfferedRow(e).Some? && schema.acceptsCve(e.id.value, OfferedRow(e).value)
  }

  /** Part, vendor, product and version of a CPE, which depend on the stored URI alone. */
  function DataOf(uri: string): CpeData {
    var fs := Split(uri, ':');
    if |fs| < 6 then CpeData("", "", "", "")
    else CpeData(fs[2], Ascii.Lower(Clip(fs[3], VENDOR_PRODUCT_MAX_LEN)),
                 Ascii.Lower(Clip(fs[4], VENDOR_PRODUCT_MAX_LEN)), Clip(fs[5], VERSION_MAX_LEN))
  }

  /** The row of a match entry, or None when it is skipped. */
  function OfferedCpe(cveId: string, m: MatchEntry): (r: Option<(CpeKey, CpeData)>)
    ensures r.Some? ==> r.value.0.cveId == cveId && r.value.1 == DataOf(r.value.0.uri)
  {
    if m.NotAnObject? || m.criteria.None? || m.criteria.value == [] then None
    else
      var uri := Clip(m.criteria.value, CPE_URI_MAX_LEN);
      var fs := Split(uri, ':');
      if |fs| < 6 then None
      else if fs[2] != "a" && fs[2] != "o" && fs[2] != "h" then None
      else if fs[3] == [] || fs[4] == [] then None
      else
        var data := DataOf(uri);
        var key := CpeKey(cveId, uri, Clip(m.startIncluding, VERSION_MAX_LEN), Clip(m.startExcluding, VERSION_MAX_LEN),
                          Clip(m.endIncluding, VERSION_MAX_LEN), Clip(m.endExcluding, VERSION_MAX_LEN), m.vulnerable);
        if data.version == "*" && key.startIncluding == [] && key.startExcluding == [] &&
           key.endIncluding == [] && key.endExcluding == [] then None
        else Some((key, data))
  }

  // ---- what one element, one page and several pages do to the tables ----

  /** INSERT ... ON CONFLICT DO UPDATE, which never rewrites `published`. */
  function Upsert(cves: map<string, CveRow>, id: string, row: CveRow): map<string, CveRow> {
    if id in cves then cves[id := row.(published := cves[id].published)] else cves[id := row]
  }

  /** INSERT ... ON CONFLICT DO NOTHING. */
  function InsertIfNew(cpes: map<CpeKey, CpeData>, key: CpeKey, data: CpeData): map<CpeKey, CpeData> {
    if key in cpes then cpes else cpes[key := data]
  }

  function InsertMatch(schema: Schema, cpes: map<CpeKey, CpeData>, cveId: string, m: MatchEntry): map<CpeKey, CpeData> {
    match OfferedCpe(cveId, m)
    case None => cpes
    case Some((key, data)) => if schema.acceptsCpe(key, data) then InsertIfNew(cpes, key, data) else cpes
  }

  function InsertMatches(schema: Schema, cpes: map<CpeKey, CpeData>, cveId: string, ms: seq<MatchEntry>)
    : map<CpeKey, CpeData>
  {
    if ms == [] then cpes
    else InsertMatch(schema, InsertMatches(schema, cpes, cveId, ms[..|ms| - 1]), cveId, ms[|ms| - 1])
  }

  function Flatten<T>(xss: seq<seq<T>>): seq<T> {
    if xss == [] then [] else Flatten(xss[..|xss| - 1]) + xss[|xss| - 1]
  }

  function Take<T>(xs: seq<T>, n: nat): (r: seq<T>)
    ensures |r| <= |xs| && |r| <= n
  {
    if |xs| <= n then xs else xs[..n]
  }

  /** The match entries of an element, across all its configurations and nodes. */
  function MatchesOf(e: Element): seq<MatchEntry> {
    Flatten(Flatten(e.configurations))
  }

  /** The match entries of an element within its budget. */
  function BudgetedMatches(e: Element): seq<MatchEntry> {
    Take(MatchesOf(e), MAX_CPE_PER_CVE)
  }

  function ApplyElement(schema: Schema, t: Tables, e: Element): Tables {
    if !IsIngested(schema, e) then t
    else Tables(Upsert(t.cves, e.id.value, OfferedRow(e).value),
                InsertMatches(schema, t.cpes, e.id.value, BudgetedMatches(e)))
  }

  function ApplyElements(schema: Schema, t: Tables, es: seq<Element>): Tables {
    if es == [] then t
    else ApplyElement(schema, ApplyElements(schema, t, es[..|es| - 1]), es[|es| - 1])
  }

  /** The elements of a page that are looked at. */
  function ElementsOf(page: Page): seq<Element> {
    if page.vulnerabilities.None? then [] else Take(page.vulnerabilities.value, MAX_CVES_PER_PAGE)
  }

  function ElementsOfPages(pages: seq<Page>): seq<Element> {
    if pages == [] then [] else ElementsOfPages(pages[..|pages| - 1]) + ElementsOf(pages[|pages| - 1])
  }

  ghost function ApplyPages(schema: Schema, t: Tables, pages: seq<Page>): Tables {
    ApplyElements(schema, t, ElementsOfPages(pages))
  }

  // ---- counting ----

  datatype Counts = Counts(cveIngested: nat, cveSkipped: nat, cpeIngested: nat, cpeSkipped: nat)

  /** `stored` of `seen` match entries stored, the others skipped. */
  function AddMatches(counts: Counts, stored: nat, seen: nat): Counts
    requires stored <= seen
  {
    counts.(cpeIngested := counts.cpeIngested + stored, cpeSkipped := counts.cpeSkipped + (seen - stored))
  }

  ghost function IngestedIn(schema: Schema, es: seq<Element>): nat {
    if es == [] then 0
    else IngestedIn(schema, es[..|es| - 1]) + if IsIngested(schema, es[|es| - 1]) then 1 else 0
  }

  predicate IsStored(schema: Schema, cveId: string, m: MatchEntry) {
    OfferedCpe(cveId, m).Some? && schema.acceptsCpe(OfferedCpe(cveId, m).value.0, OfferedCpe(cveId, m).value.1)
  }

  ghost function StoredIn(schema: Schema, cveId: string, ms: seq<MatchEntry>): (n: nat)
    ensures n <= |ms|
  {
    if ms == [] then 0
    else StoredIn(schema, cveId, ms[..|ms| - 1]) + if IsStored(schema, cveId, ms[|ms| - 1]) then 1 else 0
  }

  lemma {:induction false} StoredInConcat(schema: Schema, cveId: string, a: seq<MatchEntry>, b: seq<MatchEntry>)
    ensures StoredIn(schema, cveId, a + b) == StoredIn(schema, cveId, a) + StoredIn(schema, cveId, b)
  {
    hide IsStored;
    if b == [] {
      assert a + b == a;
    } else {
      assert (a + b)[..|a + b| - 1] == a + b[..|b| - 1];
      StoredInConcat(schema, cveId, a, b[..|b| - 1]);
    }
  }

  /** All match entries that the ingested elements store, or find stored already. */
  ghost function MatchesStored(schema: Schema, es: seq<Element>): nat {
    if es == [] then 0
    else
      var e := es[|es| - 1];
      MatchesStored(schema, es[..|es| - 1]) +
      if IsIngested(schema, e) then StoredIn(schema, e.id.value, BudgetedMatches(e)) else 0
  }

  /** All match entries of the elements that were ingested. */
  ghost function MatchesSeen(schema: Schema, es: seq<Element>): nat {
    if es == [] then 0
    else MatchesSeen(schema, es[..|es| - 1]) + if IsIngested(schema, es[|es| - 1]) then |MatchesOf(es[|es| - 1])| else 0
  }

  // ---- one after the other ----

  lemma {:induction false} InsertMatchesConcat(schema: Schema, cpes: map<CpeKey, CpeData>, id: string,
                                               a: seq<MatchEntry>, b: seq<MatchEntry>)
    ensures InsertMatches(schema, cpes, id, a + b) == InsertMatches(schema, InsertMatches(schema, cpes, id, a), id, b)
  {
    hide OfferedCpe;
    if b == [] {
      assert a + b == a;
    } else {
      assert (a + b)[..|a + b| - 1] == a + b[..|b| - 1];
      InsertMatchesConcat(schema, cpes, id, a, b[..|b| - 1]);
    }
  }

  lemma {:induction false} ApplyConcat(schema: Schema, t: Tables, a: seq<Element>, b: seq<Element>)
    ensures ApplyElements(schema, t, a + b) == ApplyElements(schema, ApplyElements(schema, t, a), b)
  {
    hide ApplyElement;
    if b == [] {
      assert a + b == a;
    } else {
      assert (a + b)[..|a + b| - 1] == a + b[..|b| - 1];
      ApplyConcat(schema, t, a, b[..|b| - 1]);
    }
  }

  lemma {:induction false} ElementsOfPagesConcat(a: seq<Page>, b: seq<Page>)
    ensures ElementsOfPages(a + b) == ElementsOfPages(a) + ElementsOfPages(b)
  {
    if b == [] {
      assert a + b == a;
    } else {
      hide ElementsOf;
      assert (a + b)[..|a + b| - 1] == a + b[..|b| - 1];
      ElementsOfPagesConcat(a, b[..|b| - 1]);
      var x, y, z := ElementsOfPages(a), ElementsOfPages(b[..|b| - 1]), ElementsOf(b[|b| - 1]);
      assert x + y + z == x + (y + z);
    }
  }

  lemma ApplyPagesConcat(schema: Schema, t: Tables, a: seq<Page>, b: seq<Page>)
    ensures ApplyPages(schema, t, a + b) == ApplyPages(schema, ApplyPages(schema, t, a), b)
  {
    hide ApplyElements;
    ElementsOfPagesConcat(a, b);
    ApplyConcat(schema, t, ElementsOfPages(a), ElementsOfPages(b));
  }

  // ---- records lost to a failed bind ----

  /** An entry as it takes part in the ingest. When values cannot be bound to its statement it
      is skipped like an unreadable one, and the page goes on. */
  ghost predicate MatchKept(reliable: bool, m: MatchEntry, seen: MatchEntry) {
    seen == m || (!reliable && seen == NotAnObject)
  }

  ghost predicate NodeKept(reliable: bool, node: Node, seen: Node) {
    |seen| == |node| && forall i :: 0 <= i < |node| ==> MatchKept(reliable, node[i], seen[i])
  }

  ghost predicate NodesKept(reliable: bool, nodes: seq<Node>, seen: seq<Node>) {
    |seen| == |nodes| && forall i :: 0 <= i < |nodes| ==> NodeKept(reliable, nodes[i], seen[i])
  }

  ghost predicate ConfigurationsKept(reliable: bool, cs: seq<seq<Node>>, seen: seq<seq<Node>>) {
    |seen| == |cs| && forall i :: 0 <= i < |cs| ==> NodesKept(reliable, cs[i], seen[i])
  }

  /** A whole element is skipped, like one without an id, when its own row cannot be bound. */
  ghost predicate ElementKept(reliable: bool, e: Element, seen: Element) {
    || (seen == e.(configurations := seen.configurations) &&
        ConfigurationsKept(reliable, e.configurations, seen.configurations))
    || (!reliable && seen == e.(id := None))
  }

  ghost predicate ElementsKept(reliable: bool, es: seq<Element>, seen: seq<Element>) {
    |seen| == |es| && forall i :: 0 <= i < |es| ==> ElementKept(reliable, es[i], seen[i])
  }

  ghost predicate PageKept(reliable: bool, page: Page, seen: Page) {
    && seen == page.(vulnerabilities := seen.vulnerabilities)
    && (seen.vulnerabilities.Some? <==> page.vulnerabilities.Some?)
    && (page.vulnerabilities.Some? ==> ElementsKept(reliable, page.vulnerabilities.value, seen.vulnerabilities.value))
  }

  ghost predicate PagesKept(reliable: bool, pages: seq<Page>, seen: seq<Page>) {
    |seen| == |pages| && forall i :: 0 <= i < |pages| ==> PageKept(reliable, pages[i], seen[i])
  }

  lemma NodesAreWhole(nodes: seq<Node>, seen: seq<Node>)
    requires NodesKept(true, nodes, seen)
    ensures seen == nodes
  {
    forall i | 0 <= i < |nodes|
      ensures seen[i] == nodes[i]
    {
      assert NodeKept(true, nodes[i], seen[i]);
    }
  }

  lemma ElementIsWhole(e: Element, seen: Element)
    requires ElementKept(true, e, seen)
    ensures seen == e
  {
    forall i | 0 <= i < |e.configurations|
      ensures seen.configurations[i] == e.configurations[i]
    {
      NodesAreWhole(e.configurations[i], seen.configurations[i]);
    }
    assert seen.configurations == e.configurations;
  }

  lemma PageIsWhole(page: Page, seen: Page)
    requires PageKept(true, page, seen)
    ensures seen == page
  {
    hide ElementKept;
    if page.vulnerabilities.Some? {
      var es, ss := page.vulnerabilities.value, seen.vulnerabilities.value;
      forall i | 0 <= i < |es|
        ensures ss[i] == es[i]
      {
        ElementIsWhole(es[i], ss[i]);
      }
      assert ss == es;
    }
  }

  /** A reliable database loses nothing. */
  lemma ReliableKeepsAll(pages: seq<Page>, seen: seq<Page>)
    requires PagesKept(true, pages, seen)
    ensures seen == pages
  {
    hide PageKept;
    forall i | 0 <= i < |pages|
      ensures seen[i] == pages[i]
    {
      PageIsWhole(pages[i], seen[i]);
    }
  }

  lemma LostIsSkipped(schema: Schema, e: Element)
    ensures !IsIngested(schema, e.(id := None))
  {
  }

  lemma OneElement(schema: Schema, t: Tables, e: Element)
    ensures ApplyElements(schema, t, [e]) == ApplyElement(schema, t, e)
  {
    hide ApplyElement;
    assert [e][..0] == [];
  }

  /** Losing a record is possible: a page with one good element may commit and leave the
      tables as they were. */
  lemma RecordCanBeLost(schema: Schema, t: Tables, e: Element)
    requires IsIngested(schema, e) && e.id.value !in t.cves
    ensures var page, seen := Page(Some(1.0), Some([e])), Page(Some(1.0), Some([e.(id := None)]));
            && PageKept(false, page, seen)
            && ApplyElements(schema, t, ElementsOf(seen)) == t != ApplyElements(schema, t, ElementsOf(page))
  {
    hide InsertMatches, OfferedRow;
    var lost := e.(id := None);
    assert ElementKept(false, e, lost);
    OneElement(schema, t, lost);
    OneElement(schema, t, e);
    LostIsSkipped(schema, e);
  }

  // ---- the ingest as it runs ----

  datatype IngestStatus = Ok | InvalidArg | ParseError | DbError

  datatype SyncStatus = Idle | Running | Success

  method ReadCpeMatch(cveId: string, m: MatchEntry) returns (r: Option<(CpeKey, CpeData)>)
    ensures r == OfferedCpe(cveId, m)
  {
    if m.NotAnObject? || m.criteria.None? || m.criteria.value == [] {
      return None;
    }
    var uri := Clip(m.criteria.value, CPE_URI_MAX_LEN);
    var hasPart, part := FieldAt(uri, ':', 2);
    var hasVendor, vendor := FieldAt(uri, ':', 3);
    var hasProduct, product := FieldAt(uri, ':', 4);
    var hasVersion, version := FieldAt(uri, ':', 5);
    if !hasPart || !hasVendor || !hasProduct || !hasVersion {
      return None;
    }
    if |part| != 1 || (part[0] != 'a' && part[0] != 'o' && part[0] != 'h') {
      return None;
    }
    assert part == [part[0]];
    if |vendor| == 0 || |product| == 0 {
      return None;
    }
    var data := CpeData(part, Ascii.Lower(Clip(vendor, VENDOR_PRODUCT_MAX_LEN)),
                        Ascii.Lower(Clip(product, VENDOR_PRODUCT_MAX_LEN)), Clip(version, VERSION_MAX_LEN));
    var key := CpeKey(cveId, uri, Clip(m.startIncluding, VERSION_MAX_LEN), Clip(m.startExcluding, VERSION_MAX_LEN),
                      Clip(m.endIncluding, VERSION_MAX_LEN), Clip(m.endExcluding, VERSION_MAX_LEN), m.vulnerable);
    var anyBound := key.startIncluding != [] || key.startExcluding != [] ||
                    key.endIncluding != [] || key.endExcluding != [];
    if data.version == "*" && !anyBound {
      return None;
    }
    return Some((key, data));
  }

  lemma TakeConcat<T>(a: seq<T>, b: seq<T>, n: nat)
    ensures Take(a + b, n) == Take(a, n) + Take(b, if |a| <= n then n - |a| else 0)
  {
  }

  function Remaining(n: nat, m: nat): nat {
    if m <= n then n - m else 0
  }

  lemma NoMatches(schema: Schema, cpes: map<CpeKey, CpeData>, cveId: string, budget: nat)
    ensures InsertMatches(schema, cpes, cveId, Take([], budget)) == cpes
    ensures StoredIn(schema, cveId, Take([], budget)) == 0
  {
  }

  /** One more entry counts while the budget lasts. */
  lemma OneMoreMatch(schema: Schema, cpes: map<CpeKey, CpeData>, cveId: string, seen: seq<MatchEntry>, m: MatchEntry,
                     budget: nat)
    ensures var before, after := Take(seen, budget), Take(seen + [m], budget);
            if |seen| >= budget then after == before
            else
              && InsertMatches(schema, cpes, cveId, after) ==
                 InsertMatch(schema, InsertMatches(schema, cpes, cveId, before), cveId, m)
              && StoredIn(schema, cveId, after) ==
                 StoredIn(schema, cveId, before) + if IsStored(schema, cveId, m) then 1 else 0
  {
    hide InsertMatch, IsStored;
    if |seen| < budget {
      assert (seen + [m])[..|seen|] == seen;
    }
  }

  /** One element, counted with all its entries, or skipped. */
  ghost function AddElement(schema: Schema, counts: Counts, e: Element): Counts {
    if IsIngested(schema, e) then
      AddMatches(counts.(cveIngested := counts.cveIngested + 1),
                 StoredIn(schema, e.id.value, BudgetedMatches(e)), |MatchesOf(e)|)
    else counts.(cveSkipped := counts.cveSkipped + 1)
  }

  ghost function CountsOf(schema: Schema, es: seq<Element>): Counts {
    if es == [] then Counts(0, 0, 0, 0) else AddElement(schema, CountsOf(schema, es[..|es| - 1]), es[|es| - 1])
  }

  lemma BudgetIsPart(e: Element)
    ensures |BudgetedMatches(e)| <= |MatchesOf(e)|
  {
    hide MatchesOf;
  }

  lemma {:induction false} CountsMean(schema: Schema, es: seq<Element>)
    ensures var counts := CountsOf(schema, es);
            && counts.cveIngested == IngestedIn(schema, es)
            && counts.cveIngested + counts.cveSkipped == |es|
            && counts.cpeIngested == MatchesStored(schema, es)
            && counts.cpeIngested + counts.cpeSkipped == MatchesSeen(schema, es)
  {
    hide IsIngested, BudgetedMatches, MatchesOf, StoredIn;
    if es != [] {
      CountsMean(schema, es[..|es| - 1]);
      BudgetIsPart(es[|es| - 1]);
    }
  }

  lemma NoElementYet(schema: Schema, t: Tables)
    ensures ApplyElements(schema, t, []) == t && CountsOf(schema, []) == Counts(0, 0, 0, 0)
  {
  }

  lemma OneMoreElement(schema: Schema, t: Tables, es: seq<Element>, e: Element)
    ensures ApplyElements(schema, t, es + [e]) == ApplyElement(schema, ApplyElements(schema, t, es), e)
    ensures CountsOf(schema, es + [e]) == AddElement(schema, CountsOf(schema, es), e)
  {
    hide ApplyElement, AddElement;
    assert (es + [e])[..|es|] == es;
  }

  /** What the walk over nested nodes has done once the nodes `seen` are behind it. */
  ghost predicate Budgeted(schema: Schema, before: Tables, now: Tables, cveId: string, seen: seq<Node>, budget: nat,
                           counts: Counts, counts': Counts) {
    var all := Flatten(seen);
    && budget == Remaining(MAX_CPE_PER_CVE, |all|)
    && now == before.(cpes := InsertMatches(schema, before.cpes, cveId, Take(all, MAX_CPE_PER_CVE)))
    && counts' == AddMatches(counts, StoredIn(schema, cveId, Take(all, MAX_CPE_PER_CVE)), |all|)
  }

  lemma NothingInserted(schema: Schema, before: Tables, cveId: string, counts: Counts)
    ensures Budgeted(schema, before, before, cveId, Flatten<Node>([]), MAX_CPE_PER_CVE, counts, counts)
  {
  }

  lemma WalkDone(schema: Schema, before: Tables, now: Tables, cveId: string, seen: seq<Node>, budget: nat,
                 counts: Counts, counts': Counts)
    requires Budgeted(schema, before, now, cveId, seen, budget, counts, counts')
    ensures var all := Flatten(seen);
            && now == before.(cpes := InsertMatches(schema, before.cpes, cveId, Take(all, MAX_CPE_PER_CVE)))
            && counts' == AddMatches(counts, StoredIn(schema, cveId, Take(all, MAX_CPE_PER_CVE)), |all|)
  {
  }

  /** The shared budget makes the nested walk a prefix of the flattened list. */
  lemma OneMoreNode(schema: Schema, before: Tables, now: Tables, cveId: string, seen: seq<Node>, node: Node,
                    budget: nat, counts: Counts, counts': Counts)
    requires Budgeted(schema, before, now, cveId, seen, budget, counts, counts')
    ensures Budgeted(schema, before, now.(cpes := InsertMatches(schema, now.cpes, cveId, Take(node, budget))), cveId,
                     seen + [node], Remaining(budget, |node|), counts,
                     AddMatches(counts', StoredIn(schema, cveId, Take(node, budget)), |node|))
  {
    hide InsertMatches, StoredIn;
    var all := Flatten(seen);
    assert (seen + [node])[..|seen|] == seen;
    TakeConcat(all, node, MAX_CPE_PER_CVE);
    InsertMatchesConcat(schema, before.cpes, cveId, Take(all, MAX_CPE_PER_CVE), Take(node, budget));
    StoredInConcat(schema, cveId, Take(all, MAX_CPE_PER_CVE), Take(node, budget));
  }

  /** The database. `reliable` says that no bind, statement or commit fails for reasons other
      than a constraint; it decides nothing else. */
  class NvdDb {
    const schema: Schema
    const reliable: bool
    var tables: Tables
    var watermark: Option<string>
    var totalRecords: nat
    var syncStatus: SyncStatus

    constructor (schema: Schema, reliable: bool)
      ensures this.schema == schema && this.reliable == reliable && tables == Tables(map[], map[])
      ensures watermark == None && totalRecords == 0 && syncStatus == Idle
    {
      this.schema, this.reliable := schema, reliable;
      tables := Tables(map[], map[]);
      watermark, totalRecords, syncStatus := None, 0, Idle;
    }

    /** Three ways to go: the row is in the table afterwards; the entry is skipped, because it
        offers no row, the row breaks a constraint or its values could not be bound; or the
        statement fails and the whole page with it. */
    method ProcessCpeMatch(cveId: string, m: MatchEntry, counts: Counts)
      returns (counts': Counts, fatal: bool, ghost seen: MatchEntry)
      modifies this`tables
      ensures fatal ==> !reliable
      ensures MatchKept(reliable, m, seen)
      ensures !fatal ==>
                && tables == old(tables).(cpes := InsertMatch(schema, old(tables).cpes, cveId, seen))
                && counts' == AddMatches(counts, if IsStored(schema, cveId, seen) then 1 else 0, 1)
    {
      counts', seen := counts, m;
      var offered := ReadCpeMatch(cveId, m);
      if offered.None? {
        return counts.(cpeSkipped := counts.cpeSkipped + 1), false, m;
      }
      var bound, broken: bool := *, *;
      if !bound && !reliable {
        return counts.(cpeSkipped := counts.cpeSkipped + 1), false, NotAnObject;
      }
      var (key, data) := offered.value;
      if broken && !reliable {
        return counts, true, m;
      }
      if !schema.acceptsCpe(key, data) {
        return counts.(cpeSkipped := counts.cpeSkipped + 1), false, m;
      }
      tables := tables.(cpes := InsertIfNew(tables.cpes, key, data));
      return counts.(cpeIngested := counts.cpeIngested + 1), false, m;
    }

    /** One node; `budget` is shared by all nodes of the element. */
    method ProcessCpeNode(cveId: string, node: Node, budget: nat, counts: Counts)
      returns (budget': nat, counts': Counts, fatal: bool, ghost seen: Node)
      modifies this`tables
      ensures fatal ==> !reliable
      ensures !fatal ==>
                && NodeKept(reliable, node, seen) && |seen| == |node|
                && budget' == Remaining(budget, |node|)
                && tables == old(tables).(cpes := InsertMatches(schema, old(tables).cpes, cveId, Take(seen, budget)))
                && counts' == AddMatches(counts, StoredIn(schema, cveId, Take(seen, budget)), |node|)
    {
      hide InsertMatch, IsStored, InsertMatches, StoredIn, Take;
      NoMatches(schema, tables.cpes, cveId, budget);
      budget', counts', seen := budget, counts, [];
      for i := 0 to |node|
        invariant |seen| == i && forall j :: 0 <= j < i ==> MatchKept(reliable, node[j], seen[j])
        invariant budget' == Remaining(budget, i)
        invariant tables == old(tables).(cpes := InsertMatches(schema, old(tables).cpes, cveId, Take(seen, budget)))
        invariant counts' == AddMatches(counts, StoredIn(schema, cveId, Take(seen, budget)), i)
      {
        if budget' == 0 {
          OneMoreMatch(schema, old(tables).cpes, cveId, seen, node[i], budget);
          seen := seen + [node[i]];
          counts' := counts'.(cpeSkipped := counts'.cpeSkipped + 1);
          continue;
        }
        budget' := budget' - 1;
        ghost var kept;
        counts', fatal, kept := ProcessCpeMatch(cveId, node[i], counts');
        if fatal {
          return;
        }
        OneMoreMatch(schema, old(tables).cpes, cveId, seen, kept, budget);
        seen := seen + [kept];
      }
      fatal := false;
    }

    method ProcessConfigurations(cveId: string, configurations: seq<seq<Node>>, counts: Counts)
      returns (counts': Counts, fatal: bool, ghost seen: seq<seq<Node>>)
      modifies this`tables
      ensures fatal ==> !reliable
      ensures var all := Flatten(Flatten(seen));
              !fatal ==>
                && ConfigurationsKept(reliable, configurations, seen)
                && tables == old(tables).(
                     cpes := InsertMatches(schema, old(tables).cpes, cveId, Take(all, MAX_CPE_PER_CVE)))
                && counts' == AddMatches(counts, StoredIn(schema, cveId, Take(all, MAX_CPE_PER_CVE)), |all|)
    {
      hide InsertMatches, StoredIn, NodeKept, Budgeted;
      var budget: nat := MAX_CPE_PER_CVE;
      counts', seen := counts, [];
      NothingInserted(schema, tables, cveId, counts);
      for i := 0 to |configurations|
        invariant |seen| == i && forall k :: 0 <= k < i ==> NodesKept(reliable, configurations[k], seen[k])
        invariant Budgeted(schema, old(tables), tables, cveId, Flatten(seen), budget, counts, counts')
      {
        var nodes := configurations[i];
        ghost var before := Flatten(seen);
        ghost var nodesSeen: seq<Node> := [];
        assert before + [] == before;
        for j := 0 to |nodes|
          invariant |nodesSeen| == j && forall k :: 0 <= k < j ==> NodeKept(reliable, nodes[k], nodesSeen[k])
          invariant Budgeted(schema, old(tables), tables, cveId, before + nodesSeen, budget, counts, counts')
        {
          ghost var left, sofar, counted := budget, tables, counts';
          ghost var kept;
          budget, counts', fatal, kept := ProcessCpeNode(cveId, nodes[j], budget, counts');
          if fatal {
            return;
          }
          OneMoreNode(schema, old(tables), sofar, cveId, before + nodesSeen, kept, left, counts, counted);
          assert before + (nodesSeen + [kept]) == before + nodesSeen + [kept];
          nodesSeen := nodesSeen + [kept];
        }
        assert (seen + [nodesSeen])[..|seen|] == seen;
        seen := seen + [nodesSeen];
      }
      WalkDone(schema, old(tables), tables, cveId, Flatten(seen), budget, counts, counts');
      fatal := false;
    }

    static lemma AllKept(reliable: bool, cs: seq<seq<Node>>)
      ensures ConfigurationsKept(reliable, cs, cs)
    {
    }

    method ProcessCve(e: Element, counts: Counts) returns (counts': Counts, fatal: bool, ghost seen: Element)
      modifies this`tables
      ensures fatal ==> !reliable
      ensures !fatal ==>
                && ElementKept(reliable, e, seen)
                && tables == ApplyElement(schema, old(tables), seen)
                && counts' == AddElement(schema, counts, seen)
    {
      hide InsertMatches, NormalizeTimestamp, SeverityOf, IsCveId, StoredIn, ConfigurationsKept;
      counts', fatal, seen := counts.(cveSkipped := counts.cveSkipped + 1), false, e;
      AllKept(reliable, e.configurations);
      if e.id.None? || |e.id.value| > CVE_ID_MAX_LEN || !IsCveId(e.id.value) {
        return;
      }
      var published := NormalizeTimestamp(e.published);
      if published.None? {
        return;
      }
      var lastModified := NormalizeTimestamp(e.lastModified);
      if lastModified.None? {
        return;
      }
      var row := CveRow(published.value, lastModified.value, e.description, e.v3, e.v2, SeverityOf(e.v3, e.v2));
      var bound, broken: bool := *, *;
      if !bound && !reliable {
        seen := e.(id := None);
        return;
      }
      if broken && !reliable {
        return counts, true, e;
      }
      if !schema.acceptsCve(e.id.value, row) {
        return;
      }
      tables := tables.(cves := Upsert(tables.cves, e.id.value, row));
      counts' := counts.(cveIngested := counts.cveIngested + 1);
      ghost var configurations;
      counts', fatal, configurations := ProcessConfigurations(e.id.value, e.configurations, counts');
      seen := e.(configurations := configurations);
    }

    /** Elements beyond the cap are not looked at, let alone lost. */
    static lemma RestIsKept(reliable: bool, es: seq<Element>, kept: seq<Element>)
      requires |kept| <= |es| && forall i :: 0 <= i < |kept| ==> ElementKept(reliable, es[i], kept[i])
      ensures ElementsKept(reliable, es, kept + es[|kept|..])
    {
      hide ConfigurationsKept;
      forall i | 0 <= i < |es| {
        AllKept(reliable, es[i].configurations);
      }
    }

    /** One page in one transaction. Only a complete window moves the watermark; any failure,
        the commit included, leaves everything as it was. `seen` is the page less the records
        lost to failed binds, which is the whole page for a reliable database. */
    method IngestPage(page: Page, endDate: string, windowComplete: bool)
      returns (status: IngestStatus, counts: Counts, ghost seen: Page)
      modifies this
      ensures status != Ok ==>
                tables == old(tables) && watermark == old(watermark) && totalRecords == old(totalRecords) &&
                syncStatus == old(syncStatus)
      ensures status == DbError ==> !reliable
      ensures status == InvalidArg <==> endDate == []
      ensures status == ParseError <==> endDate != [] && page.vulnerabilities.None?
      ensures status == Ok ==>
                && PageKept(reliable, page, seen)
                && tables == ApplyElements(schema, old(tables), ElementsOf(seen))
                && watermark == (if windowComplete then Some(endDate) else old(watermark))
                && syncStatus == (if windowComplete then Success else Running)
                && totalRecords == old(totalRecords) + counts.cveIngested + counts.cveSkipped
                && counts.cveIngested + counts.cveSkipped == |page.vulnerabilities.value|
                && counts.cveIngested == IngestedIn(schema, ElementsOf(seen))
                && counts.cpeIngested == MatchesStored(schema, ElementsOf(seen))
                && counts.cpeIngested + counts.cpeSkipped == MatchesSeen(schema, ElementsOf(seen))
    {
      hide ApplyElement, ApplyElements, AddElement, CountsOf, IngestedIn, MatchesStored, MatchesSeen, ElementKept,
           ElementsKept;
      counts, seen := Counts(0, 0, 0, 0), page;
      if endDate == [] {
        return InvalidArg, counts, seen;
      }
      if page.vulnerabilities.None? {
        return ParseError, counts, seen;
      }
      var es := page.vulnerabilities.value;
      ghost var kept: seq<Element> := [];
      NoElementYet(schema, tables);
      var beforeBegin := tables;
      var processed, fatal := 0, false;
      while processed < |es| && processed < MAX_CVES_PER_PAGE
        invariant processed <= |es| && processed <= MAX_CVES_PER_PAGE
        invariant |kept| == processed && forall i :: 0 <= i < processed ==> ElementKept(reliable, es[i], kept[i])
        invariant tables == ApplyElements(schema, beforeBegin, kept)
        invariant watermark == old(watermark) && totalRecords == old(totalRecords) && syncStatus == old(syncStatus)
        invariant counts == CountsOf(schema, kept)
      {
        ghost var one;
        counts, fatal, one := ProcessCve(es[processed], counts);
        if fatal {
          tables := beforeBegin;
          return DbError, counts, seen;
        }
        OneMoreElement(schema, beforeBegin, kept, one);
        kept := kept + [one];
        processed := processed + 1;
      }
      seen := page.(vulnerabilities := Some(kept + es[processed..]));
      RestIsKept(reliable, es, kept);
      assert ElementsOf(seen) == kept;
      CountsMean(schema, kept);
      counts := counts.(cveSkipped := counts.cveSkipped + (|es| - processed));
      var updated, committed: bool := *, *;
      if !reliable && (!updated || !committed) {
        tables := beforeBegin;
        return DbError, counts, seen;
      }
      totalRecords := totalRecords + counts.cveIngested + counts.cveSkipped;
      if windowComplete {
        watermark, syncStatus := Some(endDate), Success;
      } else {
        syncStatus := Running;
      }
      return Ok, counts, seen;
    }
  }
}
