/** From feed to finding: what the match table filled by ingests makes a scan report, for a
    product named by its vendor and product or recognised in a banner. */
module Detection {
  import opened Wrappers
  import opened Ascii
  import opened Splitting
  import I = NvdIngest
  import R = NvdRecords
  import opened CpeMatch
  import opened ScanPersist
  import opened VersionOrder
  import CpeMap

  /** The columns of the candidate query, for one row of the match table. */
  function CandidateOf(key: I.CpeKey, data: I.CpeData): Candidate {
    Candidate(Some(key.cveId),
              Row(data.version, key.startIncluding, key.startExcluding, key.endIncluding, key.endExcluding,
                  if key.vulnerable then 1 else 0))
  }

  /** The row is in the table under this vendor and product, and the candidate shows it. */
  ghost predicate IsFound(cpes: map<I.CpeKey, I.CpeData>, vendor: string, product: string, key: I.CpeKey,
                          c: Candidate) {
    key in cpes && cpes[key].vendor == vendor && cpes[key].product == product && c == CandidateOf(key, cpes[key])
  }

  /** The query answers, for every vendor and product, with exactly the rows of the table that
      carry both, ordered by CVE id. */
  ghost predicate Answers(query: (string, string) -> seq<Candidate>, cpes: map<I.CpeKey, I.CpeData>) {
    forall v, p ::
      && OrderedById(query(v, p))
      && (forall key :: key in cpes && cpes[key].vendor == v && cpes[key].product == p ==>
            CandidateOf(key, cpes[key]) in query(v, p))
      && (forall c :: c in query(v, p) ==> exists key :: IsFound(cpes, v, p, key, c))
  }

  ghost function TableOf(schema: I.Schema, es: seq<I.Element>): map<I.CpeKey, I.CpeData> {
    I.ApplyElements(schema, I.Tables(map[], map[]), es).cpes
  }

  /** Some element of the feed names the vendor and product, in any case, in one of its entries;
      the entry was stored, and the CVE it belongs to is `id`. */
  ghost predicate Names(schema: I.Schema, es: seq<I.Element>, i: nat, m: I.MatchEntry, fields: seq<string>, id: string,
                        vendor: string, product: string) {
    && i < |es| && I.IsIngested(schema, es[i]) && es[i].id == Some(id) && R.IsEntryOf(m, es[i])
    && R.IsSpelled(m, fields) && R.IsSpecific(m, fields) && I.IsStored(schema, id, m)
    && Lower(fields[3]) == Lower(vendor) && Lower(fields[4]) == Lower(product)
  }

  /** The row by which an entry is judged. */
  function RowOfEntry(m: I.MatchEntry, version: string): Row
    requires m.MatchEntry?
  {
    Row(version, m.startIncluding, m.startExcluding, m.endIncluding, m.endExcluding, if m.vulnerable then 1 else 0)
  }

  /** An entry of the feed is among the candidates for its vendor and product. */
  lemma EntryIsCandidate(schema: I.Schema, es: seq<I.Element>, i: nat, m: I.MatchEntry, fields: seq<string>, id: string,
                         vendor: string, product: string, query: (string, string) -> seq<Candidate>)
    requires Names(schema, es, i, m, fields, id, vendor, product) && Answers(query, TableOf(schema, es))
    ensures Candidate(Some(id), RowOfEntry(m, fields[5])) in query(Lower(vendor), Lower(product))
  {
    hide I.IsIngested, I.OfferedCpe, I.ApplyElements, Join, R.IsSpecific, R.IsEntryOf, Lower, R.IsLowerOf, OrderedById;
    R.EntryExactly(id, m, fields);
    var (key, data) := I.OfferedCpe(id, m).value;
    assert R.IsStoredFrom(schema, es, i, m, key);
    R.StoredExactly(schema, es, key);
    R.LowerIsUnique(data.vendor, fields[3]);
    R.LowerIsUnique(data.product, fields[4]);
    var cpes := TableOf(schema, es);
    assert cpes[key] == data;
    assert CandidateOf(key, cpes[key]) in query(Lower(vendor), Lower(product));
  }

  ghost predicate IsReported(report: seq<ScanResult>, id: string, status: MatchStatus) {
    exists k :: 0 <= k < |report| && report[k].cveId == id && report[k].status == status
  }

  lemma MatchedIsConfirmed(report: seq<ScanResult>, scan: Scan, rows: seq<Candidate>, detected: string, id: string,
                           row: Row)
    requires Reports(report, scan, rows, detected, None) && 0 < |id| <= 64
    requires Candidate(Some(id), row) in rows && Evaluate(row, detected) == Match
    ensures IsReported(report, id, Confirmed)
  {
    hide Reports, Evaluate;
    var i :| 0 <= i < |rows| && rows[i] == Candidate(Some(id), row);
    assert SomeCandidateIs(rows, id, detected, Match);
    ReportExactly(report, scan, rows, detected);
    assert ReportHas(report, id);
    var k :| 0 <= k < |report| && report[k].cveId == id;
    assert ResultIsExact(report[k], scan, rows, detected);
  }

  lemma IngestedIdFits(schema: I.Schema, e: I.Element)
    requires I.IsIngested(schema, e)
    ensures 0 < |e.id.value| <= 64
  {
  }

  /** A vulnerable entry of the feed with version bounds, none of them "*" or "-" alone: every
      scan that detects its product in a version decided to be within those bounds reports its
      CVE as confirmed. */
  lemma WithinBoundsIsConfirmed(schema: I.Schema, es: seq<I.Element>, i: nat, m: I.MatchEntry, fields: seq<string>,
                                id: string, vendor: string, product: string,
                                query: (string, string) -> seq<Candidate>, scan: Scan, detected: string,
                                report: seq<ScanResult>)
    requires Names(schema, es, i, m, fields, id, vendor, product) && Answers(query, TableOf(schema, es))
    requires Reports(report, scan, query(Lower(vendor), Lower(product)), detected, None)
    requires m.vulnerable && fields[5] == "*"
    requires var row := RowOfEntry(m, "*"); !HasSentinelBound(row) && IsWithin(row, detected)
    ensures IsReported(report, id, Confirmed)
  {
    hide Reports, Evaluate, I.OfferedRow, HasSentinelBound, IsWithin, Answers, Lower;
    EntryIsCandidate(schema, es, i, m, fields, id, vendor, product, query);
    RangeRowExactly(RowOfEntry(m, "*"), detected);
    IngestedIdFits(schema, es[i]);
    MatchedIsConfirmed(report, scan, query(Lower(vendor), Lower(product)), detected, id, RowOfEntry(m, "*"));
  }

  /** The same for an entry that names one version: detecting a version decided equal to it
      confirms the CVE. */
  lemma EqualVersionIsConfirmed(schema: I.Schema, es: seq<I.Element>, i: nat, m: I.MatchEntry, fields: seq<string>,
                                id: string, vendor: string, product: string,
                                query: (string, string) -> seq<Candidate>, scan: Scan, detected: string,
                                report: seq<ScanResult>)
    requires Names(schema, es, i, m, fields, id, vendor, product) && Answers(query, TableOf(schema, es))
    requires Reports(report, scan, query(Lower(vendor), Lower(product)), detected, None)
    requires m.vulnerable && fields[5] != "*" && fields[5] != "" && Compare(detected, fields[5]) == Verdict.Equal
    ensures IsReported(report, id, Confirmed)
  {
    hide Reports, Evaluate, I.OfferedRow, Compare, Answers, Lower;
    EntryIsCandidate(schema, es, i, m, fields, id, vendor, product, query);
    ExactRowExactly(RowOfEntry(m, fields[5]), detected);
    IngestedIdFits(schema, es[i]);
    MatchedIsConfirmed(report, scan, query(Lower(vendor), Lower(product)), detected, id, RowOfEntry(m, fields[5]));
  }

  /** Some entry of the feed was stored under the vendor and product, and matches. */
  ghost predicate IsFlagged(schema: I.Schema, es: seq<I.Element>, i: nat, m: I.MatchEntry, key: I.CpeKey, id: string,
                            vendor: string, product: string, detected: string) {
    && R.IsStoredFrom(schema, es, i, m, key) && es[i].id == Some(id) && I.OfferedCpe(id, m).Some?
    && var data := I.OfferedCpe(id, m).value.1;
       && data.vendor == Lower(vendor) && data.product == Lower(product)
       && Evaluate(CandidateOf(key, data).row, detected) == Match
  }

  lemma OfferedIdIsOwn(cveId: string, m: I.MatchEntry)
    ensures I.OfferedCpe(cveId, m).Some? ==> I.OfferedCpe(cveId, m).value.0.cveId == cveId
  {
  }

  /** No finding without a cause: behind every confirmed result stands an entry of an ingested
      element with that CVE id, stored under the detected vendor and product, that matches. */
  lemma ConfirmedHasCause(schema: I.Schema, es: seq<I.Element>, vendor: string, product: string,
                          query: (string, string) -> seq<Candidate>, scan: Scan, detected: string,
                          report: seq<ScanResult>, id: string)
    requires Answers(query, TableOf(schema, es)) && IsReported(report, id, Confirmed)
    requires Reports(report, scan, query(Lower(vendor), Lower(product)), detected, None)
    ensures exists i: nat, m, key :: IsFlagged(schema, es, i, m, key, id, vendor, product, detected)
  {
    hide Reports, Evaluate, I.OfferedCpe, I.ApplyElements, I.IsIngested, R.IsEntryOf, Lower, OrderedById;
    var rows := query(Lower(vendor), Lower(product));
    var k :| 0 <= k < |report| && report[k].cveId == id && report[k].status == Confirmed;
    ReportExactly(report, scan, rows, detected);
    assert ResultIsExact(report[k], scan, rows, detected);
    var n :| 0 <= n < |rows| && rows[n].cveId == Some(id) && Evaluate(rows[n].row, detected) == Match;
    var cpes := TableOf(schema, es);
    assert rows[n] in query(Lower(vendor), Lower(product));
    var key :| IsFound(cpes, Lower(vendor), Lower(product), key, rows[n]);
    R.StoredExactly(schema, es, key);
    var i: nat, m :| R.IsStoredFrom(schema, es, i, m, key);
    OfferedIdIsOwn(es[i].id.value, m);
    assert IsFlagged(schema, es, i, m, key, id, vendor, product, detected);
  }

  /** From banner to finding: the product and version recognised in a banner, written to the
      knowledge base and read back, are those under which the feed's entries are looked up. */
  lemma BannerIsConfirmed(schema: I.Schema, es: seq<I.Element>, i: nat, m: I.MatchEntry, fields: seq<string>,
                          id: string, text: string, rule: CpeMap.Rule, version: string, service: CpeMap.Service,
                          query: (string, string) -> seq<Candidate>, scan: Scan, report: seq<ScanResult>)
    requires CpeMap.Identifies(text, rule, version)
    requires CpeMap.Resolve(CpeMap.ClipValue(CpeMap.CpeText(rule, version))) == Some(service)
    requires Names(schema, es, i, m, fields, id, rule.vendor, rule.product) && Answers(query, TableOf(schema, es))
    requires Reports(report, scan, query(Lower(service.vendor), Lower(service.product)), service.version, None)
    requires m.vulnerable && fields[5] == "*"
    requires var row := RowOfEntry(m, "*"); !HasSentinelBound(row) && IsWithin(row, version)
    ensures IsReported(report, id, Confirmed)
  {
    hide CpeMap.Identifies, CpeMap.Resolve, CpeMap.CpeText, CpeMap.ClipValue, Names, Answers, Reports,
         HasSentinelBound, IsWithin;
    CpeMap.StoredCpeResolves(text, rule, version);
    WithinBoundsIsConfirmed(schema, es, i, m, fields, id, rule.vendor, rule.product, query, scan, version, report);
  }
}
