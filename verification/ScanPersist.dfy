/** Aggregating row outcomes into one verdict per CVE, and the streaming pass over candidate
    rows that persists those verdicts in one transaction. */
module ScanPersist {
  import opened Wrappers
  import opened CpeMatch
  import Ascii

  datatype MatchStatus = Confirmed | Undetermined | NotAffected

  /** `status` is None when no row of the CVE was decidable or even well formed. */
  datatype CveVerdict = CveVerdict(status: Option<MatchStatus>, malformed: nat)

  const CVE_ID_MAX_LEN := 64
  const VENDOR_PRODUCT_MAX_LEN := 256

  // ---- per-CVE aggregation ----

  /** The verdict is read off the collection of outcomes, which has no order. */
  function VerdictOf(outcomes: multiset<Outcome>): CveVerdict {
    var status :=
      if Match in outcomes then Some(Confirmed)
      else if CannotDecide in outcomes then Some(Undetermined)
      else if NoMatch in outcomes then Some(NotAffected)
      else None;
    CveVerdict(status, outcomes[MalformedRow])
  }

  ghost function Outcomes(rows: seq<Row>, detected: string): multiset<Outcome> {
    if rows == [] then multiset{}
    else Outcomes(rows[..|rows| - 1], detected) + multiset{Evaluate(rows[|rows| - 1], detected)}
  }

  ghost function Aggregate(rows: seq<Row>, detected: string): CveVerdict {
    VerdictOf(Outcomes(rows, detected))
  }

  /** The flags one group of rows is folded into. */
  class Accumulator {
    var anyMatch: bool
    var anyUndecidable: bool
    var anyNoMatch: bool
    var malformed: nat

    ghost predicate Holds(outcomes: multiset<Outcome>)
      reads this
    {
      && (anyMatch <==> Match in outcomes)
      && (anyUndecidable <==> CannotDecide in outcomes)
      && (anyNoMatch <==> NoMatch in outcomes)
      && malformed == outcomes[MalformedRow]
    }

    constructor ()
      ensures Holds(multiset{})
    {
      anyMatch, anyUndecidable, anyNoMatch, malformed := false, false, false, 0;
    }

    method Reset()
      modifies this
      ensures Holds(multiset{})
    {
      anyMatch, anyUndecidable, anyNoMatch, malformed := false, false, false, 0;
    }

    method Accumulate(outcome: Outcome, ghost seen: multiset<Outcome>)
      requires Holds(seen)
      modifies this
      ensures Holds(seen + multiset{outcome})
    {
      match outcome {
        case Match => anyMatch := true;
        case NoMatch => anyNoMatch := true;
        case CannotDecide => anyUndecidable := true;
        case MalformedRow => malformed := malformed + 1;
      }
    }

    method Finalize(ghost seen: multiset<Outcome>) returns (v: CveVerdict)
      requires Holds(seen)
      ensures v == VerdictOf(seen)
    {
      if anyMatch {
        return CveVerdict(Some(Confirmed), malformed);
      }
      if anyUndecidable {
        return CveVerdict(Some(Undetermined), malformed);
      }
      if anyNoMatch {
        return CveVerdict(Some(NotAffected), malformed);
      }
      return CveVerdict(None, malformed);
    }
  }

  method AggregateCveVerdict(rows: seq<Row>, detected: string) returns (v: CveVerdict)
    ensures v == Aggregate(rows, detected)
  {
    hide Evaluate;
    var acc := new Accumulator();
    for i := 0 to |rows|
      invariant acc.Holds(Outcomes(rows[..i], detected))
    {
      var outcome := EvaluateRow(rows[i], detected);
      assert rows[..i + 1][..i] == rows[..i];
      acc.Accumulate(outcome, Outcomes(rows[..i], detected));
    }
    assert rows[..|rows|] == rows;
    v := acc.Finalize(Outcomes(rows, detected));
  }

  lemma {:induction false} OutcomesOfConcat(a: seq<Row>, b: seq<Row>, detected: string)
    ensures Outcomes(a + b, detected) == Outcomes(a, detected) + Outcomes(b, detected)
  {
    hide Evaluate;
    if b == [] {
      assert a + b == a;
    } else {
      assert (a + b)[..|a + b| - 1] == a + b[..|b| - 1];
      OutcomesOfConcat(a, b[..|b| - 1], detected);
    }
  }

  lemma MultisetWithout<T>(a: seq<T>, x: T, left: seq<T>, right: seq<T>)
    requires multiset(a + [x]) == multiset(left + ([x] + right))
    ensures multiset(a) == multiset(left + right)
  {
    assert multiset(a + [x]) == multiset(a) + multiset{x};
    assert multiset(left + ([x] + right)) == multiset(left) + (multiset{x} + multiset(right));
    assert multiset(a) == multiset(a + [x]) - multiset{x};
    assert multiset(left + right) == multiset(left) + multiset(right);
  }

  /** Where a row stands among the others does not matter. */
  lemma OutcomesAround(left: seq<Row>, x: Row, right: seq<Row>, detected: string)
    ensures Outcomes(left + ([x] + right), detected) ==
            Outcomes(left + right, detected) + multiset{Evaluate(x, detected)}
  {
    hide Evaluate;
    assert [x][..0] == [];
    assert Outcomes([x], detected) == multiset{Evaluate(x, detected)};
    OutcomesOfConcat(left, right, detected);
    OutcomesOfConcat([x], right, detected);
    OutcomesOfConcat(left, [x] + right, detected);
  }

  lemma {:induction false} OutcomesIgnoreOrder(a: seq<Row>, b: seq<Row>, detected: string)
    requires multiset(a) == multiset(b)
    ensures Outcomes(a, detected) == Outcomes(b, detected)
  {
    hide Evaluate, Outcomes;
    if a == [] {
      assert |multiset(b)| == 0;
      assert b == [];
    } else {
      var x := a[|a| - 1];
      var a' := a[..|a| - 1];
      assert a == a' + [x] && [x] == [x] + [] && a' == a' + [];
      assert x in multiset(b);
      var k :| 0 <= k < |b| && b[k] == x;
      var left, right := b[..k], b[k + 1..];
      assert b == left + ([x] + right);
      MultisetWithout(a', x, left, right);
      OutcomesIgnoreOrder(a', left + right, detected);
      OutcomesAround(a', x, [], detected);
      OutcomesAround(left, x, right, detected);
    }
  }

  /** Folding the rows of a CVE in any order gives the same verdict. */
  lemma AggregateIgnoresOrder(rows: seq<Row>, permuted: seq<Row>, detected: string)
    requires multiset(rows) == multiset(permuted)
    ensures Aggregate(rows, detected) == Aggregate(permuted, detected)
  {
    hide Evaluate;
    OutcomesIgnoreOrder(rows, permuted, detected);
  }

  /** No further row can take back a match, or turn an open question into "not affected". */
  lemma MoreRowsNeverReassure(rows: seq<Row>, more: seq<Row>, detected: string)
    ensures var s := Aggregate(rows, detected).status;
            var t := Aggregate(rows + more, detected).status;
            && (s == Some(Confirmed) ==> t == Some(Confirmed))
            && (s == Some(Undetermined) ==> t == Some(Confirmed) || t == Some(Undetermined))
            && (s.Some? ==> t.Some?)
    ensures Aggregate(rows + more, detected).malformed ==
            Aggregate(rows, detected).malformed + Aggregate(more, detected).malformed
  {
    hide Evaluate;
    OutcomesOfConcat(rows, more, detected);
  }

  ghost predicate SomeRowIs(rows: seq<Row>, detected: string, outcome: Outcome) {
    exists i :: 0 <= i < |rows| && Evaluate(rows[i], detected) == outcome
  }

  lemma {:induction false} OutcomesAre(rows: seq<Row>, detected: string, outcome: Outcome)
    ensures outcome in Outcomes(rows, detected) <==> SomeRowIs(rows, detected, outcome)
  {
    hide Evaluate;
    if rows != [] {
      var front, last := rows[..|rows| - 1], rows[|rows| - 1];
      OutcomesAre(front, detected, outcome);
      if i :| 0 <= i < |front| && Evaluate(front[i], detected) == outcome {
        assert Evaluate(rows[i], detected) == outcome;
      }
      if i :| 0 <= i < |rows| && Evaluate(rows[i], detected) == outcome {
        assert i < |front| ==> front[i] == rows[i];
      }
    }
  }

  /** The verdict in terms of the rows: one match confirms; without a match one open question
      leaves the CVE undetermined; only with neither does a "no match" clear it. */
  lemma AggregateExactly(rows: seq<Row>, detected: string)
    ensures var status := Aggregate(rows, detected).status;
            && (status == Some(Confirmed) <==> SomeRowIs(rows, detected, Match))
            && (status == Some(Undetermined) <==>
                  !SomeRowIs(rows, detected, Match) && SomeRowIs(rows, detected, CannotDecide))
            && (status == Some(NotAffected) <==>
                  !SomeRowIs(rows, detected, Match) && !SomeRowIs(rows, detected, CannotDecide) &&
                  SomeRowIs(rows, detected, NoMatch))
  {
    hide SomeRowIs, Outcomes;
    OutcomesAre(rows, detected, Match);
    OutcomesAre(rows, detected, CannotDecide);
    OutcomesAre(rows, detected, NoMatch);
  }

  // ---- the streaming pass ----

  /** One row of the candidate query; `cveId` is None for an SQL NULL. */
  datatype Candidate = Candidate(cveId: Option<string>, row: Row)

  /** What was detected where; empty host and plugin id stand for absent ones too. */
  datatype Detection = Detection(host: string, port: int, service: Option<string>, pluginId: string, version: string,
                                 evidence: Option<string>, remediation: Option<string>)

  /** The columns read from other tables when a result is stored. */
  datatype Snapshots = Snapshots(severity: map<string, int>, kev: set<string>, epss: map<string, real>)

  datatype Scan = Scan(scanId: int, detection: Detection, snapshots: Snapshots)

  datatype ScanResult = ScanResult(scanId: int, cveId: string, status: MatchStatus, detection: Detection,
                                   severity: int, kev: bool, epss: Option<real>)

  /** The whole row of one result: severity 0 without a CVE row, and no score without one. */
  function RowFor(scan: Scan, id: string, status: MatchStatus): ScanResult {
    var tables := scan.snapshots;
    ScanResult(scan.scanId, id, status, scan.detection,
               if id in tables.severity then tables.severity[id] else 0,
               id in tables.kev,
               if id in tables.epss then Some(tables.epss[id]) else None)
  }

  datatype PersistStatus = Ok | InvalidArg | DbError

  predicate IsUsable(c: Candidate) {
    c.cveId.Some? && 0 < |c.cveId.value| <= CVE_ID_MAX_LEN
  }

  ghost predicate HasId(c: Candidate, id: string) {
    IsUsable(c) && c.cveId.value == id
  }

  ghost predicate Mentions(rows: seq<Candidate>, id: string) {
    exists i :: 0 <= i < |rows| && HasId(rows[i], id)
  }

  /** Ordered by CVE id, as the query asks; only usable rows are compared. */
  ghost predicate OrderedById(rows: seq<Candidate>) {
    forall i, j :: 0 <= i < j < |rows| && IsUsable(rows[i]) && IsUsable(rows[j]) ==>
                     Ascii.Lex(rows[i].cveId.value, rows[j].cveId.value) <= 0
  }

  ghost function RowsOf(rows: seq<Candidate>, id: string): seq<Row> {
    if rows == [] then []
    else
      var c := rows[|rows| - 1];
      RowsOf(rows[..|rows| - 1], id) + if HasId(c, id) then [c.row] else []
  }

  /** Group first, aggregate afterwards: the verdict of one CVE over the whole query. */
  ghost function VerdictFor(rows: seq<Candidate>, id: string, detected: string): CveVerdict {
    Aggregate(RowsOf(rows, id), detected)
  }

  ghost function MalformedRows(rows: seq<Candidate>, detected: string): nat {
    if rows == [] then 0
    else
      var c := rows[|rows| - 1];
      MalformedRows(rows[..|rows| - 1], detected) +
      if IsUsable(c) && Evaluate(c.row, detected) == MalformedRow then 1 else 0
  }

  ghost predicate ReportIsSound(report: seq<ScanResult>, scan: Scan, rows: seq<Candidate>, detected: string,
                                open: Option<string>) {
    forall k :: 0 <= k < |report| ==>
      && report[k] == RowFor(scan, report[k].cveId, report[k].status)
      && Mentions(rows, report[k].cveId) && open != Some(report[k].cveId)
      && VerdictFor(rows, report[k].cveId, detected).status == Some(report[k].status)
  }

  ghost predicate ReportIsOrdered(report: seq<ScanResult>) {
    forall k, l :: 0 <= k < l < |report| ==> Ascii.Lex(report[k].cveId, report[l].cveId) < 0
  }

  ghost predicate ReportHas(report: seq<ScanResult>, id: string) {
    exists k :: 0 <= k < |report| && report[k].cveId == id
  }

  ghost predicate ReportIsComplete(report: seq<ScanResult>, rows: seq<Candidate>, detected: string,
                                   open: Option<string>) {
    forall id :: Mentions(rows, id) && open != Some(id) && VerdictFor(rows, id, detected).status.Some? ==>
                   ReportHas(report, id)
  }

  /** `report` has exactly one result for every CVE id of `rows` with a verdict, except the
      one still open, in id order. */
  ghost predicate Reports(report: seq<ScanResult>, scan: Scan, rows: seq<Candidate>, detected: string,
                          open: Option<string>) {
    && ReportIsSound(report, scan, rows, detected, open)
    && ReportIsOrdered(report)
    && ReportIsComplete(report, rows, detected, open)
  }

  lemma RowsOfSnoc(rows: seq<Candidate>, c: Candidate, id: string)
    ensures RowsOf(rows + [c], id) == RowsOf(rows, id) + if HasId(c, id) then [c.row] else []
    ensures !HasId(c, id) ==> RowsOf(rows + [c], id) == RowsOf(rows, id)
    ensures Mentions(rows + [c], id) <==> Mentions(rows, id) || HasId(c, id)
  {
    assert (rows + [c])[..|rows|] == rows;
    if Mentions(rows + [c], id) && !HasId(c, id) {
      var i :| 0 <= i < |rows + [c]| && HasId((rows + [c])[i], id);
      assert HasId(rows[i], id);
    }
    if Mentions(rows, id) {
      var i :| 0 <= i < |rows| && HasId(rows[i], id);
      assert HasId((rows + [c])[i], id);
    }
    if HasId(c, id) {
      assert HasId((rows + [c])[|rows|], id);
    }
  }

  lemma {:induction false} UnmentionedHasNoRows(rows: seq<Candidate>, id: string)
    requires !Mentions(rows, id)
    ensures RowsOf(rows, id) == []
  {
    if rows != [] {
      var c := rows[|rows| - 1];
      RowsOfSnoc(rows[..|rows| - 1], c, id);
      assert rows[..|rows| - 1] + [c] == rows;
      UnmentionedHasNoRows(rows[..|rows| - 1], id);
    }
  }

  /** A further row only touches the group it belongs to. */
  lemma ReportsSurviveRow(report: seq<ScanResult>, scan: Scan, rows: seq<Candidate>, detected: string,
                          open: Option<string>, c: Candidate)
    requires Reports(report, scan, rows, detected, open)
    requires !IsUsable(c) || open == c.cveId
    ensures Reports(report, scan, rows + [c], detected, open)
  {
    hide Aggregate, Mentions;
    forall id
      ensures open != Some(id) ==> VerdictFor(rows + [c], id, detected) == VerdictFor(rows, id, detected)
      ensures open != Some(id) ==> (Mentions(rows + [c], id) <==> Mentions(rows, id))
    {
      RowsOfSnoc(rows, c, id);
    }
  }

  function ResultOf(scan: Scan, id: string, v: CveVerdict): seq<ScanResult> {
    if v.status.Some? then [RowFor(scan, id, v.status.value)] else []
  }

  lemma ReportGrows(report: seq<ScanResult>, scan: Scan, v: CveVerdict, id: string, x: string)
    ensures ReportHas(report, x) ==> ReportHas(report + ResultOf(scan, id, v), x)
    ensures v.status.Some? ==> ReportHas(report + ResultOf(scan, id, v), id)
  {
    var r := report + ResultOf(scan, id, v);
    if ReportHas(report, x) {
      var k :| 0 <= k < |report| && report[k].cveId == x;
      assert r[k].cveId == x;
    }
    if v.status.Some? {
      assert r[|report|].cveId == id;
    }
  }

  /** Closing the open group appends its verdict, if it has one. */
  lemma ReportsAfterFlush(report: seq<ScanResult>, scan: Scan, rows: seq<Candidate>, detected: string, id: string)
    requires Reports(report, scan, rows, detected, Some(id))
    requires Mentions(rows, id)
    requires forall k :: 0 <= k < |report| ==> Ascii.Lex(report[k].cveId, id) < 0
    ensures Reports(report + ResultOf(scan, id, VerdictFor(rows, id, detected)), scan, rows, detected, None)
  {
    hide Aggregate, Mentions, VerdictFor, ReportHas;
    var r := report + ResultOf(scan, id, VerdictFor(rows, id, detected));
    assert ReportIsSound(r, scan, rows, detected, None);
    forall x | Mentions(rows, x) && VerdictFor(rows, x, detected).status.Some?
      ensures ReportHas(r, x)
    {
      ReportGrows(report, scan, VerdictFor(rows, id, detected), id, x);
    }
  }

  lemma SnocUnusable(rows: seq<Candidate>, c: Candidate, detected: string)
    requires !IsUsable(c)
    ensures forall id ::
              RowsOf(rows + [c], id) == RowsOf(rows, id) && (Mentions(rows + [c], id) <==> Mentions(rows, id))
    ensures MalformedRows(rows + [c], detected) == MalformedRows(rows, detected)
  {
    hide Evaluate;
    assert (rows + [c])[..|rows|] == rows;
    forall id {
      RowsOfSnoc(rows, c, id);
    }
  }

  lemma SnocUsable(rows: seq<Candidate>, c: Candidate, detected: string)
    requires IsUsable(c)
    ensures Outcomes(RowsOf(rows + [c], c.cveId.value), detected) ==
            Outcomes(RowsOf(rows, c.cveId.value), detected) + multiset{Evaluate(c.row, detected)}
    ensures MalformedRows(rows + [c], detected) ==
            MalformedRows(rows, detected) + if Evaluate(c.row, detected) == MalformedRow then 1 else 0
    ensures forall id :: Mentions(rows + [c], id) <==> Mentions(rows, id) || id == c.cveId.value
  {
    hide Evaluate;
    var group := RowsOf(rows, c.cveId.value);
    assert (rows + [c])[..|rows|] == rows;
    assert (group + [c.row])[..|group|] == group;
    forall id {
      RowsOfSnoc(rows, c, id);
    }
  }

  // ---- a report in terms of the candidate rows ----

  /** Some candidate row of the CVE has this outcome. */
  ghost predicate SomeCandidateIs(rows: seq<Candidate>, id: string, detected: string, outcome: Outcome) {
    exists i :: 0 <= i < |rows| && rows[i].cveId == Some(id) && Evaluate(rows[i].row, detected) == outcome
  }

  lemma CandidatesOfSnoc(rows: seq<Candidate>, c: Candidate, id: string, detected: string, outcome: Outcome)
    ensures SomeCandidateIs(rows + [c], id, detected, outcome) <==>
            || SomeCandidateIs(rows, id, detected, outcome)
            || (c.cveId == Some(id) && Evaluate(c.row, detected) == outcome)
  {
    hide Evaluate;
    var longer := rows + [c];
    assert longer[|rows|] == c;
    if i :| 0 <= i < |rows| && rows[i].cveId == Some(id) && Evaluate(rows[i].row, detected) == outcome {
      assert longer[i] == rows[i];
    }
    if i :| 0 <= i < |longer| && longer[i].cveId == Some(id) && Evaluate(longer[i].row, detected) == outcome {
      assert i < |rows| ==> longer[i] == rows[i];
    }
  }

  lemma RowsOfSnocSay(group: seq<Row>, row: Row, detected: string, outcome: Outcome)
    ensures SomeRowIs(group + [row], detected, outcome) <==>
            SomeRowIs(group, detected, outcome) || Evaluate(row, detected) == outcome
  {
    hide Evaluate;
    var longer := group + [row];
    assert longer[|group|] == row;
    if i :| 0 <= i < |group| && Evaluate(group[i], detected) == outcome {
      assert longer[i] == group[i];
    }
    if i :| 0 <= i < |longer| && Evaluate(longer[i], detected) == outcome {
      assert i < |group| ==> longer[i] == group[i];
    }
  }

  lemma NoCandidates(id: string, detected: string, outcome: Outcome)
    ensures !SomeCandidateIs([], id, detected, outcome) && !SomeRowIs([], detected, outcome)
  {
  }

  lemma {:induction false} CandidatesAre(rows: seq<Candidate>, id: string, detected: string, outcome: Outcome)
    requires 0 < |id| <= 64
    ensures SomeRowIs(RowsOf(rows, id), detected, outcome) <==> SomeCandidateIs(rows, id, detected, outcome)
  {
    hide Evaluate, SomeRowIs, SomeCandidateIs;
    if rows == [] {
      NoCandidates(id, detected, outcome);
    } else {
      var front, c := rows[..|rows| - 1], rows[|rows| - 1];
      assert front + [c] == rows;
      CandidatesAre(front, id, detected, outcome);
      CandidatesOfSnoc(front, c, id, detected, outcome);
      RowsOfSnoc(front, c, id);
      if HasId(c, id) {
        RowsOfSnocSay(RowsOf(front, id), c.row, detected, outcome);
      }
    }
  }

  lemma VerdictsAre(rows: seq<Candidate>, id: string, detected: string)
    requires 0 < |id| <= 64
    ensures var status := VerdictFor(rows, id, detected).status;
            && (status == Some(Confirmed) <==> SomeCandidateIs(rows, id, detected, Match))
            && (status == Some(Undetermined) <==>
                  !SomeCandidateIs(rows, id, detected, Match) && SomeCandidateIs(rows, id, detected, CannotDecide))
            && (status == Some(NotAffected) <==>
                  !SomeCandidateIs(rows, id, detected, Match) && !SomeCandidateIs(rows, id, detected, CannotDecide) &&
                  SomeCandidateIs(rows, id, detected, NoMatch))
  {
    hide Aggregate, SomeRowIs, SomeCandidateIs, RowsOf;
    AggregateExactly(RowsOf(rows, id), detected);
    CandidatesAre(rows, id, detected, Match);
    CandidatesAre(rows, id, detected, CannotDecide);
    CandidatesAre(rows, id, detected, NoMatch);
  }

  lemma MentionedIsUsable(rows: seq<Candidate>, id: string)
    ensures Mentions(rows, id) ==> 0 < |id| <= 64
    ensures 0 < |id| <= 64 ==> (Mentions(rows, id) <==> exists i :: 0 <= i < |rows| && rows[i].cveId == Some(id))
  {
    if i :| 0 <= i < |rows| && rows[i].cveId == Some(id) {
      assert 0 < |id| <= 64 ==> HasId(rows[i], id);
    }
  }

  /** What one stored result says of its CVE. */
  ghost predicate ResultIsExact(r: ScanResult, scan: Scan, rows: seq<Candidate>, detected: string) {
    && (r.status == Confirmed <==> SomeCandidateIs(rows, r.cveId, detected, Match))
    && (r.status == Undetermined <==>
          !SomeCandidateIs(rows, r.cveId, detected, Match) && SomeCandidateIs(rows, r.cveId, detected, CannotDecide))
    && (r.status == NotAffected ==> SomeCandidateIs(rows, r.cveId, detected, NoMatch))
    && r.scanId == scan.scanId && r.detection == scan.detection
    && (r.kev <==> r.cveId in scan.snapshots.kev)
    && (r.epss.Some? <==> r.cveId in scan.snapshots.epss)
    && (r.epss.Some? ==> r.epss.value == scan.snapshots.epss[r.cveId])
    && (r.cveId in scan.snapshots.severity ==> r.severity == scan.snapshots.severity[r.cveId])
    && (r.cveId !in scan.snapshots.severity ==> r.severity == 0)
  }

  lemma ReportedIsExact(report: seq<ScanResult>, scan: Scan, rows: seq<Candidate>, detected: string, k: nat)
    requires Reports(report, scan, rows, detected, None) && k < |report|
    ensures ResultIsExact(report[k], scan, rows, detected)
  {
    hide SomeCandidateIs, VerdictFor, Mentions, ReportIsOrdered, ReportIsComplete;
    MentionedIsUsable(rows, report[k].cveId);
    VerdictsAre(rows, report[k].cveId, detected);
  }

  lemma ReportedMeansVerdict(report: seq<ScanResult>, scan: Scan, rows: seq<Candidate>, detected: string, id: string)
    requires Reports(report, scan, rows, detected, None)
    ensures ReportHas(report, id) <==> Mentions(rows, id) && VerdictFor(rows, id, detected).status.Some?
  {
    hide VerdictFor, Mentions, ReportIsOrdered;
    if k :| 0 <= k < |report| && report[k].cveId == id {
      assert Mentions(rows, report[k].cveId);
    }
  }

  lemma SaidIsMentioned(rows: seq<Candidate>, id: string, detected: string)
    requires 0 < |id| <= 64
    ensures forall outcome :: SomeCandidateIs(rows, id, detected, outcome) ==> Mentions(rows, id)
  {
    hide Evaluate;
    MentionedIsUsable(rows, id);
  }

  lemma ReportedExactly(report: seq<ScanResult>, scan: Scan, rows: seq<Candidate>, detected: string, id: string)
    requires Reports(report, scan, rows, detected, None)
    ensures ReportHas(report, id) <==>
            0 < |id| <= 64 &&
            (SomeCandidateIs(rows, id, detected, Match) || SomeCandidateIs(rows, id, detected, CannotDecide) ||
             SomeCandidateIs(rows, id, detected, NoMatch))
  {
    hide SomeCandidateIs, VerdictFor, Mentions, Reports, ReportHas;
    ReportedMeansVerdict(report, scan, rows, detected, id);
    MentionedIsUsable(rows, id);
    if 0 < |id| <= 64 {
      VerdictsAre(rows, id, detected);
      SaidIsMentioned(rows, id, detected);
      match VerdictFor(rows, id, detected).status {
        case Some(Confirmed) =>
        case Some(Undetermined) =>
        case Some(NotAffected) =>
        case None =>
      }
    }
  }

  /** A full report read off the candidate rows: every result is exact, and a CVE is reported
      exactly when some row of it is a match, a "no match" or an open question. */
  lemma ReportExactly(report: seq<ScanResult>, scan: Scan, rows: seq<Candidate>, detected: string)
    requires Reports(report, scan, rows, detected, None)
    ensures forall k :: 0 <= k < |report| ==> ResultIsExact(report[k], scan, rows, detected)
    ensures forall id :: ReportHas(report, id) <==>
              0 < |id| <= 64 &&
              (SomeCandidateIs(rows, id, detected, Match) || SomeCandidateIs(rows, id, detected, CannotDecide) ||
               SomeCandidateIs(rows, id, detected, NoMatch))
  {
    hide ResultIsExact, SomeCandidateIs, Reports, ReportHas;
    forall k | 0 <= k < |report| {
      ReportedIsExact(report, scan, rows, detected, k);
    }
    forall id {
      ReportedExactly(report, scan, rows, detected, id);
    }
  }

  ghost function MalformedAt(rows: seq<Candidate>, detected: string): set<nat> {
    set i: nat | i < |rows| && rows[i].cveId.Some? && 0 < |rows[i].cveId.value| <= 64 &&
                 Evaluate(rows[i].row, detected) == MalformedRow
  }

  lemma MalformedAtSnoc(rows: seq<Candidate>, detected: string)
    requires rows != []
    ensures var n := |rows| - 1;
            && n !in MalformedAt(rows[..n], detected)
            && MalformedAt(rows, detected) == MalformedAt(rows[..n], detected) +
                 if IsUsable(rows[n]) && Evaluate(rows[n].row, detected) == MalformedRow then {n} else {}
  {
    hide Evaluate;
  }

  lemma NothingIsMalformed(detected: string)
    ensures MalformedAt([], detected) == {}
  {
  }

  /** The counter counts the malformed rows with a usable id, each once. */
  lemma {:induction false} MalformedExactly(rows: seq<Candidate>, detected: string)
    ensures MalformedRows(rows, detected) == |MalformedAt(rows, detected)|
  {
    hide Evaluate, MalformedAt;
    if rows == [] {
      NothingIsMalformed(detected);
    } else {
      MalformedExactly(rows[..|rows| - 1], detected);
      MalformedAtSnoc(rows, detected);
    }
  }

  // ---- the pass, row by row ----

  /** In an ordered query an id that has been passed never comes back. */
  lemma NewIdIsLater(rows: seq<Candidate>, n: nat, open: string)
    requires OrderedById(rows) && n < |rows| && IsUsable(rows[n]) && rows[n].cveId.value != open
    requires Mentions(rows[..n], open)
    requires forall id :: Mentions(rows[..n], id) ==> Ascii.Lex(id, open) <= 0
    ensures !Mentions(rows[..n], rows[n].cveId.value)
    ensures forall id :: Mentions(rows[..n], id) ==> Ascii.Lex(id, rows[n].cveId.value) <= 0
  {
    var id := rows[n].cveId.value;
    var i :| 0 <= i < n && HasId(rows[..n][i], open);
    assert rows[i].cveId.value == open;
    assert Ascii.Lex(open, id) <= 0;
    if Mentions(rows[..n], id) {
      Ascii.LexMirror(open, id);
    }
    forall x | Mentions(rows[..n], x)
      ensures Ascii.Lex(x, id) <= 0
    {
      Ascii.LexTransitive(x, open, id);
    }
  }

  /** What the pass knows after a prefix of the query, with group `open` not yet flushed. */
  ghost predicate Progress(scan: Scan, rows: seq<Candidate>, detected: string, open: Option<string>,
                           seen: multiset<Outcome>, report: seq<ScanResult>, events: nat) {
    && Reports(report, scan, rows, detected, open)
    && events + seen[MalformedRow] == MalformedRows(rows, detected)
    && (open.None? ==> seen == multiset{} && forall id :: !Mentions(rows, id))
    && (open.Some? ==>
          && Mentions(rows, open.value)
          && seen == Outcomes(RowsOf(rows, open.value), detected)
          && forall id :: Mentions(rows, id) ==> Ascii.Lex(id, open.value) <= 0)
  }

  /** No group is open: every group of the prefix has been flushed. */
  ghost predicate Flushed(scan: Scan, rows: seq<Candidate>, detected: string, report: seq<ScanResult>, events: nat) {
    Reports(report, scan, rows, detected, None) && events == MalformedRows(rows, detected)
  }

  lemma NothingRead(scan: Scan, detected: string)
    ensures Progress(scan, [], detected, None, multiset{}, [], 0)
  {
  }

  lemma NothingOpen(scan: Scan, rows: seq<Candidate>, detected: string, seen: multiset<Outcome>,
                    report: seq<ScanResult>, events: nat)
    requires Progress(scan, rows, detected, None, seen, report, events)
    ensures Flushed(scan, rows, detected, report, events)
  {
    hide Mentions, Aggregate, Evaluate;
  }

  lemma NextGroupId(scan: Scan, rows: seq<Candidate>, n: nat, detected: string, open: Option<string>,
                    seen: multiset<Outcome>, report: seq<ScanResult>, events: nat)
    requires OrderedById(rows) && n < |rows| && IsUsable(rows[n]) && open != rows[n].cveId
    requires Progress(scan, rows[..n], detected, open, seen, report, events)
    ensures !Mentions(rows[..n], rows[n].cveId.value)
    ensures forall id :: Mentions(rows[..n], id) ==> Ascii.Lex(id, rows[n].cveId.value) <= 0
    ensures open.None? ==> seen == multiset{}
  {
    hide Mentions, Aggregate, Evaluate, Reports;
    if open.Some? {
      NewIdIsLater(rows, n, open.value);
    }
  }

  lemma ReportsReopen(report: seq<ScanResult>, scan: Scan, rows: seq<Candidate>, detected: string, id: string)
    requires Reports(report, scan, rows, detected, None) && !Mentions(rows, id)
    ensures Reports(report, scan, rows, detected, Some(id))
  {
    hide Aggregate, Mentions;
  }

  lemma SkipRow(scan: Scan, rows: seq<Candidate>, detected: string, open: Option<string>,
                seen: multiset<Outcome>, report: seq<ScanResult>, events: nat, c: Candidate)
    requires Progress(scan, rows, detected, open, seen, report, events) && !IsUsable(c)
    ensures Progress(scan, rows + [c], detected, open, seen, report, events)
  {
    hide Evaluate, Mentions, Aggregate;
    ReportsSurviveRow(report, scan, rows, detected, open, c);
    SnocUnusable(rows, c, detected);
  }

  lemma SameGroupRow(scan: Scan, rows: seq<Candidate>, detected: string, id: string,
                     seen: multiset<Outcome>, report: seq<ScanResult>, events: nat, c: Candidate)
    requires Progress(scan, rows, detected, Some(id), seen, report, events) && HasId(c, id)
    ensures Progress(scan, rows + [c], detected, Some(id), seen + multiset{Evaluate(c.row, detected)}, report, events)
  {
    hide Evaluate, Mentions, Aggregate;
    ReportsSurviveRow(report, scan, rows, detected, Some(id), c);
    SnocUsable(rows, c, detected);
    Ascii.LexMirror(id, id);
  }

  lemma CloseGroup(scan: Scan, rows: seq<Candidate>, detected: string, id: string,
                   seen: multiset<Outcome>, report: seq<ScanResult>, events: nat)
    requires Progress(scan, rows, detected, Some(id), seen, report, events)
    ensures Flushed(scan, rows, detected, report + ResultOf(scan, id, VerdictOf(seen)), events + seen[MalformedRow])
  {
    hide Mentions;
    forall k | 0 <= k < |report|
      ensures Ascii.Lex(report[k].cveId, id) < 0
    {
      Ascii.LexMirror(report[k].cveId, id);
    }
    ReportsAfterFlush(report, scan, rows, detected, id);
  }

  lemma NoOutcomes(detected: string)
    ensures Outcomes([], detected) == multiset{}
  {
  }

  lemma FirstGroupRow(scan: Scan, rows: seq<Candidate>, detected: string, report: seq<ScanResult>, events: nat,
                      c: Candidate)
    requires Flushed(scan, rows, detected, report, events) && IsUsable(c)
    requires !Mentions(rows, c.cveId.value)
    requires forall id :: Mentions(rows, id) ==> Ascii.Lex(id, c.cveId.value) <= 0
    ensures Progress(scan, rows + [c], detected, c.cveId, multiset{Evaluate(c.row, detected)}, report, events)
  {
    hide Evaluate, Mentions, Aggregate, Reports, RowsOf, Outcomes, MalformedRows, Ascii.Lex;
    var id := c.cveId.value;
    NoOutcomes(detected);
    UnmentionedHasNoRows(rows, id);
    ReportsReopen(report, scan, rows, detected, id);
    ReportsSurviveRow(report, scan, rows, detected, Some(id), c);
    SnocUsable(rows, c, detected);
    Ascii.LexMirror(id, id);
  }

  predicate IsComplete(d: Detection) {
    d.host != "" && d.pluginId != "" && d.evidence.Some? && 0 <= d.port <= 65535
  }

  /** A vendor or product that can be looked up. */
  predicate IsName(s: string) {
    0 < |s| <= VENDOR_PRODUCT_MAX_LEN
  }

  /** Counts the malformed rows of a finished group and inserts its one result. */
  method FlushGroup(acc: Accumulator, ghost seen: multiset<Outcome>, scan: Scan, id: string,
                    report: seq<ScanResult>, malformedEvents: nat, reliable: bool)
    returns (fails: bool, report': seq<ScanResult>, malformedEvents': nat)
    requires acc.Holds(seen)
    ensures fails ==> !reliable
    ensures malformedEvents' == malformedEvents + seen[MalformedRow]
    ensures !fails ==> report' == report + ResultOf(scan, id, VerdictOf(seen))
  {
    var verdict := acc.Finalize(seen);
    malformedEvents' := malformedEvents;
    if verdict.malformed > 0 {
      malformedEvents' := malformedEvents + verdict.malformed;
    }
    if verdict.status.None? {
      return false, report, malformedEvents';
    }
    var dbFails: bool := *;
    if dbFails && !reliable {
      return true, report, malformedEvents';
    }
    return false, report + [RowFor(scan, id, verdict.status.value)], malformedEvents';
  }

  /** The stepping loop of the pass, before the counter update and the commit. */
  method StreamRows(scan: Scan, rows: seq<Candidate>, detected: string, reliable: bool)
    returns (status: PersistStatus, report: seq<ScanResult>, malformedEvents: nat)
    requires OrderedById(rows)
    ensures status == Ok || (status == DbError && !reliable)
    ensures status == Ok ==> Flushed(scan, rows, detected, report, malformedEvents)
  {
    hide Evaluate, Mentions, Progress, Flushed;
    report, malformedEvents := [], 0;
    var acc := new Accumulator();
    var open: Option<string> := None;
    ghost var seen: multiset<Outcome> := multiset{};
    NothingRead(scan, detected);
    assert rows[..0] == [];
    for n := 0 to |rows|
      invariant acc.Holds(seen)
      invariant Progress(scan, rows[..n], detected, open, seen, report, malformedEvents)
    {
      var stepFails: bool := *;
      if stepFails && !reliable {
        return DbError, [], malformedEvents;
      }
      var c := rows[n];
      ghost var before := rows[..n];
      assert rows[..n + 1] == before + [c];
      if !IsUsable(c) {
        SkipRow(scan, before, detected, open, seen, report, malformedEvents, c);
        continue;
      }
      var sameGroup := open == c.cveId;
      if !sameGroup {
        NextGroupId(scan, rows, n, detected, open, seen, report, malformedEvents);
      }
      if open.Some? && !sameGroup {
        CloseGroup(scan, before, detected, open.value, seen, report, malformedEvents);
        var fails: bool;
        fails, report, malformedEvents := FlushGroup(acc, seen, scan, open.value, report, malformedEvents, reliable);
        if fails {
          return DbError, [], malformedEvents;
        }
        acc.Reset();
      } else if !sameGroup {
        NothingOpen(scan, before, detected, seen, report, malformedEvents);
      }
      var outcome := EvaluateRow(c.row, detected);
      if sameGroup {
        SameGroupRow(scan, before, detected, open.value, seen, report, malformedEvents, c);
      } else {
        FirstGroupRow(scan, before, detected, report, malformedEvents, c);
        seen := multiset{};
      }
      open := c.cveId;
      acc.Accumulate(outcome, seen);
      seen := seen + multiset{outcome};
      assert multiset{} + multiset{outcome} == multiset{outcome};
    }
    assert rows[..|rows|] == rows;
    if open.Some? {
      CloseGroup(scan, rows, detected, open.value, seen, report, malformedEvents);
      var fails: bool;
      fails, report, malformedEvents := FlushGroup(acc, seen, scan, open.value, report, malformedEvents, reliable);
      if fails {
        return DbError, [], malformedEvents;
      }
    } else {
      NothingOpen(scan, rows, detected, seen, report, malformedEvents);
    }
    return Ok, report, malformedEvents;
  }

  /** The committed tables the pass writes to; `reliable` says that no database call fails. */
  class ScanStore {
    const reliable: bool
    var results: seq<ScanResult>
    var malformedData: map<int, nat>

    constructor (reliable: bool)
      ensures this.reliable == reliable && results == [] && malformedData == map[]
    {
      this.reliable := reliable;
      results, malformedData := [], map[];
    }

    /** One pass over the ordered rows of the lower-cased vendor and product, flushing a group
        whenever the id changes. Any database call may fail; nothing is visible unless
        everything, commit included, succeeded. */
    method DetectAndPersist(scan: Scan, vendor: string, product: string, query: (string, string) -> seq<Candidate>)
      returns (status: PersistStatus, rowsInserted: nat, malformedEvents: nat)
      requires forall v, p :: OrderedById(query(v, p))
      modifies this
      ensures status != Ok ==> results == old(results) && malformedData == old(malformedData)
      ensures status == InvalidArg <==>
              || scan.scanId <= 0 || scan.detection.host == "" || scan.detection.pluginId == ""
              || scan.detection.evidence.None? || !(0 <= scan.detection.port <= 65535)
              || !(1 <= |vendor| <= 256) || !(1 <= |product| <= 256)
      ensures status == DbError ==> !reliable
      ensures status == Ok ==>
                var rows := query(Ascii.Lower(vendor), Ascii.Lower(product));
                && old(results) <= results
                && Reports(results[|old(results)|..], scan, rows, scan.detection.version, None)
                && rowsInserted == |results| - |old(results)|
                && malformedEvents == MalformedRows(rows, scan.detection.version)
                && malformedData ==
                   if scan.scanId in old(malformedData)
                   then old(malformedData)[scan.scanId := old(malformedData)[scan.scanId] + malformedEvents]
                   else old(malformedData)
    {
      rowsInserted, malformedEvents := 0, 0;
      if scan.scanId <= 0 || !IsComplete(scan.detection) {
        return InvalidArg, 0, 0;
      }
      if !IsName(vendor) || !IsName(product) {
        return InvalidArg, 0, 0;
      }
      var rows := query(Ascii.Lower(vendor), Ascii.Lower(product));
      var report: seq<ScanResult>;
      status, report, malformedEvents := StreamRows(scan, rows, scan.detection.version, reliable);
      rowsInserted := |report|;
      var counted, committed: bool := *, *;
      if status != Ok || (!reliable && (!counted || !committed)) {
        status := DbError;
        return;
      }
      results := results + report;
      if scan.scanId in malformedData {
        malformedData := malformedData[scan.scanId := malformedData[scan.scanId] + malformedEvents];
      }
      assert results[|old(results)|..] == report;
    }
  }
}
