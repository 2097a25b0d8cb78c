/** Evaluating one candidate row of the vulnerability table against a detected version. */
module CpeMatch {
  import opened VersionOrder
  import VersionCompare

  datatype BoundKind = StartIncluding | StartExcluding | EndIncluding | EndExcluding

  datatype BoundVerdict = Pass | Fail | Unknowable

  /** One version bound; empty text means the row is open on that side. */
  datatype Bound = Bound(kind: BoundKind, text: string)

  datatype Outcome = NoMatch | Match | CannotDecide | MalformedRow

  datatype Row = Row(version: string, startIncluding: string, startExcluding: string,
                     endIncluding: string, endExcluding: string, vulnerable: int)

  function JudgeBound(kind: BoundKind, cmp: Verdict): BoundVerdict {
    if cmp == Undecidable then Unknowable
    else
      var holds := match kind
        case StartIncluding => cmp == Greater || cmp == Equal
        case StartExcluding => cmp == Greater
        case EndIncluding => cmp == Less || cmp == Equal
        case EndExcluding => cmp == Less;
      if holds then Pass else Fail
  }

  predicate IsSentinelByte(c: char) {
    c == '*' || c == '-'
  }

  ghost predicate IsSentinelOnly(s: string) {
    s != [] && forall i :: 0 <= i < |s| ==> IsSentinelByte(s[i])
  }

  method IsSentinelText(s: string) returns (sentinel: bool)
    ensures sentinel <==> IsSentinelOnly(s)
  {
    if |s| == 0 {
      return false;
    }
    for i := 0 to |s|
      invariant forall j :: 0 <= j < i ==> IsSentinelByte(s[j])
    {
      if s[i] != '*' && s[i] != '-' {
        return false;
      }
    }
    return true;
  }

  // ---- what a row means: bounds as a set, so that no visiting order can show ----

  ghost function VerdictOn(b: Bound, detected: string): BoundVerdict {
    JudgeBound(b.kind, Compare(detected, b.text))
  }

  ghost predicate SomeBoundSet(bounds: set<Bound>) {
    exists b :: b in bounds && b.text != []
  }

  ghost predicate SomeBoundSays(bounds: set<Bound>, detected: string, v: BoundVerdict) {
    exists b :: b in bounds && b.text != [] && VerdictOn(b, detected) == v
  }

  ghost predicate SomeBoundSentinel(bounds: set<Bound>) {
    exists b :: b in bounds && IsSentinelOnly(b.text)
  }

  /** Three-valued conjunction over the set bounds: one definite failure settles it. */
  ghost function RangeOutcome(bounds: set<Bound>, detected: string): Outcome {
    if !SomeBoundSet(bounds) || SomeBoundSentinel(bounds) then MalformedRow
    else if SomeBoundSays(bounds, detected, Fail) then NoMatch
    else if SomeBoundSays(bounds, detected, Unknowable) then CannotDecide
    else Match
  }

  ghost function ToSet(bounds: seq<Bound>): set<Bound> {
    set b | b in bounds
  }

  ghost function BoundsOf(row: Row): set<Bound> {
    {Bound(StartIncluding, row.startIncluding), Bound(StartExcluding, row.startExcluding),
     Bound(EndIncluding, row.endIncluding), Bound(EndExcluding, row.endExcluding)}
  }

  predicate IsRangeRow(row: Row) {
    row.version == "*" || row.version == ""
  }

  ghost function Evaluate(row: Row, detected: string): Outcome {
    if row.vulnerable == 0 then NoMatch
    else if IsRangeRow(row) then RangeOutcome(BoundsOf(row), detected)
    else match Compare(detected, row.version)
      case Equal => Match
      case Undecidable => CannotDecide
      case _ => NoMatch
  }

  // ---- the evaluator as it runs ----

  /** The bound scan, for any list of bounds in any order. */
  method ScanBounds(bounds: seq<Bound>, detected: string) returns (r: Outcome)
    ensures r == RangeOutcome(ToSet(bounds), detected)
  {
    hide Compare;
    var anySet, anyFail, anyUndecidable := false, false, false;
    ghost var all := ToSet(bounds);
    for i := 0 to |bounds|
      invariant anySet <==> exists b :: b in bounds[..i] && b.text != []
      invariant anyFail <==> exists b :: b in bounds[..i] && b.text != [] && VerdictOn(b, detected) == Fail
      invariant anyUndecidable <==>
                exists b :: b in bounds[..i] && b.text != [] && VerdictOn(b, detected) == Unknowable
      invariant forall b :: b in bounds[..i] ==> !IsSentinelOnly(b.text)
    {
      var bound := bounds[i];
      assert bounds[..i + 1] == bounds[..i] + [bound];
      if |bound.text| == 0 {
        continue;
      }
      anySet := true;
      var sentinel := IsSentinelText(bound.text);
      if sentinel {
        assert bound in all;
        return MalformedRow;
      }
      var cmp := VersionCompare.CompareVersionStrings(detected, bound.text);
      var v := JudgeBound(bound.kind, cmp);
      if v == Fail {
        anyFail := true;
      } else if v == Unknowable {
        anyUndecidable := true;
      }
    }
    assert bounds[..|bounds|] == bounds;
    assert forall b :: b in all <==> b in bounds;
    if !anySet {
      return MalformedRow;
    }
    if anyFail {
      return NoMatch;
    }
    if anyUndecidable {
      return CannotDecide;
    }
    return Match;
  }

  method EvaluateRow(row: Row, detected: string) returns (r: Outcome)
    ensures r == Evaluate(row, detected)
  {
    if row.vulnerable == 0 {
      return NoMatch;
    }
    if IsRangeRow(row) {
      var bounds := [Bound(StartIncluding, row.startIncluding), Bound(StartExcluding, row.startExcluding),
                     Bound(EndIncluding, row.endIncluding), Bound(EndExcluding, row.endExcluding)];
      assert ToSet(bounds) == BoundsOf(row);
      r := ScanBounds(bounds, detected);
      return r;
    }
    var cmp := VersionCompare.CompareVersionStrings(detected, row.version);
    match cmp {
      case Equal => return Match;
      case Undecidable => return CannotDecide;
      case _ => return NoMatch;
    }
  }

  // ---- what a row matches, bound by bound ----

  ghost predicate HasSentinelBound(row: Row) {
    exists t :: t in {row.startIncluding, row.startExcluding, row.endIncluding, row.endExcluding} && t != "" &&
                forall i :: 0 <= i < |t| ==> t[i] == '*' || t[i] == '-'
  }

  predicate HasBound(row: Row) {
    row.startIncluding != "" || row.startExcluding != "" || row.endIncluding != "" || row.endExcluding != ""
  }

  /** Decided to be within every bound that is set. */
  ghost predicate IsWithin(row: Row, detected: string) {
    && (row.startIncluding != "" ==> Compare(detected, row.startIncluding) in {Greater, Equal})
    && (row.startExcluding != "" ==> Compare(detected, row.startExcluding) == Greater)
    && (row.endIncluding != "" ==> Compare(detected, row.endIncluding) in {Less, Equal})
    && (row.endExcluding != "" ==> Compare(detected, row.endExcluding) == Less)
  }

  /** Decided to be outside some bound that is set. */
  ghost predicate IsOutside(row: Row, detected: string) {
    || (row.startIncluding != "" && Compare(detected, row.startIncluding) == Less)
    || (row.startExcluding != "" && Compare(detected, row.startExcluding) in {Less, Equal})
    || (row.endIncluding != "" && Compare(detected, row.endIncluding) == Greater)
    || (row.endExcluding != "" && Compare(detected, row.endExcluding) in {Greater, Equal})
  }

  lemma SentinelsOfRow(row: Row)
    ensures SomeBoundSentinel(BoundsOf(row)) <==> HasSentinelBound(row)
    ensures SomeBoundSet(BoundsOf(row)) <==> HasBound(row)
  {
    if b :| b in BoundsOf(row) && IsSentinelOnly(b.text) {
      assert b.text in {row.startIncluding, row.startExcluding, row.endIncluding, row.endExcluding};
    }
    assert Bound(StartIncluding, row.startIncluding) in BoundsOf(row);
    assert Bound(StartExcluding, row.startExcluding) in BoundsOf(row);
    assert Bound(EndIncluding, row.endIncluding) in BoundsOf(row);
    assert Bound(EndExcluding, row.endExcluding) in BoundsOf(row);
  }

  lemma VerdictsOfRow(row: Row, detected: string, v: BoundVerdict)
    ensures SomeBoundSays(BoundsOf(row), detected, v) <==>
            || (row.startIncluding != "" && VerdictOn(Bound(StartIncluding, row.startIncluding), detected) == v)
            || (row.startExcluding != "" && VerdictOn(Bound(StartExcluding, row.startExcluding), detected) == v)
            || (row.endIncluding != "" && VerdictOn(Bound(EndIncluding, row.endIncluding), detected) == v)
            || (row.endExcluding != "" && VerdictOn(Bound(EndExcluding, row.endExcluding), detected) == v)
  {
    hide VerdictOn;
    assert Bound(StartIncluding, row.startIncluding) in BoundsOf(row);
    assert Bound(StartExcluding, row.startExcluding) in BoundsOf(row);
    assert Bound(EndIncluding, row.endIncluding) in BoundsOf(row);
    assert Bound(EndExcluding, row.endExcluding) in BoundsOf(row);
  }

  /** A vulnerable range row is malformed exactly without a bound or with one of "*" and "-"
      alone; otherwise it matches exactly the versions decided to be within all its bounds, and
      excludes exactly those decided to be outside one. */
  lemma RangeRowExactly(row: Row, detected: string)
    requires row.vulnerable != 0 && (row.version == "*" || row.version == "")
    ensures Evaluate(row, detected) == MalformedRow <==> !HasBound(row) || HasSentinelBound(row)
    ensures HasBound(row) && !HasSentinelBound(row) ==>
              && (Evaluate(row, detected) == Match <==> IsWithin(row, detected))
              && (Evaluate(row, detected) == NoMatch <==> IsOutside(row, detected))
  {
    hide Compare, SomeBoundSays, SomeBoundSentinel, SomeBoundSet, BoundsOf, HasSentinelBound;
    SentinelsOfRow(row);
    VerdictsOfRow(row, detected, Fail);
    VerdictsOfRow(row, detected, Unknowable);
  }

  /** A row for one version matches exactly what is decided equal to it; a row flagged not
      vulnerable matches nothing. */
  lemma ExactRowExactly(row: Row, detected: string)
    requires row.vulnerable == 0 || (row.version != "*" && row.version != "")
    ensures Evaluate(row, detected) == Match <==> row.vulnerable != 0 && Compare(detected, row.version) == Equal
    ensures Evaluate(row, detected) == NoMatch <==>
            row.vulnerable == 0 || Compare(detected, row.version) in {Less, Greater}
    ensures Evaluate(row, detected) != MalformedRow
  {
    hide Compare;
  }

  // ---- matched versions form an interval ----

  /** A bound both ends pass cannot be failed in between, wherever the ranking of versions
      puts "between". */
  lemma BoundIsConvex(b: Bound, low: string, mid: string, high: string)
    requires VerdictOn(b, low) == Pass && VerdictOn(b, high) == Pass
    requires Rank(low, mid).AtMost() && Rank(mid, high).AtMost()
    ensures VerdictOn(b, mid) != Fail
  {
    hide Compare, Rank;
    if VerdictOn(b, mid) == Fail {
      DecidedIsRanked(mid, b.text);
      if b.kind.StartIncluding? || b.kind.StartExcluding? {
        DecidedIsRanked(low, b.text);
        RankComposes(low, mid, b.text);
      } else {
        DecidedIsRanked(high, b.text);
        RankMirror(mid, b.text);
        RankMirror(high, b.text);
        RankComposes(b.text, mid, high);
      }
    }
  }

  lemma PassesEverySetBound(bounds: set<Bound>, detected: string, b: Bound)
    requires RangeOutcome(bounds, detected) == Match && b in bounds && b.text != []
    ensures VerdictOn(b, detected) == Pass
  {
    var v := VerdictOn(b, detected);
    assert v == Fail ==> SomeBoundSays(bounds, detected, Fail);
    assert v == Unknowable ==> SomeBoundSays(bounds, detected, Unknowable);
  }

  /** If a row matches two versions, it never answers "no match" for one ranked between them:
      the worst it can say is that it cannot decide. */
  lemma MatchesFormAnInterval(row: Row, low: string, mid: string, high: string)
    requires Evaluate(row, low) == Match && Evaluate(row, high) == Match
    requires Rank(low, mid).AtMost() && Rank(mid, high).AtMost()
    ensures Evaluate(row, mid) == Match || Evaluate(row, mid) == CannotDecide
  {
    hide Compare, Rank;
    if IsRangeRow(row) {
      var bounds := BoundsOf(row);
      if SomeBoundSays(bounds, mid, Fail) {
        var b :| b in bounds && b.text != [] && VerdictOn(b, mid) == Fail;
        PassesEverySetBound(bounds, low, b);
        PassesEverySetBound(bounds, high, b);
        BoundIsConvex(b, low, mid, high);
      }
    } else {
      BoundIsConvex(Bound(StartIncluding, row.version), low, mid, high);
      BoundIsConvex(Bound(EndIncluding, row.version), low, mid, high);
    }
  }

  /** In particular for any version reached from one to the other by decided steps. */
  lemma DecidedBetweenIsNotExcluded(row: Row, chain: seq<string>, i: nat)
    requires IsChain(chain) && i < |chain|
    requires Evaluate(row, chain[0]) == Match && Evaluate(row, chain[|chain| - 1]) == Match
    ensures Evaluate(row, chain[i]) == Match || Evaluate(row, chain[i]) == CannotDecide
  {
    hide Compare, Rank, Evaluate;
    var front, back := chain[..i + 1], chain[i..];
    assert front[|front| - 1] == chain[i] && back[|back| - 1] == chain[|chain| - 1];
    assert IsChain(back) by {
      assert forall k {:trigger back[k]} :: 0 <= k < |back| - 1 ==>
        back[k] == chain[i + k] && back[k + 1] == chain[i + k + 1];
    }
    ChainIsRanked(front);
    ChainIsRanked(back);
    MatchesFormAnInterval(row, chain[0], chain[i], chain[|chain| - 1]);
  }

  /** Two spellings decided equal never get opposite answers from one row. */
  lemma EqualVersionsNeverConflict(row: Row, d: string, d': string)
    requires Compare(d, d') == Equal && Evaluate(row, d) == Match
    ensures Evaluate(row, d') == Match || Evaluate(row, d') == CannotDecide
  {
    DecidedIsRanked(d, d');
    RankMirror(d, d');
    MatchesFormAnInterval(row, d, d', d);
  }

  /** Visiting order and repetition of the bounds cannot change the outcome, and neither can
      one more open side. */
  lemma OrderOfBoundsIsIrrelevant(bounds: seq<Bound>, other: seq<Bound>, detected: string)
    requires forall b: Bound :: b.text != [] ==> (b in bounds <==> b in other)
    ensures RangeOutcome(ToSet(bounds), detected) == RangeOutcome(ToSet(other), detected)
  {
    hide VerdictOn;
    var p, q := ToSet(bounds), ToSet(other);
    assert forall b: Bound :: b.text != [] ==> (b in p <==> b in q);
    forall v
      ensures SomeBoundSays(p, detected, v) == SomeBoundSays(q, detected, v)
    {
    }
  }
}
