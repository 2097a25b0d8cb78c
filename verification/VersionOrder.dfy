/** What a version string means, and the order between two of them.

    A version is an epoch and a list of components. Comparing pads the shorter list with
    "nothing" and walks both lists position by position. The comparator itself, which works
    on the raw bytes in two phases, is in VersionCompare and is proved equal to this walk. */
module VersionOrder {
  import opened Ascii

  datatype Verdict = Less | Equal | Greater | Undecidable {
    function Mirror(): Verdict {
      match this
      case Less => Greater
      case Greater => Less
      case v => v
    }

    predicate AtMost() {
      Less? || Equal?
    }
  }

  function OfSign(n: int): Verdict {
    if n < 0 then Less else if n > 0 then Greater else Equal
  }

  /** One component. `vendor` records whether an unrecognised word on its own ranks above
      nothing at all: it is glued to the digits before it, and is not one of the single
      letters a, b, c glued to a digit after it. */
  datatype Component =
    | Number(n: nat)
    | PreRelease(word: string)
    | Release
    | Unknown(word: string, vendor: bool)

  datatype Version =
    | Garbage
    | Version(epoch: nat, components: seq<Component>)

  // ---- reading a version ----

  const PRERELEASE_KEYWORDS: seq<string> := [
    "alpha", "beta", "rc", "pre", "preview", "dev", "devel", "snapshot", "nightly", "test",
    "unstable", "alfa", "milestone"
  ]

  const RELEASE_KEYWORDS: seq<string> := ["ga", "final", "release", "stable"]

  predicate OneOf(w: string, table: seq<string>) {
    table != [] && (w == table[0] || OneOf(w, table[1..]))
  }

  lemma {:induction false} OneOfIsMembership(w: string, table: seq<string>)
    ensures OneOf(w, table) <==> w in table
  {
    if table != [] {
      OneOfIsMembership(w, table[1..]);
      assert table == [table[0]] + table[1..];
    }
  }

  predicate IsPreReleaseKeyword(w: string) {
    OneOf(Lower(w), PRERELEASE_KEYWORDS)
  }

  predicate IsReleaseKeyword(w: string) {
    OneOf(Lower(w), RELEASE_KEYWORDS)
  }

  predicate IsDelim(c: char) {
    c == '.' || c == '-' || c == '_'
  }

  predicate IsDisallowed(c: char) {
    c as int < 0x20 || c as int == 0x7F || c as int >= 0x80
  }

  predicate HasDisallowed(s: string) {
    exists i :: 0 <= i < |s| && IsDisallowed(s[i])
  }

  predicate HasVPrefix(s: string) {
    |s| >= 2 && (s[0] == 'v' || s[0] == 'V') && IsDigit(s[1])
  }

  function StripV(s: string): string {
    if HasVPrefix(s) then s[1..] else s
  }

  /** The first position at or after `p` that is not a digit. */
  function DigitsEnd(s: string, p: nat): (e: nat)
    requires p <= |s|
    ensures p <= e <= |s|
    ensures e < |s| ==> !IsDigit(s[e])
    decreases |s| - p
  {
    if p < |s| && IsDigit(s[p]) then DigitsEnd(s, p + 1) else p
  }

  function DelimsEnd(s: string, p: nat): (e: nat)
    requires p <= |s|
    ensures p <= e <= |s|
    ensures e < |s| ==> !IsDelim(s[e])
    decreases |s| - p
  {
    if p < |s| && IsDelim(s[p]) then DelimsEnd(s, p + 1) else p
  }

  predicate IsAlpha(c: char) {
    !IsDigit(c) && !IsDelim(c)
  }

  function AlphasEnd(s: string, p: nat): (e: nat)
    requires p <= |s|
    ensures p <= e <= |s|
    ensures e < |s| ==> !IsAlpha(s[e])
    decreases |s| - p
  {
    if p < |s| && IsAlpha(s[p]) then AlphasEnd(s, p + 1) else p
  }

  /** The end of the maximal digit run or alpha run starting at `q`. */
  function RunEnd(s: string, q: nat): (e: nat)
    requires q < |s| && !IsDelim(s[q])
    ensures q < e <= |s|
  {
    if IsDigit(s[q]) then DigitsEnd(s, q) else AlphasEnd(s, q)
  }

  predicate DigitAt(s: string, p: nat) {
    p < |s| && IsDigit(s[p])
  }

  predicate IsAmbiguousLetter(w: string) {
    w == "a" || w == "b" || w == "c"
  }

  /** The component spelled by one run: `attached` when no delimiter precedes it,
      `digitFollows` when a digit comes right after it. */
  function Classify(run: string, attached: bool, digitFollows: bool): Component
    requires run != []
  {
    if IsDigit(run[0]) then Number(Value(run))
    else if IsPreReleaseKeyword(run) then PreRelease(Lower(run))
    else if IsReleaseKeyword(run) then Release
    else Unknown(Lower(run), attached && !(IsAmbiguousLetter(Lower(run)) && digitFollows))
  }

  /** Where the component read at position `p` ends. */
  function NextAt(s: string, p: nat): (e: nat)
    requires p <= |s| && DelimsEnd(s, p) < |s|
    ensures p < e <= |s|
  {
    RunEnd(s, DelimsEnd(s, p))
  }

  /** The component read at position `p`, when one is left. */
  function HeadAt(s: string, p: nat): Component
    requires p <= |s| && DelimsEnd(s, p) < |s|
  {
    var q, e := DelimsEnd(s, p), NextAt(s, p);
    Classify(s[q..e], p == q, DigitAt(s, e))
  }

  function Components(s: string, p: nat): seq<Component>
    requires p <= |s|
    decreases |s| - p
  {
    if DelimsEnd(s, p) == |s| then [] else [HeadAt(s, p)] + Components(s, NextAt(s, p))
  }

  predicate HasEpoch(s: string) {
    var p := DigitsEnd(s, 0);
    0 < p < |s| && s[p] == ':'
  }

  function EpochDigits(s: string): string {
    if HasEpoch(s) then s[..DigitsEnd(s, 0)] else "0"
  }

  function AfterEpoch(s: string): string {
    if HasEpoch(s) then s[DigitsEnd(s, 0) + 1..] else s
  }

  function BeforePlus(s: string): (t: string)
    ensures t <= s
    ensures forall i :: 0 <= i < |t| ==> t[i] != '+'
    ensures t == s || s[|t|] == '+'
  {
    if s == [] || s[0] == '+' then []
    else
      var r := BeforePlus(s[1..]);
      assert r <= s[1..];
      [s[0]] + r
  }

  /** The text that carries components: no "v", no epoch, no build metadata. */
  function Body(s: string): string {
    BeforePlus(AfterEpoch(StripV(s)))
  }

  function Parse(s: string): Version {
    var cs := Components(Body(s), 0);
    if HasDisallowed(s) || cs == [] then Garbage
    else Version(Value(EpochDigits(StripV(s))), cs)
  }

  // ---- the order ----

  function AgainstNothing(c: Component): Verdict {
    match c
    case Number(n) => if n == 0 then Equal else Greater
    case PreRelease(_) => Less
    case Release => Equal
    case Unknown(_, vendor) => if vendor then Greater else Undecidable
  }

  function CompareComponents(c: Component, d: Component): Verdict {
    match (c, d)
    case (Number(m), Number(n)) => OfSign(m - n)
    case (PreRelease(v), PreRelease(w)) => OfSign(Lex(v, w))
    case (Unknown(v, _), Unknown(w, _)) => OfSign(Lex(v, w))
    case (Release, Release) => Equal
    case (PreRelease(_), Release) => Less
    case (Release, PreRelease(_)) => Greater
    case _ => Undecidable
  }

  /** Position-wise comparison of two heads, either of which may be missing. */
  function CompareHeads(xs: seq<Component>, ys: seq<Component>): Verdict {
    if xs == [] then (if ys == [] then Equal else AgainstNothing(ys[0]).Mirror())
    else if ys == [] then AgainstNothing(xs[0])
    else CompareComponents(xs[0], ys[0])
  }

  function Tail(xs: seq<Component>): seq<Component> {
    if xs == [] then [] else xs[1..]
  }

  function Walk(xs: seq<Component>, ys: seq<Component>): Verdict
    decreases |xs| + |ys|
  {
    if xs == [] && ys == [] then Equal
    else if CompareHeads(xs, ys) != Equal then CompareHeads(xs, ys)
    else Walk(Tail(xs), Tail(ys))
  }

  function CompareVersions(u: Version, v: Version): Verdict {
    if u.Garbage? || v.Garbage? then Undecidable
    else if u.epoch != v.epoch then OfSign(u.epoch - v.epoch)
    else Walk(u.components, v.components)
  }

  function Compare(a: string, b: string): Verdict {
    CompareVersions(Parse(a), Parse(b))
  }

  // ---- decided comparisons never contradict each other ----

  /** Pre-release words rank below nothing at all; a zero and a release keyword rank with
      nothing; other numbers and other words rank above it. */
  function Level(xs: seq<Component>): nat {
    if xs == [] then 1
    else match xs[0]
      case PreRelease(_) => 0
      case Release => 1
      case Number(n) => if n == 0 then 1 else 2
      case Unknown(_, _) => 3
  }

  function RankHeads(xs: seq<Component>, ys: seq<Component>): Verdict {
    if Level(xs) != Level(ys) then OfSign(Level(xs) - Level(ys))
    else if xs == [] || ys == [] then Equal
    else match (xs[0], ys[0])
      case (PreRelease(v), PreRelease(w)) => OfSign(Lex(v, w))
      case (Number(m), Number(n)) => OfSign(m - n)
      case (Unknown(v, _), Unknown(w, _)) => OfSign(Lex(v, w))
      case _ => Equal
  }

  function RankWalk(xs: seq<Component>, ys: seq<Component>): (v: Verdict)
    ensures v != Undecidable
    decreases |xs| + |ys|
  {
    if xs == [] && ys == [] then Equal
    else if RankHeads(xs, ys) != Equal then RankHeads(xs, ys)
    else RankWalk(Tail(xs), Tail(ys))
  }

  function RankVersions(u: Version, v: Version): (r: Verdict)
    ensures r != Undecidable
  {
    var m, n := if u.Garbage? then 0 else u.epoch, if v.Garbage? then 0 else v.epoch;
    var xs, ys := if u.Garbage? then [] else u.components, if v.Garbage? then [] else v.components;
    if m != n then OfSign(m - n) else RankWalk(xs, ys)
  }

  /** A total preorder of all strings. DecidedIsRanked shows that the comparator follows it
      wherever it decides. */
  function Rank(a: string, b: string): (r: Verdict)
    ensures r != Undecidable
  {
    RankVersions(Parse(a), Parse(b))
  }

  /** Composing x <= y with y <= z, without exception. */
  predicate Composes(xy: Verdict, yz: Verdict, xz: Verdict) {
    xy.AtMost() && yz.AtMost() ==> xz == if xy == Equal && yz == Equal then Equal else Less
  }

  lemma {:induction false} LexComposes(u: string, v: string, w: string)
    ensures Composes(OfSign(Lex(u, v)), OfSign(Lex(v, w)), OfSign(Lex(u, w)))
  {
    if Lex(u, v) <= 0 && Lex(v, w) <= 0 {
      LexTransitive(u, v, w);
      LexMirror(u, v);
      LexMirror(v, w);
      LexMirror(u, w);
    }
  }

  lemma {:induction false} RankHeadsComposes(xs: seq<Component>, ys: seq<Component>, zs: seq<Component>)
    ensures Composes(RankHeads(xs, ys), RankHeads(ys, zs), RankHeads(xs, zs))
  {
    if xs != [] && ys != [] && zs != [] {
      match (xs[0], ys[0], zs[0]) {
        case (PreRelease(u), PreRelease(v), PreRelease(w)) => LexComposes(u, v, w);
        case (Unknown(u, _), Unknown(v, _), Unknown(w, _)) => LexComposes(u, v, w);
        case _ =>
      }
    }
  }

  lemma {:induction false} RankWalkComposes(xs: seq<Component>, ys: seq<Component>, zs: seq<Component>)
    ensures Composes(RankWalk(xs, ys), RankWalk(ys, zs), RankWalk(xs, zs))
    decreases |xs| + |ys| + |zs|
  {
    RankHeadsComposes(xs, ys, zs);
    if xs != [] || ys != [] || zs != [] {
      RankWalkComposes(Tail(xs), Tail(ys), Tail(zs));
    }
  }

  lemma RankVersionsComposes(u: Version, v: Version, w: Version)
    ensures Composes(RankVersions(u, v), RankVersions(v, w), RankVersions(u, w))
  {
    hide RankWalk;
    var xs := if u.Garbage? then [] else u.components;
    var ys := if v.Garbage? then [] else v.components;
    var zs := if w.Garbage? then [] else w.components;
    RankWalkComposes(xs, ys, zs);
  }

  /** The ranking is transitive, with no exception for undecidable pairs. */
  lemma RankComposes(a: string, b: string, c: string)
    ensures Composes(Rank(a, b), Rank(b, c), Rank(a, c))
  {
    RankVersionsComposes(Parse(a), Parse(b), Parse(c));
  }

  lemma {:induction false} RankWalkMirror(xs: seq<Component>, ys: seq<Component>)
    ensures RankWalk(ys, xs) == RankWalk(xs, ys).Mirror()
    decreases |xs| + |ys|
  {
    if xs != [] && ys != [] {
      match (xs[0], ys[0]) {
        case (PreRelease(u), PreRelease(v)) => LexMirror(u, v);
        case (Unknown(u, _), Unknown(v, _)) => LexMirror(u, v);
        case _ =>
      }
    }
    if xs != [] || ys != [] {
      RankWalkMirror(Tail(xs), Tail(ys));
    }
  }

  lemma RankMirror(a: string, b: string)
    ensures Rank(b, a) == Rank(a, b).Mirror()
  {
    hide Parse, RankWalk;
    var u, v := Parse(a), Parse(b);
    RankWalkMirror(if u.Garbage? then [] else u.components, if v.Garbage? then [] else v.components);
  }

  lemma {:induction false} DecidedHeadsAreRanked(xs: seq<Component>, ys: seq<Component>)
    ensures CompareHeads(xs, ys) == Undecidable || CompareHeads(xs, ys) == RankHeads(xs, ys)
  {
  }

  lemma {:induction false} DecidedWalksAreRanked(xs: seq<Component>, ys: seq<Component>)
    ensures Walk(xs, ys) == Undecidable || Walk(xs, ys) == RankWalk(xs, ys)
    decreases |xs| + |ys|
  {
    DecidedHeadsAreRanked(xs, ys);
    if xs != [] || ys != [] {
      DecidedWalksAreRanked(Tail(xs), Tail(ys));
    }
  }

  /** Whenever the comparator decides, it gives the answer of one total preorder. */
  lemma DecidedIsRanked(a: string, b: string)
    ensures Compare(a, b) == Undecidable || Compare(a, b) == Rank(a, b)
  {
    var u, v := Parse(a), Parse(b);
    if u.Version? && v.Version? {
      DecidedWalksAreRanked(u.components, v.components);
    }
  }

  /** For all byte strings: if a <= b and b <= c are both decided, a against c is the
      composed answer or Undecidable, never its opposite. */
  lemma DecidedComparisonsCompose(a: string, b: string, c: string)
    requires Compare(a, b).AtMost() && Compare(b, c).AtMost()
    ensures Compare(a, c) == Undecidable ||
            Compare(a, c) == if Compare(a, b) == Equal && Compare(b, c) == Equal then Equal else Less
  {
    hide Compare, Rank;
    DecidedIsRanked(a, b);
    DecidedIsRanked(b, c);
    DecidedIsRanked(a, c);
    RankComposes(a, b, c);
  }

  /** Every step decided "at most". */
  ghost predicate IsChain(vs: seq<string>) {
    vs != [] && forall i {:trigger vs[i]} :: 0 <= i < |vs| - 1 ==> Compare(vs[i], vs[i + 1]).AtMost()
  }

  ghost predicate IsFlat(vs: seq<string>) {
    forall i {:trigger vs[i]} :: 0 <= i < |vs| - 1 ==> Compare(vs[i], vs[i + 1]) == Equal
  }

  lemma {:induction false} RankWalkReflexive(xs: seq<Component>)
    ensures RankWalk(xs, xs) == Equal
  {
    if xs != [] {
      match xs[0] {
        case PreRelease(u) => LexMirror(u, u);
        case Unknown(u, _) => LexMirror(u, u);
        case _ =>
      }
      RankWalkReflexive(xs[1..]);
    }
  }

  lemma RankReflexive(a: string)
    ensures Rank(a, a) == Equal
  {
    RankWalkReflexive([]);
    if Parse(a).Version? {
      RankWalkReflexive(Parse(a).components);
    }
  }

  lemma {:induction false} ChainIsRanked(vs: seq<string>)
    requires IsChain(vs)
    ensures Rank(vs[0], vs[|vs| - 1]) == if IsFlat(vs) then Equal else Less
  {
    hide Compare, Rank;
    var n := |vs| - 1;
    if n == 0 {
      RankReflexive(vs[0]);
    } else {
      ChainIsRanked(vs[..n]);
      assert vs[n - 1] == vs[..n][n - 1];
      DecidedIsRanked(vs[n - 1], vs[n]);
      RankComposes(vs[0], vs[n - 1], vs[n]);
      assert IsFlat(vs) <==> IsFlat(vs[..n]) && Compare(vs[n - 1], vs[n]) == Equal;
    }
  }

  /** Chains of any length, even through pairs that are undecidable against each other, never
      turn back: there is no cycle with a decided Less in it. */
  lemma ChainsNeverTurnBack(vs: seq<string>)
    requires IsChain(vs)
    ensures var v := Compare(vs[0], vs[|vs| - 1]);
            v == Undecidable || v == if IsFlat(vs) then Equal else Less
  {
    hide Compare, Rank;
    ChainIsRanked(vs);
    DecidedIsRanked(vs[0], vs[|vs| - 1]);
  }

  lemma {:induction false} HeadsMirror(xs: seq<Component>, ys: seq<Component>)
    ensures CompareHeads(ys, xs) == CompareHeads(xs, ys).Mirror()
  {
    if xs != [] && ys != [] {
      match (xs[0], ys[0]) {
        case (PreRelease(u), PreRelease(v)) => LexMirror(u, v);
        case (Unknown(u, _), Unknown(v, _)) => LexMirror(u, v);
        case _ =>
      }
    }
  }

  lemma {:induction false} WalkMirror(xs: seq<Component>, ys: seq<Component>)
    ensures Walk(ys, xs) == Walk(xs, ys).Mirror()
    decreases |xs| + |ys|
  {
    HeadsMirror(xs, ys);
    if xs != [] || ys != [] {
      WalkMirror(Tail(xs), Tail(ys));
    }
  }

  lemma VersionsMirror(u: Version, v: Version)
    ensures CompareVersions(v, u) == CompareVersions(u, v).Mirror()
  {
    if u.Version? && v.Version? {
      WalkMirror(u.components, v.components);
    }
  }

  /** Swapping the arguments always mirrors the answer. */
  lemma CompareMirror(a: string, b: string)
    ensures Compare(b, a) == Compare(a, b).Mirror()
  {
    VersionsMirror(Parse(a), Parse(b));
  }

  lemma {:induction false} WalkReflexive(xs: seq<Component>)
    ensures Walk(xs, xs) == Equal
  {
    if xs != [] {
      match xs[0] {
        case PreRelease(u) => LexMirror(u, u);
        case Unknown(u, _) => LexMirror(u, u);
        case _ =>
      }
      WalkReflexive(xs[1..]);
    }
  }

  /** The text after the "v", the epoch and the build metadata holds a non-delimiter. */
  predicate HasRealComponent(s: string) {
    exists i :: 0 <= i < |Body(s)| && !IsDelim(Body(s)[i])
  }

  lemma {:induction false} DelimsEndIsFirstNonDelim(s: string, p: nat)
    requires p <= |s|
    ensures DelimsEnd(s, p) == |s| <==> forall i :: p <= i < |s| ==> IsDelim(s[i])
    decreases |s| - p
  {
    if p < |s| && IsDelim(s[p]) {
      DelimsEndIsFirstNonDelim(s, p + 1);
    }
  }

  /** A string equals itself exactly when it is readable as a version at all. */
  lemma CompareReflexive(a: string)
    ensures Compare(a, a) == if !HasDisallowed(a) && HasRealComponent(a) then Equal else Undecidable
  {
    DelimsEndIsFirstNonDelim(Body(a), 0);
    WalkReflexive(Components(Body(a), 0));
  }

  // ---- spellings that never change an answer ----

  lemma {:induction false} DigitsEndOfExtension(s: string, x: string, p: nat)
    requires p <= |s| && x != [] && !IsDigit(x[0])
    ensures DigitsEnd(s + x, p) == DigitsEnd(s, p)
    decreases |s| - p
  {
    if p < |s| && IsDigit(s[p]) {
      DigitsEndOfExtension(s, x, p + 1);
    }
  }

  lemma {:induction false} BeforePlusOfExtension(s: string, x: string)
    ensures BeforePlus(s + (['+'] + x)) == BeforePlus(s)
  {
    if s == [] {
      assert s + (['+'] + x) == ['+'] + x;
    } else {
      assert (s + (['+'] + x))[1..] == s[1..] + (['+'] + x);
      BeforePlusOfExtension(s[1..], x);
    }
  }

  lemma DisallowedInConcat(s: string, x: string)
    ensures HasDisallowed(s + x) <==> HasDisallowed(s) || HasDisallowed(x)
  {
    var t := s + x;
    assert forall i :: 0 <= i < |s| ==> t[i] == s[i];
    assert forall i :: 0 <= i < |x| ==> t[|s| + i] == x[i];
    if HasDisallowed(t) {
      var i :| 0 <= i < |t| && IsDisallowed(t[i]);
      assert i >= |s| ==> t[i] == x[i - |s|];
    }
  }

  /** Text added after a non-digit separator leaves the epoch alone and follows the rest. */
  lemma EpochOfExtension(s: string, x: string)
    requires x != [] && (x[0] == '+' || IsDelim(x[0]))
    ensures EpochDigits(StripV(s + x)) == EpochDigits(StripV(s))
    ensures AfterEpoch(StripV(s + x)) == AfterEpoch(StripV(s)) + x
  {
    var u := StripV(s);
    assert StripV(s + x) == u + x;
    DigitsEndOfExtension(u, x, 0);
    var p := DigitsEnd(u, 0);
    if HasEpoch(u) {
      assert (u + x)[p] == ':' && (u + x)[..p] == u[..p];
      assert (u + x)[p + 1..] == u[p + 1..] + x;
    }
  }

  lemma ParseIsDetermined(s: string, t: string)
    requires HasDisallowed(s) == HasDisallowed(t)
    requires Body(s) == Body(t) && EpochDigits(StripV(s)) == EpochDigits(StripV(t))
    ensures Parse(s) == Parse(t)
  {
  }

  /** Build metadata (section 10 of SemVer 2.0.0) carries no precedence. */
  lemma BuildMetadataIsIgnored(s: string, build: string, t: string)
    requires !HasDisallowed(build)
    ensures Compare(s + (['+'] + build), t) == Compare(s, t)
    ensures Compare(t, s + (['+'] + build)) == Compare(t, s)
  {
    var x := ['+'] + build;
    DisallowedInConcat(s, x);
    DisallowedInConcat(['+'], build);
    EpochOfExtension(s, x);
    BeforePlusOfExtension(AfterEpoch(StripV(s)), build);
    ParseIsDetermined(s + x, s);
  }

  /** One "v" or "V" before a digit changes nothing. */
  lemma VPrefixIsIgnored(v: char, s: string, t: string)
    requires v == 'v' || v == 'V'
    requires s != [] && IsDigit(s[0])
    ensures Compare([v] + s, t) == Compare(s, t)
    ensures Compare(t, [v] + s) == Compare(t, s)
  {
    assert StripV([v] + s) == s == StripV(s);
    DisallowedInConcat([v], s);
    ParseIsDetermined([v] + s, s);
  }

  // ---- what an added suffix means ----

  lemma {:induction false} DelimsEndOfExtension(s: string, x: string, p: nat)
    requires p <= |s|
    ensures DelimsEnd(s, p) < |s| ==> DelimsEnd(s + x, p) == DelimsEnd(s, p)
    ensures DelimsEnd(s, p) == |s| ==> DelimsEnd(s + x, p) == DelimsEnd(s + x, |s|)
    decreases |s| - p
  {
    if p < |s| && IsDelim(s[p]) {
      DelimsEndOfExtension(s, x, p + 1);
    }
  }

  lemma {:induction false} AlphasEndOfExtension(s: string, x: string, p: nat)
    requires p <= |s| && x != [] && IsDelim(x[0])
    ensures AlphasEnd(s + x, p) == AlphasEnd(s, p)
    decreases |s| - p
  {
    if p < |s| && IsAlpha(s[p]) {
      AlphasEndOfExtension(s, x, p + 1);
    }
  }

  lemma DelimiterIsSkipped(s: string, x: string)
    requires x != [] && IsDelim(x[0])
    ensures DelimsEnd(s + x, |s|) > |s|
    ensures DelimsEnd(s + x, |s|) == |s + x| <==> Components(s + x, |s|) == []
    ensures forall p :: 0 <= p <= |s| && DelimsEnd(s + x, p) == DelimsEnd(s + x, |s|) ==>
              Components(s + x, p) == Components(s + x, |s|)
  {
    hide Classify, RunEnd;
    forall p | 0 <= p <= |s| && DelimsEnd(s + x, p) == DelimsEnd(s + x, |s|)
      ensures Components(s + x, p) == Components(s + x, |s|)
    {
    }
  }

  /** The step from `p` is the same with a delimiter and more text behind. */
  lemma StepOfExtension(s: string, x: string, p: nat)
    requires p <= |s| && x != [] && IsDelim(x[0]) && DelimsEnd(s, p) < |s|
    ensures DelimsEnd(s + x, p) == DelimsEnd(s, p)
    ensures NextAt(s + x, p) == NextAt(s, p) && HeadAt(s + x, p) == HeadAt(s, p)
  {
    hide Classify, DigitsEnd, AlphasEnd;
    DelimsEndOfExtension(s, x, p);
    var q := DelimsEnd(s, p);
    DigitsEndOfExtension(s, x, q);
    AlphasEndOfExtension(s, x, q);
    var e := NextAt(s, p);
    assert (s + x)[q..e] == s[q..e];
    assert DigitAt(s + x, e) == DigitAt(s, e);
  }

  /** Appending a delimiter and more text keeps every component already there. */
  lemma {:induction false} ComponentsOfExtension(s: string, x: string, p: nat)
    requires p <= |s| && x != [] && IsDelim(x[0])
    ensures Components(s + x, p) == Components(s, p) + Components(s + x, |s|)
    decreases |s| - p
  {
    hide HeadAt, NextAt, DelimsEnd;
    DelimsEndOfExtension(s, x, p);
    if DelimsEnd(s, p) == |s| {
      DelimiterIsSkipped(s, x);
    } else {
      StepOfExtension(s, x, p);
      ComponentsOfExtension(s, x, NextAt(s, p));
    }
  }

  ghost predicate IsTail(t: string, k: nat, x: string) {
    |t| == k + |x| && forall i :: 0 <= i < |x| ==> x[i] == t[k + i]
  }

  lemma {:induction false} RunsOfTail(t: string, k: nat, x: string, p: nat)
    requires IsTail(t, k, x) && p <= |x|
    ensures DelimsEnd(t, k + p) == k + DelimsEnd(x, p)
    ensures DigitsEnd(t, k + p) == k + DigitsEnd(x, p)
    ensures AlphasEnd(t, k + p) == k + AlphasEnd(x, p)
    decreases |x| - p
  {
    if p < |x| {
      assert t[k + p] == x[p];
      RunsOfTail(t, k, x, p + 1);
    }
  }

  lemma RunOfTail(t: string, k: nat, x: string, q: nat)
    requires IsTail(t, k, x) && q < |x| && !IsDelim(x[q])
    ensures !IsDelim(t[k + q])
    ensures RunEnd(t, k + q) == k + RunEnd(x, q)
    ensures t[k + q..k + RunEnd(x, q)] == x[q..RunEnd(x, q)]
    ensures DigitAt(t, k + RunEnd(x, q)) == DigitAt(x, RunEnd(x, q))
  {
    RunsOfTail(t, k, x, q);
    assert x[q] == t[k + q];
    var e := RunEnd(x, q);
    assert e < |x| ==> x[e] == t[k + e];
    forall i | 0 <= i < e - q
      ensures t[k + q..k + e][i] == x[q..e][i]
    {
      assert x[q + i] == t[k + (q + i)];
    }
  }

  lemma StepOfTail(t: string, k: nat, x: string, p: nat)
    requires IsTail(t, k, x) && p <= |x| && DelimsEnd(x, p) < |x|
    ensures DelimsEnd(t, k + p) == k + DelimsEnd(x, p)
    ensures NextAt(t, k + p) == k + NextAt(x, p) && HeadAt(t, k + p) == HeadAt(x, p)
  {
    hide Classify, DigitsEnd, AlphasEnd, DelimsEnd, RunEnd, DigitAt;
    RunsOfTail(t, k, x, p);
    RunOfTail(t, k, x, DelimsEnd(x, p));
  }

  lemma {:induction false} ComponentsOfTail(t: string, k: nat, x: string, p: nat)
    requires IsTail(t, k, x) && p <= |x|
    ensures Components(t, k + p) == Components(x, p)
    decreases |x| - p
  {
    hide HeadAt, NextAt, DelimsEnd;
    RunsOfTail(t, k, x, p);
    if DelimsEnd(x, p) < |x| {
      StepOfTail(t, k, x, p);
      ComponentsOfTail(t, k, x, NextAt(x, p));
    }
  }

  lemma {:induction false} WalkOfCommonPrefix(xs: seq<Component>, ys: seq<Component>, zs: seq<Component>)
    ensures Walk(xs + ys, xs + zs) == Walk(ys, zs)
  {
    if xs == [] {
      assert xs + ys == ys && xs + zs == zs;
    } else {
      assert (xs + ys)[1..] == xs[1..] + ys && (xs + zs)[1..] == xs[1..] + zs;
      match xs[0] {
        case PreRelease(u) => LexMirror(u, u);
        case Unknown(u, _) => LexMirror(u, u);
        case _ =>
      }
      WalkOfCommonPrefix(xs[1..], ys, zs);
    }
  }

  ghost predicate NoPlus(s: string) {
    forall i :: 0 <= i < |s| ==> s[i] != '+'
  }

  /** The text of `s` is read as components to its end. */
  lemma BodyOfExtension(s: string, x: string)
    requires x != [] && IsDelim(x[0]) && NoPlus(s) && NoPlus(x)
    ensures Body(s + x) == Body(s) + x
  {
    EpochOfExtension(s, x);
    var b := AfterEpoch(StripV(s));
    assert NoPlus(b) && NoPlus(b + x);
    assert BeforePlus(b) == b && BeforePlus(b + x) == b + x;
  }

  lemma ComponentsOfSuffix(b: string, x: string)
    requires x != [] && IsDelim(x[0])
    ensures Components(b + x, 0) == Components(b, 0) + Components(x, 0)
  {
    ComponentsOfExtension(b, x, 0);
    ComponentsOfTail(b + x, |b|, x, 0);
  }

  lemma ParseOfSuffix(s: string, x: string)
    requires x != [] && IsDelim(x[0]) && !HasDisallowed(x)
    requires NoPlus(s) && NoPlus(x) && Parse(s).Version?
    ensures Parse(s + x) == Version(Parse(s).epoch, Parse(s).components + Components(x, 0))
  {
    EpochOfExtension(s, x);
    BodyOfExtension(s, x);
    DisallowedInConcat(s, x);
    ComponentsOfSuffix(Body(s), x);
  }

  /** A suffix set off by a delimiter is judged on its own, whatever it is added to. */
  lemma SuffixVerdict(s: string, x: string)
    requires x != [] && IsDelim(x[0]) && !HasDisallowed(x)
    requires NoPlus(s) && NoPlus(x) && Parse(s).Version?
    ensures Compare(s + x, s) == Walk(Components(x, 0), [])
  {
    hide Parse, Components, Walk;
    ParseOfSuffix(s, x);
    var xs := Parse(s).components;
    assert xs + [] == xs;
    WalkOfCommonPrefix(xs, Components(x, 0), []);
  }

  lemma {:induction false} WholeRun(s: string, p: nat)
    requires p < |s|
    requires (forall i :: p <= i < |s| ==> IsDigit(s[i])) || (forall i :: p <= i < |s| ==> IsAlpha(s[i]))
    ensures !IsDelim(s[p]) && RunEnd(s, p) == |s|
    decreases |s| - p
  {
    if p + 1 < |s| {
      WholeRun(s, p + 1);
    }
  }

  ghost predicate IsOneRun(w: string) {
    w != [] && (AllDigits(w) || forall i :: 0 <= i < |w| ==> IsAlpha(w[i]))
  }

  lemma ComponentsOfOneRun(d: char, w: string)
    requires IsDelim(d) && IsOneRun(w)
    ensures Components([d] + w, 0) == [Classify(w, false, false)]
  {
    var x := [d] + w;
    WholeRun(x, 1);
    assert DelimsEnd(x, 0) == 1;
    assert x[1..|x|] == w;
    assert Components(x, |x|) == [];
  }

  /** How a delimited word or number ranks against nothing. */
  function WordVerdict(w: string): Verdict
    requires w != []
  {
    if IsDigit(w[0]) then (if Value(w) == 0 then Equal else Greater)
    else if IsPreReleaseKeyword(w) then Less
    else if IsReleaseKeyword(w) then Equal
    else Undecidable
  }

  lemma WalkOfOneRun(w: string)
    requires IsOneRun(w)
    ensures Walk([Classify(w, false, false)], []) == WordVerdict(w)
  {
    var c := Classify(w, false, false);
    assert Tail([c]) == [];
    assert Walk([c], []) == AgainstNothing(c);
  }

  /** A version with one delimited word or number added: pre-release keywords lower it,
      non-zero numbers raise it, zeros and release keywords leave it unchanged, and every
      other word is undecidable. */
  lemma WordSuffixVerdict(s: string, d: char, w: string)
    requires NoPlus(s) && Parse(s).Version?
    requires IsDelim(d) && IsOneRun(w) && !HasDisallowed(w) && NoPlus(w)
    ensures Compare(s + ([d] + w), s) == WordVerdict(w)
  {
    DisallowedInConcat([d], w);
    SuffixVerdict(s, [d] + w);
    ComponentsOfOneRun(d, w);
    WalkOfOneRun(w);
  }

  /** Text that a version may be extended with: a delimiter first, nothing forbidden, no "+". */
  ghost predicate IsSuffix(x: string) {
    x != [] && IsDelim(x[0]) && !HasDisallowed(x) && NoPlus(x)
  }

  lemma SuffixesAgainstEachOther(s: string, x: string, y: string)
    requires NoPlus(s) && Parse(s).Version? && IsSuffix(x) && IsSuffix(y)
    ensures Compare(s + x, s + y) == Walk(Components(x, 0), Components(y, 0))
  {
    ParseOfSuffix(s, x);
    ParseOfSuffix(s, y);
    WalkOfCommonPrefix(Parse(s).components, Components(x, 0), Components(y, 0));
  }

  // ---- words attached to a number ----

  predicate EndsInDigit(s: string) {
    s != [] && IsDigit(s[|s| - 1])
  }

  /** Text that can be attached to a number: it starts with a letter or other non-delimiter,
      not with the colon of an epoch. */
  ghost predicate IsAttachment(x: string) {
    x != [] && IsAlpha(x[0]) && x[0] != ':' && !HasDisallowed(x) && NoPlus(x)
  }

  lemma {:induction false} AlphasEndWithin(s: string, x: string, p: nat)
    requires p < |s| && EndsInDigit(s)
    ensures AlphasEnd(s, p) < |s| && AlphasEnd(s + x, p) == AlphasEnd(s, p)
    decreases |s| - p
  {
    if IsAlpha(s[p]) {
      AlphasEndWithin(s, x, p + 1);
    }
  }

  lemma {:induction false} LastIsNoDelim(s: string, p: nat)
    requires p < |s| && EndsInDigit(s)
    ensures DelimsEnd(s, p) < |s|
    decreases |s| - p
  {
    if IsDelim(s[p]) {
      LastIsNoDelim(s, p + 1);
    }
  }

  lemma NothingLeft(s: string)
    ensures Components(s, |s|) == []
  {
  }

  /** Only an alpha run cares whether a digit follows, and one that ends before the final digit
      sees the same byte either way. */
  lemma SameClassification(s: string, x: string, q: nat)
    requires q < |s| && !IsDelim(s[q]) && EndsInDigit(s) && x != [] && IsAlpha(x[0])
    ensures var e := RunEnd(s, q); forall attached ::
              Classify(s[q..e], attached, DigitAt(s + x, e)) == Classify(s[q..e], attached, DigitAt(s, e))
  {
    var e := RunEnd(s, q);
    if !IsDigit(s[q]) {
      AlphasEndWithin(s, x, q);
      assert (s + x)[e] == s[e];
    }
  }

  lemma StepOfAttachment(s: string, x: string, p: nat)
    requires p < |s| && EndsInDigit(s) && x != [] && IsAlpha(x[0]) && DelimsEnd(s, p) < |s|
    ensures DelimsEnd(s + x, p) == DelimsEnd(s, p)
    ensures NextAt(s + x, p) == NextAt(s, p) && HeadAt(s + x, p) == HeadAt(s, p)
  {
    hide Classify, DigitsEnd, AlphasEnd;
    DelimsEndOfExtension(s, x, p);
    var q := DelimsEnd(s, p);
    DigitsEndOfExtension(s, x, q);
    AlphasEndWithin(s, x, q);
    var e := NextAt(s, p);
    assert (s + x)[q..e] == s[q..e];
    SameClassification(s, x, q);
  }

  /** Text attached after a final digit leaves every component before it as it was. */
  lemma {:induction false} ComponentsOfAttachment(s: string, x: string, p: nat)
    requires p <= |s| && EndsInDigit(s) && x != [] && IsAlpha(x[0])
    ensures Components(s + x, p) == Components(s, p) + Components(s + x, |s|)
    decreases |s| - p
  {
    hide HeadAt, NextAt, DelimsEnd;
    if p == |s| {
      NothingLeft(s);
      assert [] + Components(s + x, |s|) == Components(s + x, |s|);
    } else {
      LastIsNoDelim(s, p);
      StepOfAttachment(s, x, p);
      ComponentsOfAttachment(s, x, NextAt(s, p));
    }
  }

  lemma EpochOfAttachment(u: string, x: string)
    requires EndsInDigit(u) && x != [] && IsAlpha(x[0]) && x[0] != ':'
    ensures EpochDigits(u + x) == EpochDigits(u) && AfterEpoch(u + x) == AfterEpoch(u) + x
    ensures EndsInDigit(AfterEpoch(u))
  {
    DigitsEndOfExtension(u, x, 0);
    var p := DigitsEnd(u, 0);
    if HasEpoch(u) {
      assert (u + x)[p] == ':' && (u + x)[..p] == u[..p];
      assert (u + x)[p + 1..] == u[p + 1..] + x;
    }
  }

  lemma BodyOfAttachment(s: string, x: string)
    requires EndsInDigit(s) && NoPlus(s) && IsAttachment(x)
    ensures Body(s + x) == Body(s) + x && EpochDigits(StripV(s + x)) == EpochDigits(StripV(s))
    ensures EndsInDigit(Body(s))
  {
    hide EpochDigits, BeforePlus;
    var u := StripV(s);
    assert StripV(s + x) == u + x;
    EpochOfAttachment(u, x);
    var b := AfterEpoch(u);
    assert NoPlus(b) && NoPlus(b + x);
    assert BeforePlus(b) == b && BeforePlus(b + x) == b + x;
  }

  /** The epoch ends before the attached text, since neither "v" nor colon can come from it. */
  lemma ParseOfAttachment(s: string, x: string)
    requires EndsInDigit(s) && NoPlus(s) && Parse(s).Version? && IsAttachment(x)
    ensures Parse(s + x) == Version(Parse(s).epoch, Parse(s).components + Components(x, 0))
  {
    hide Components, Body, StripV, EpochDigits, HasDisallowed, EndsInDigit;
    BodyOfAttachment(s, x);
    DisallowedInConcat(s, x);
    ComponentsOfAttachment(Body(s), x, 0);
    ComponentsOfTail(Body(s) + x, |Body(s)|, x, 0);
  }

  /** Attached text is judged on its own, whatever version it is attached to. */
  lemma AttachmentVerdict(s: string, x: string)
    requires EndsInDigit(s) && NoPlus(s) && Parse(s).Version? && IsAttachment(x)
    ensures Compare(s + x, s) == Walk(Components(x, 0), [])
  {
    hide Parse, Components;
    ParseOfAttachment(s, x);
    var xs := Parse(s).components;
    assert xs + [] == xs;
    WalkOfCommonPrefix(xs, Components(x, 0), []);
  }

  /** An alpha run and nothing else. */
  ghost predicate IsWord(w: string) {
    IsAttachment(w) && forall i :: 0 <= i < |w| ==> IsAlpha(w[i])
  }

  lemma {:induction false} WordEnds(w: string, t: string, p: nat)
    requires p <= |w| && (forall i :: p <= i < |w| ==> IsAlpha(w[i])) && (t == [] || !IsAlpha(t[0]))
    ensures AlphasEnd(w + t, p) == |w|
    decreases |w| - p
  {
    if p < |w| {
      WordEnds(w, t, p + 1);
    }
  }

  /** The word comes first, attached; what follows it is read as if it stood alone. */
  lemma ComponentsOfWord(w: string, t: string)
    requires IsWord(w) && (t == [] || !IsAlpha(t[0]))
    ensures Components(w + t, 0) == [Classify(w, true, DigitAt(t, 0))] + Components(t, 0)
  {
    var x := w + t;
    WordEnds(w, t, 0);
    assert DelimsEnd(x, 0) == 0 && RunEnd(x, 0) == |w|;
    assert x[0..|w|] == w;
    ComponentsOfTail(x, |w|, t, 0);
    assert DigitAt(x, |w|) == DigitAt(t, 0);
  }

  /** How an attached word ranks against nothing, when it is the whole difference. */
  function AttachedVerdict(w: string, digitFollows: bool): Verdict {
    if IsPreReleaseKeyword(w) then Less
    else if IsReleaseKeyword(w) then Equal
    else if digitFollows && IsAmbiguousLetter(Lower(w)) then Undecidable
    else Greater
  }

  lemma WalkOfWord(w: string, digitFollows: bool, rest: seq<Component>)
    requires w != [] && !IsDigit(w[0])
    ensures var v := AttachedVerdict(w, digitFollows);
            Walk([Classify(w, true, digitFollows)] + rest, []) == if v == Equal then Walk(rest, []) else v
  {
    hide IsPreReleaseKeyword, IsReleaseKeyword, IsAmbiguousLetter;
    var xs := [Classify(w, true, digitFollows)] + rest;
    assert Tail(xs) == rest;
  }

  lemma NoComponents()
    ensures Components("", 0) == []
  {
  }

  /** A version ending in a digit with a word attached ("3.11.0rc", "1.0.2k"): lower exactly for
      pre-release keywords, unchanged exactly for release keywords, higher otherwise. */
  lemma AttachedWordVerdict(s: string, w: string)
    requires EndsInDigit(s) && NoPlus(s) && Parse(s).Version? && IsWord(w)
    ensures Compare(s + w, s) == AttachedVerdict(w, false)
  {
    hide Compare, Components, Parse, Classify;
    AttachmentVerdict(s, w);
    assert w + [] == w;
    ComponentsOfWord(w, []);
    NoComponents();
    WalkOfWord(w, false, []);
  }

  lemma WordWithNumber(w: string, n: string)
    requires IsWord(w) && n != [] && AllDigits(n)
    ensures IsAttachment(w + n)
  {
    DisallowedInConcat(w, n);
    assert !HasDisallowed(n);
  }

  lemma NumberAlone(n: string)
    requires n != [] && AllDigits(n)
    ensures Components(n, 0) == [Number(Value(n))]
  {
    WholeRun(n, 0);
    assert n[0..|n|] == n;
    assert Components(n, |n|) == [];
  }

  lemma WalkOfNumber(n: nat)
    ensures Walk([Number(n)], []) == if n == 0 then Equal else Greater
  {
    assert Tail([Number(n)]) == [];
  }

  /** "rc" is the only two-letter pre-release keyword, and none is shorter. */
  lemma NoPreReleaseWordOfTwo(w: string)
    requires |w| <= 2 && w != "rc"
    ensures !OneOf(w, PRERELEASE_KEYWORDS)
  {
    OneOfIsMembership(w, PRERELEASE_KEYWORDS);
    assert forall i :: 0 <= i < |PRERELEASE_KEYWORDS| ==>
      |PRERELEASE_KEYWORDS[i]| > 2 || PRERELEASE_KEYWORDS[i] == "rc";
  }

  lemma LettersAreNoKeywords(w: string)
    requires IsAmbiguousLetter(Lower(w))
    ensures !IsPreReleaseKeyword(w) && !IsReleaseKeyword(w)
  {
    NoPreReleaseWordOfTwo(Lower(w));
    OneOfIsMembership(Lower(w), RELEASE_KEYWORDS);
    assert forall i :: 0 <= i < |RELEASE_KEYWORDS| ==> |RELEASE_KEYWORDS[i]| > 1;
  }

  lemma SingleLetters(w: string)
    ensures IsAmbiguousLetter(Lower(w)) <==> w in {"a", "b", "c", "A", "B", "C"}
  {
    if |w| == 1 {
      assert Lower(w)[0] == ToLower(w[0]) && w == [w[0]];
      assert Lower(w) == [ToLower(w[0])];
    }
  }

  /** The same with a number after the word ("3.11.0rc1", "3.9.0a1"): a release keyword leaves
      the decision to that number, and the answer is undecidable exactly for one letter a, b
      or c. */
  lemma AttachedWordAndNumberVerdict(s: string, w: string, n: string)
    requires EndsInDigit(s) && NoPlus(s) && Parse(s).Version? && IsWord(w) && n != [] && AllDigits(n)
    ensures var v := AttachedVerdict(w, true);
            Compare(s + (w + n), s) == if v == Equal && Value(n) != 0 then Greater else v
    ensures Compare(s + (w + n), s) == Undecidable <==> w in {"a", "b", "c", "A", "B", "C"}
  {
    hide Compare, Components, Parse, Classify, IsPreReleaseKeyword, IsReleaseKeyword, IsAmbiguousLetter;
    WordWithNumber(w, n);
    AttachmentVerdict(s, w + n);
    ComponentsOfWord(w, n);
    NumberAlone(n);
    WalkOfWord(w, true, Components(n, 0));
    WalkOfNumber(Value(n));
    SingleLetters(w);
    if IsAmbiguousLetter(Lower(w)) {
      LettersAreNoKeywords(w);
    }
  }

  // ---- exactly when equality carries over ----

  predicate ClashAt(c: Component, d: Component) {
    (c == Number(0) && d == Release) || (c == Release && d == Number(0))
  }

  /** At some position one side has a zero number and the other a release keyword: the two
      components that both rank with nothing but do not compare. */
  predicate Clash(xs: seq<Component>, ys: seq<Component>) {
    exists k :: 0 <= k < |xs| && k < |ys| && ClashAt(xs[k], ys[k])
  }

  lemma ClashOfTails(xs: seq<Component>, ys: seq<Component>)
    requires xs != [] && ys != []
    ensures Clash(xs, ys) <==> ClashAt(xs[0], ys[0]) || Clash(xs[1..], ys[1..])
  {
    if Clash(xs[1..], ys[1..]) {
      var k :| 0 <= k < |xs[1..]| && k < |ys[1..]| && ClashAt(xs[1..][k], ys[1..][k]);
      assert ClashAt(xs[k + 1], ys[k + 1]);
    }
    if Clash(xs, ys) {
      var k :| 0 <= k < |xs| && k < |ys| && ClashAt(xs[k], ys[k]);
      assert k > 0 ==> ClashAt(xs[1..][k - 1], ys[1..][k - 1]);
    }
  }

  lemma RankedEqualHeads(xs: seq<Component>, ys: seq<Component>)
    requires RankHeads(xs, ys) == Equal
    ensures CompareHeads(xs, ys) == if xs != [] && ys != [] && ClashAt(xs[0], ys[0]) then Undecidable else Equal
  {
  }

  /** Two lists the ranking holds equal are decided equal, unless they clash. */
  lemma {:induction false} RankedEqualWalks(xs: seq<Component>, ys: seq<Component>)
    requires RankWalk(xs, ys) == Equal
    ensures Walk(xs, ys) == if Clash(xs, ys) then Undecidable else Equal
    decreases |xs| + |ys|
  {
    if xs != [] || ys != [] {
      RankedEqualHeads(xs, ys);
      RankedEqualWalks(Tail(xs), Tail(ys));
      if xs != [] && ys != [] {
        ClashOfTails(xs, ys);
      }
    }
  }

  function ComponentsIn(s: string): seq<Component> {
    if Parse(s).Version? then Parse(s).components else []
  }

  lemma RankedEqualVersions(u: Version, v: Version)
    requires u.Version? && v.Version? && RankVersions(u, v) == Equal
    ensures CompareVersions(u, v) == if Clash(u.components, v.components) then Undecidable else Equal
  {
    RankedEqualWalks(u.components, v.components);
  }

  lemma EqualMeansReadable(a: string, b: string)
    requires Compare(a, b) == Equal
    ensures Parse(a).Version? && Parse(b).Version?
  {
    hide Parse, Walk;
  }

  /** Equality carries over from a = b and b = c to a = c exactly when a and c do not clash;
      if they do, a against c is undecidable. */
  lemma EqualComposesExactly(a: string, b: string, c: string)
    requires Compare(a, b) == Equal && Compare(b, c) == Equal
    ensures Compare(a, c) == Equal <==> !Clash(ComponentsIn(a), ComponentsIn(c))
    ensures Compare(a, c) != Equal ==> Compare(a, c) == Undecidable
  {
    hide Parse, CompareVersions, RankVersions, Clash;
    DecidedIsRanked(a, b);
    DecidedIsRanked(b, c);
    RankComposes(a, b, c);
    EqualMeansReadable(a, b);
    EqualMeansReadable(b, c);
    RankedEqualVersions(Parse(a), Parse(c));
  }

  /** The same along a chain of equalities of any length: its ends are decided equal exactly
      when they do not clash. */
  lemma FlatChainsAreEqualExactly(vs: seq<string>)
    requires IsChain(vs) && IsFlat(vs) && |vs| > 1
    ensures var a, c := vs[0], vs[|vs| - 1];
            Compare(a, c) == if Clash(ComponentsIn(a), ComponentsIn(c)) then Undecidable else Equal
  {
    hide Parse, CompareVersions, RankVersions, Clash;
    var n := |vs| - 1;
    ChainIsRanked(vs);
    EqualMeansReadable(vs[0], vs[1]);
    assert Compare(vs[n - 1], vs[n]) == Equal;
    EqualMeansReadable(vs[n - 1], vs[n]);
    RankedEqualVersions(Parse(vs[0]), Parse(vs[n]));
  }

  // ---- exactly when two versions are undecidable ----

  /** The component at a position, or nothing beyond the end. */
  function At(xs: seq<Component>, k: nat): (c: seq<Component>)
    ensures |c| <= 1
  {
    if k < |xs| then [xs[k]] else []
  }

  /** Two heads of kinds that do not compare: a word no table knows and no digit holds, against
      nothing; otherwise two different kinds, except a pre-release word and a release keyword. */
  predicate Incomparable(xs: seq<Component>, ys: seq<Component>) {
    if xs == [] || ys == [] then
      (xs != [] && xs[0].Unknown? && !xs[0].vendor) || (ys != [] && ys[0].Unknown? && !ys[0].vendor)
    else match (xs[0], ys[0])
      case (Number(_), d) => !d.Number?
      case (PreRelease(_), d) => !d.PreRelease? && !d.Release?
      case (Release, d) => !d.PreRelease? && !d.Release?
      case (Unknown(_, _), d) => !d.Unknown?
  }

  ghost predicate ObstructedAt(xs: seq<Component>, ys: seq<Component>, k: nat) {
    Incomparable(At(xs, k), At(ys, k)) && forall j :: 0 <= j < k ==> RankHeads(At(xs, j), At(ys, j)) == Equal
  }

  /** Some position holds incomparable kinds, and the ranking ties everything before it. */
  ghost predicate Obstructed(xs: seq<Component>, ys: seq<Component>) {
    exists k :: ObstructedAt(xs, ys, k)
  }

  lemma UndecidableHeads(xs: seq<Component>, ys: seq<Component>)
    ensures CompareHeads(xs, ys) == Undecidable <==> Incomparable(At(xs, 0), At(ys, 0))
    ensures RankHeads(xs, ys) == RankHeads(At(xs, 0), At(ys, 0))
  {
  }

  /** Obstruction, head first. */
  lemma ObstructedStep(xs: seq<Component>, ys: seq<Component>)
    ensures Obstructed(xs, ys) <==>
            Incomparable(At(xs, 0), At(ys, 0)) ||
            (RankHeads(At(xs, 0), At(ys, 0)) == Equal && Obstructed(Tail(xs), Tail(ys)))
  {
    hide Incomparable, RankHeads;
    assert forall j: nat :: At(Tail(xs), j) == At(xs, j + 1) && At(Tail(ys), j) == At(ys, j + 1);
    if k: nat :| ObstructedAt(xs, ys, k) {
      if k > 0 {
        assert ObstructedAt(Tail(xs), Tail(ys), k - 1);
      }
    }
    if Incomparable(At(xs, 0), At(ys, 0)) {
      assert ObstructedAt(xs, ys, 0);
    }
    if RankHeads(At(xs, 0), At(ys, 0)) == Equal && Obstructed(Tail(xs), Tail(ys)) {
      var k: nat :| ObstructedAt(Tail(xs), Tail(ys), k);
      forall j | 0 <= j < k + 1
        ensures RankHeads(At(xs, j), At(ys, j)) == Equal
      {
        if j > 0 {
          assert RankHeads(At(Tail(xs), j - 1), At(Tail(ys), j - 1)) == Equal;
        }
      }
      assert ObstructedAt(xs, ys, k + 1);
    }
  }

  lemma NothingIsObstructed()
    ensures !Obstructed([], [])
  {
    forall k: nat
      ensures !ObstructedAt([], [], k)
    {
    }
  }

  lemma {:induction false} WalkUndecidableExactly(xs: seq<Component>, ys: seq<Component>)
    ensures Walk(xs, ys) == Undecidable <==> Obstructed(xs, ys)
    decreases |xs| + |ys|
  {
    hide Incomparable, Obstructed, CompareHeads, RankHeads;
    NothingIsObstructed();
    if xs != [] || ys != [] {
      UndecidableHeads(xs, ys);
      DecidedHeadsAreRanked(xs, ys);
      ObstructedStep(xs, ys);
      WalkUndecidableExactly(Tail(xs), Tail(ys));
    }
  }

  /** Two strings are undecidable exactly when one of them is no version, or when their epochs
      are equal and, no later than the first position the ranking tells apart, they hold
      incomparable kinds. */
  lemma UndecidableExactly(a: string, b: string)
    ensures var u, v := Parse(a), Parse(b);
            Compare(a, b) == Undecidable <==>
            u.Garbage? || v.Garbage? || (u.epoch == v.epoch && Obstructed(u.components, v.components))
  {
    hide Parse, Obstructed, Walk;
    var u, v := Parse(a), Parse(b);
    if u.Version? && v.Version? {
      WalkUndecidableExactly(u.components, v.components);
    }
  }

  /** Whatever was decided on the way, a at most b and b at most c, composes for a and c exactly
      when their epochs differ or nothing obstructs their components. */
  lemma DecidedComposesExactly(a: string, b: string, c: string)
    requires Compare(a, b).AtMost() && Compare(b, c).AtMost()
    ensures var u, w := Parse(a), Parse(c);
            && u.Version? && w.Version?
            && var composed := if Compare(a, b) == Equal && Compare(b, c) == Equal then Equal else Less;
               Compare(a, c) == composed <==> u.epoch != w.epoch || !Obstructed(u.components, w.components)
  {
    hide Parse, Obstructed, Walk;
    DecidedComparisonsCompose(a, b, c);
    UndecidableExactly(a, b);
    UndecidableExactly(b, c);
    UndecidableExactly(a, c);
  }

  // ---- where it does not carry over ----

  lemma ZeroIsZero()
    ensures Classify("0", false, false) == Number(0)
  {
    assert "0"[..0] == "";
    assert Value("") == 0;
  }

  lemma ZeroSuffix()
    ensures IsSuffix(".0") && Components(".0", 0) == [Number(0)]
  {
    hide Components, Classify;
    ComponentsOfOneRun('.', "0");
    assert ['.'] + "0" == ".0";
    ZeroIsZero();
  }

  lemma GaIsRelease()
    ensures Classify("ga", false, false) == Release
  {
    hide PRERELEASE_KEYWORDS;
    assert Lower("ga") == "ga";
    NoPreReleaseWordOfTwo("ga");
    assert OneOf("ga", RELEASE_KEYWORDS);
  }

  lemma ReleaseSuffix()
    ensures IsSuffix("-ga") && Components("-ga", 0) == [Release]
  {
    hide Components, Classify;
    ComponentsOfOneRun('-', "ga");
    assert ['-'] + "ga" == "-ga";
    GaIsRelease();
  }

  lemma ZeroAndReleaseWalks()
    ensures Walk([Number(0)], []) == Equal == Walk([Release], [])
    ensures Walk([Number(0)], [Release]) == Undecidable
  {
    assert Tail([Number(0)]) == [] == Tail([Release]);
  }

  lemma SuffixesAcross(s: string, x: string, y: string)
    requires NoPlus(s) && Parse(s).Version? && IsSuffix(x) && IsSuffix(y)
    ensures Compare(s + x, s) == Walk(Components(x, 0), []) && Compare(s, s + y) == Walk(Components(y, 0), []).Mirror()
    ensures Compare(s + x, s + y) == Walk(Components(x, 0), Components(y, 0))
  {
    hide Compare, Components, Parse, Walk;
    SuffixVerdict(s, x);
    SuffixVerdict(s, y);
    CompareMirror(s + y, s);
    SuffixesAgainstEachOther(s, x, y);
  }

  /** Any version with ".0" added and with "-ga" added is equal to the version itself, yet the
      two results are undecidable: being decided equal is not transitive. */
  lemma EqualIsNotTransitive(s: string)
    requires NoPlus(s) && Parse(s).Version?
    ensures Compare(s + ".0", s) == Equal && Compare(s, s + "-ga") == Equal
    ensures Compare(s + ".0", s + "-ga") == Undecidable
  {
    hide Compare, Components, Parse, Walk, IsSuffix;
    ZeroSuffix();
    ReleaseSuffix();
    ZeroAndReleaseWalks();
    SuffixesAcross(s, ".0", "-ga");
  }

  lemma HasComponents(s: string)
    requires s != [] && !IsDelim(s[0])
    ensures Components(s, 0) != []
  {
  }

  lemma OneIsAVersion()
    ensures NoPlus("1") && Parse("1").Version?
  {
    hide Components;
    assert StripV("1") == "1" && DigitsEnd("1", 0) == 1;
    assert !HasEpoch("1");
    assert BeforePlus("1") == "1";
    DelimsEndIsFirstNonDelim("1", 0);
    HasComponents("1");
  }

  lemma FiveIsFive()
    ensures Classify("5", false, false) == Number(5)
  {
    assert "5"[..0] == "";
    assert Value("") == 0;
  }

  lemma NumberSuffix()
    ensures IsSuffix(".5") && Components(".5", 0) == [Number(5)]
  {
    hide Components, Classify;
    ComponentsOfOneRun('.', "5");
    assert ['.'] + "5" == ".5";
    FiveIsFive();
  }

  lemma RcIsPreRelease()
    ensures Classify("rc", false, false) == PreRelease("rc")
  {
    assert Lower("rc") == "rc";
    OneOfIsMembership("rc", PRERELEASE_KEYWORDS);
    assert PRERELEASE_KEYWORDS[2] == "rc";
  }

  lemma CandidateSuffix()
    ensures IsSuffix("-rc") && Components("-rc", 0) == [PreRelease("rc")]
  {
    hide Components, Classify;
    ComponentsOfOneRun('-', "rc");
    assert ['-'] + "rc" == "-rc";
    RcIsPreRelease();
  }

  lemma CandidateAndNumberWalks(five: nat, rc: string)
    requires five > 0
    ensures Walk([PreRelease(rc)], []) == Less && Walk([Number(five)], []) == Greater
    ensures Walk([PreRelease(rc)], [Number(five)]) == Undecidable
  {
  }

  /** Being decided less is not transitive either: any version with "-rc" added is below it, and
      it is below itself with ".5" added, yet the two results are undecidable. */
  lemma LessIsNotTransitive(s: string)
    requires NoPlus(s) && Parse(s).Version?
    ensures Compare(s + "-rc", s) == Less && Compare(s, s + ".5") == Less
    ensures Compare(s + "-rc", s + ".5") == Undecidable
  {
    hide Compare, Components, Parse, Walk, IsSuffix;
    CandidateSuffix();
    NumberSuffix();
    CandidateAndNumberWalks(5, "rc");
    SuffixesAcross(s, "-rc", ".5");
  }

  /** The smallest instance: "1.0" = "1" and "1" = "1-ga", but "1.0" against "1-ga" is
      undecidable. */
  lemma OneIsEnough()
    ensures Compare("1.0", "1") == Equal && Compare("1", "1-ga") == Equal && Compare("1.0", "1-ga") == Undecidable
  {
    hide Compare;
    OneIsAVersion();
    EqualIsNotTransitive("1");
    assert "1" + ".0" == "1.0" && "1" + "-ga" == "1-ga";
  }
}
