/** The comparator as it runs: a byte tokenizer that advances a position, digit runs compared
    without conversion, a lockstep loop over both sides, and a residual walk once one side has
    run out. Each method is proved against the reading and the order in VersionOrder. */
module VersionCompare {
  import opened Ascii
  import opened VersionOrder

  method HasDisallowedByte(s: string) returns (found: bool)
    ensures found == HasDisallowed(s)
  {
    for i := 0 to |s|
      invariant forall j :: 0 <= j < i ==> !IsDisallowed(s[j])
    {
      if IsDisallowed(s[i]) {
        return true;
      }
    }
    return false;
  }

  datatype TokenKind = NoToken | NumToken | AlphaToken

  /** Skips delimiters from `pos`, then takes the maximal digit or alpha run that follows. */
  method NextToken(buf: string, pos: nat)
    returns (kind: TokenKind, start: nat, end: nat, delimSkipped: bool)
    requires pos <= |buf|
    ensures start == DelimsEnd(buf, pos) && delimSkipped == (start != pos)
    ensures kind == NoToken <==> start == |buf|
    ensures kind == NoToken ==> end == start
    ensures kind != NoToken ==> end == RunEnd(buf, start) && (kind == NumToken <==> IsDigit(buf[start]))
  {
    var p := pos;
    while p < |buf| && IsDelim(buf[p])
      invariant pos <= p <= |buf|
      invariant DelimsEnd(buf, p) == DelimsEnd(buf, pos)
    {
      p := p + 1;
    }
    delimSkipped := p != pos;
    start := p;
    if p >= |buf| {
      return NoToken, p, p, delimSkipped;
    }
    var numeric := IsDigit(buf[p]);
    if numeric {
      while p < |buf| && IsDigit(buf[p])
        invariant start <= p <= |buf|
        invariant DigitsEnd(buf, p) == DigitsEnd(buf, start)
      {
        p := p + 1;
      }
    } else {
      while p < |buf| && !IsDigit(buf[p]) && !IsDelim(buf[p])
        invariant start <= p <= |buf|
        invariant AlphasEnd(buf, p) == AlphasEnd(buf, start)
      {
        p := p + 1;
      }
    }
    kind := if numeric then NumToken else AlphaToken;
    end := p;
  }

  /** memcmp over equally long runs. */
  method CompareBytes(a: string, b: string) returns (c: int)
    requires |a| == |b|
    ensures c == Lex(a, b)
  {
    var i := 0;
    while i < |a|
      invariant i <= |a|
      invariant Lex(a[i..], b[i..]) == Lex(a, b)
    {
      if a[i] != b[i] {
        return if a[i] < b[i] then -1 else 1;
      }
      assert a[i..][1..] == a[i + 1..] && b[i..][1..] == b[i + 1..];
      i := i + 1;
    }
    return 0;
  }

  method SkipZeros(a: string) returns (start: nat)
    requires AllDigits(a)
    ensures start <= |a| && Value(a[start..]) == Value(a)
    ensures start < |a| ==> a[start] != '0'
    ensures start == |a| ==> Value(a) == 0
  {
    start := 0;
    assert a[0..] == a;
    while start < |a| && a[start] == '0'
      invariant start <= |a|
      invariant Value(a[start..]) == Value(a)
    {
      ValueDropsLeadingZero(a[start..]);
      assert a[start..][1..] == a[start + 1..];
      start := start + 1;
    }
  }

  /** Digit runs of any length, compared without converting them to machine integers: strip
      leading zeros, then the longer run wins, then bytes decide. */
  method CompareDigitRuns(a: string, b: string) returns (v: Verdict)
    requires AllDigits(a) && AllDigits(b)
    ensures v == OfSign(Value(a) - Value(b))
  {
    var sa := SkipZeros(a);
    var sb := SkipZeros(b);
    var ea, eb := a[sa..], b[sb..];
    if |ea| != |eb| {
      if |ea| < |eb| {
        LongerIsLarger(ea, eb);
        return Less;
      } else {
        LongerIsLarger(eb, ea);
        return Greater;
      }
    }
    if |ea| == 0 {
      return Equal;
    }
    LexIsNumericOrder(ea, eb);
    var c := CompareBytes(ea, eb);
    if c < 0 {
      return Less;
    }
    if c > 0 {
      return Greater;
    }
    return Equal;
  }

  method CompareAlphaIgnoringCase(a: string, b: string) returns (c: int)
    ensures c == Lex(Lower(a), Lower(b))
  {
    ghost var x, y := Lower(a), Lower(b);
    var n := if |a| < |b| then |a| else |b|;
    assert x[0..] == x && y[0..] == y;
    var i := 0;
    while i < n
      invariant i <= n
      invariant Lex(x[i..], y[i..]) == Lex(x, y)
    {
      var ca, cb := ToLower(a[i]), ToLower(b[i]);
      if ca != cb {
        return if ca < cb then -1 else 1;
      }
      assert x[i..][1..] == x[i + 1..] && y[i..][1..] == y[i + 1..];
      i := i + 1;
    }
    if |a| == |b| {
      return 0;
    }
    return if |a| < |b| then -1 else 1;
  }

  /** Whole-word, case-insensitive lookup in a table of lower-case words. */
  method IsKeyword(s: string, table: seq<string>) returns (found: bool)
    requires forall i :: 0 <= i < |table| ==> Lower(table[i]) == table[i]
    ensures found == OneOf(Lower(s), table)
  {
    OneOfIsMembership(Lower(s), table);
    for i := 0 to |table|
      invariant Lower(s) !in table[..i]
    {
      if |s| == |table[i]| {
        var c := CompareAlphaIgnoringCase(s, table[i]);
        LexMirror(Lower(s), table[i]);
        if c == 0 {
          return true;
        }
      }
    }
    return false;
  }

  lemma {:induction false} LowerOfLowerCase(w: string)
    requires forall i :: 0 <= i < |w| ==> !('A' <= w[i] <= 'Z')
    ensures Lower(w) == w
  {
  }

  lemma TablesAreLowerCase()
    ensures forall i :: 0 <= i < |PRERELEASE_KEYWORDS| ==> Lower(PRERELEASE_KEYWORDS[i]) == PRERELEASE_KEYWORDS[i]
    ensures forall i :: 0 <= i < |RELEASE_KEYWORDS| ==> Lower(RELEASE_KEYWORDS[i]) == RELEASE_KEYWORDS[i]
  {
    forall i | 0 <= i < |PRERELEASE_KEYWORDS| {
      LowerOfLowerCase(PRERELEASE_KEYWORDS[i]);
    }
    forall i | 0 <= i < |RELEASE_KEYWORDS| {
      LowerOfLowerCase(RELEASE_KEYWORDS[i]);
    }
  }

  /** 0 for a pre-release keyword, 1 for a word naming the release, 2 for anything else. */
  method KeywordRank(s: string) returns (rank: int)
    ensures rank == if IsPreReleaseKeyword(s) then 0 else if IsReleaseKeyword(s) then 1 else 2
  {
    TablesAreLowerCase();
    var pre := IsKeyword(s, PRERELEASE_KEYWORDS);
    if pre {
      return 0;
    }
    var release := IsKeyword(s, RELEASE_KEYWORDS);
    return if release then 1 else 2;
  }

  method IsAllZeroDigits(p: string) returns (zero: bool)
    requires AllDigits(p)
    ensures zero <==> Value(p) == 0
  {
    ValueOfZeros(p);
    for i := 0 to |p|
      invariant forall j :: 0 <= j < i ==> p[j] == '0'
    {
      if p[i] != '0' {
        return false;
      }
    }
    return true;
  }

  method IsAmbiguousAttachedLetter(run: string, buf: string, after: nat) returns (ambiguous: bool)
    ensures ambiguous == (IsAmbiguousLetter(Lower(run)) && DigitAt(buf, after))
  {
    if |run| != 1 {
      return false;
    }
    var c := ToLower(run[0]);
    if c != 'a' && c != 'b' && c != 'c' {
      assert Lower(run)[0] == c;
      return false;
    }
    assert Lower(run) == [c];
    return after < |buf| && IsDigit(buf[after]);
  }

  lemma ResidualStep(s: string, p: nat)
    requires p <= |s| && DelimsEnd(s, p) < |s|
    ensures var v := AgainstNothing(HeadAt(s, p));
            Walk(Components(s, p), []) == if v == Equal then Walk(Components(s, RunEnd(s, DelimsEnd(s, p))), []) else v
  {
    var rest := Components(s, RunEnd(s, DelimsEnd(s, p)));
    assert Components(s, p) == [HeadAt(s, p)] + rest;
    assert Tail(Components(s, p)) == rest;
  }

  lemma {:induction false} DigitsEndIsUniform(s: string, p: nat)
    requires p <= |s|
    ensures AllDigits(s[p..DigitsEnd(s, p)])
    decreases |s| - p
  {
    if p < |s| && IsDigit(s[p]) {
      DigitsEndIsUniform(s, p + 1);
      var e := DigitsEnd(s, p);
      assert s[p..e] == [s[p]] + s[p + 1..e];
    }
  }

  ghost predicate IsRun(x: string, kind: TokenKind) {
    x != [] && (if IsDigit(x[0]) then kind == NumToken && AllDigits(x) else kind == AlphaToken)
  }

  lemma RunIsUniform(s: string, q: nat)
    requires q < |s| && !IsDelim(s[q])
    ensures IsRun(s[q..RunEnd(s, q)], if IsDigit(s[q]) then NumToken else AlphaToken)
  {
    DigitsEndIsUniform(s, q);
  }

  /** What the components of `buf` from `pos` on say against a side that has run out. */
  method ResidualVerdict(buf: string, pos: nat) returns (v: Verdict)
    requires pos <= |buf|
    ensures v == Walk(Components(buf, pos), [])
  {
    var p := pos;
    while true
      invariant pos <= p <= |buf|
      invariant Walk(Components(buf, p), []) == Walk(Components(buf, pos), [])
      decreases |buf| - p
    {
      var kind, start, end, delimSkipped := NextToken(buf, p);
      if kind == NoToken {
        return Equal;
      }
      var run := buf[start..end];
      ResidualStep(buf, p);
      p := end;
      if kind == NumToken {
        RunIsUniform(buf, start);
        var zero := IsAllZeroDigits(run);
        if !zero {
          return Greater;
        }
        continue;
      }
      var rank := KeywordRank(run);
      if rank == 0 {
        return Less;
      }
      if rank == 1 {
        continue;
      }
      if !delimSkipped {
        var ambiguous := IsAmbiguousAttachedLetter(run, buf, p);
        return if ambiguous then Undecidable else Greater;
      }
      return Undecidable;
    }
  }

  lemma LockstepStep(s: string, p: nat, t: string, q: nat)
    requires p <= |s| && DelimsEnd(s, p) < |s|
    requires q <= |t| && DelimsEnd(t, q) < |t|
    ensures var v := CompareComponents(HeadAt(s, p), HeadAt(t, q));
            Walk(Components(s, p), Components(t, q)) ==
            if v == Equal then
              Walk(Components(s, RunEnd(s, DelimsEnd(s, p))), Components(t, RunEnd(t, DelimsEnd(t, q))))
            else v
  {
    var xs := Components(s, RunEnd(s, DelimsEnd(s, p)));
    var ys := Components(t, RunEnd(t, DelimsEnd(t, q)));
    assert Components(s, p) == [HeadAt(s, p)] + xs && Components(t, q) == [HeadAt(t, q)] + ys;
    assert Tail(Components(s, p)) == xs && Tail(Components(t, q)) == ys;
  }

  /** An optional digits-and-colon prefix; without one the epoch is "0". */
  method SplitEpoch(s: string) returns (epoch: string, rest: string)
    ensures epoch == EpochDigits(s) && rest == AfterEpoch(s)
    ensures AllDigits(epoch)
  {
    var p := 0;
    while p < |s| && IsDigit(s[p])
      invariant p <= |s|
      invariant DigitsEnd(s, p) == DigitsEnd(s, 0)
    {
      p := p + 1;
    }
    DigitsEndIsUniform(s, 0);
    if p > 0 && p < |s| && s[p] == ':' {
      return s[..p], s[p + 1..];
    }
    return "0", s;
  }

  /** Keeps the text before the first '+'. */
  method TruncateAtPlus(s: string) returns (t: string)
    ensures t == BeforePlus(s)
  {
    var i := 0;
    while i < |s| && s[i] != '+'
      invariant i <= |s|
      invariant forall j :: 0 <= j < i ==> s[j] != '+'
    {
      i := i + 1;
    }
    t := s[..i];
  }

  /** Two runs at the same position; whether they are attached plays no part here. */
  method CompareRuns(x: string, tx: TokenKind, y: string, ty: TokenKind) returns (v: Verdict)
    requires IsRun(x, tx) && IsRun(y, ty)
    ensures forall p, q, p', q' {:trigger Classify(x, p, q), Classify(y, p', q')} ::
              v == CompareComponents(Classify(x, p, q), Classify(y, p', q'))
  {
    hide Value, Lower, Lex, IsPreReleaseKeyword, IsReleaseKeyword, IsAmbiguousLetter, AllDigits;
    if tx != ty {
      return Undecidable;
    }
    if tx == NumToken {
      v := CompareDigitRuns(x, y);
      return v;
    }
    var rankX := KeywordRank(x);
    var rankY := KeywordRank(y);
    if rankX != rankY {
      if rankX == 2 || rankY == 2 {
        return Undecidable;
      }
      return if rankX > rankY then Greater else Less;
    }
    if rankX == 1 {
      return Equal;
    }
    var cmp := CompareAlphaIgnoringCase(x, y);
    return if cmp < 0 then Less else if cmp > 0 then Greater else Equal;
  }

  /** The lockstep loop over both token streams. */
  method CompareBodies(a: string, b: string) returns (v: Verdict)
    ensures v == Walk(Components(a, 0), Components(b, 0))
  {
    var posA, posB := 0, 0;
    while true
      invariant posA <= |a| && posB <= |b|
      invariant Walk(Components(a, posA), Components(b, posB)) == Walk(Components(a, 0), Components(b, 0))
      decreases |a| - posA
    {
      var ta, sa, ea, _ := NextToken(a, posA);
      var tb, sb, eb, _ := NextToken(b, posB);
      if ta == NoToken && tb == NoToken {
        return Equal;
      }
      if ta == NoToken {
        WalkMirror(Components(b, posB), []);
        v := ResidualVerdict(b, posB);
        return v.Mirror();
      }
      if tb == NoToken {
        v := ResidualVerdict(a, posA);
        return v;
      }
      LockstepStep(a, posA, b, posB);
      RunIsUniform(a, sa);
      RunIsUniform(b, sb);
      v := CompareRuns(a[sa..ea], ta, b[sb..eb], tb);
      if v != Equal {
        return v;
      }
      posA, posB := ea, eb;
    }
  }

  lemma FirstToken(s: string)
    ensures Components(s, 0) == [] <==> DelimsEnd(s, 0) == |s|
  {
    hide Classify, DelimsEnd, RunEnd, DigitAt;
  }

  /** The comparator's entry point. A "v" glued to a digit goes first, then the epoch, then
      build metadata; a side without any component is undecidable whatever its epoch says. */
  method CompareVersionStrings(a: string, b: string) returns (v: Verdict)
    ensures v == Compare(a, b)
  {
    hide Components, Walk;
    var badA := HasDisallowedByte(a);
    var badB := HasDisallowedByte(b);
    if badA || badB {
      return Undecidable;
    }
    var epochA, restA := SplitEpoch(StripV(a));
    var epochB, restB := SplitEpoch(StripV(b));
    restA := TruncateAtPlus(restA);
    restB := TruncateAtPlus(restB);
    FirstToken(restA);
    FirstToken(restB);
    var firstA, _, _, _ := NextToken(restA, 0);
    var firstB, _, _, _ := NextToken(restB, 0);
    if firstA == NoToken || firstB == NoToken {
      return Undecidable;
    }
    var epochs := CompareDigitRuns(epochA, epochB);
    if epochs != Equal {
      return epochs;
    }
    v := CompareBodies(restA, restB);
  }
}
