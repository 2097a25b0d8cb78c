/** Laws of the comparator in terms of the characters of the strings compared: epochs, case,
    delimiters, keywords and numbers, each stated of Compare alone. */
module VersionLaws {
  import opened Ascii
  import opened VersionOrder

  // ---- spellings that read alike ----

  /** Characters no reading tells apart: two cases of a letter, or two delimiters. */
  predicate Alike(c: char, d: char) {
    ToLower(c) == ToLower(d) || (IsDelim(c) && IsDelim(d))
  }

  ghost predicate ReadAlike(s: string, u: string) {
    |s| == |u| && forall i :: 0 <= i < |s| ==> Alike(s[i], u[i])
  }

  /** What reading asks of a single character. */
  lemma AlikeIsRead(c: char, d: char)
    requires Alike(c, d)
    ensures IsDelim(c) == IsDelim(d) && IsDigit(c) == IsDigit(d) && IsDisallowed(c) == IsDisallowed(d)
    ensures c == ':' <==> d == ':'
    ensures c == '+' <==> d == '+'
    ensures c == 'v' || c == 'V' <==> d == 'v' || d == 'V'
    ensures IsDigit(c) ==> c == d
    ensures !IsDelim(c) ==> ToLower(c) == ToLower(d)
  {
  }

  lemma {:induction false} RunsOfAlike(s: string, u: string, p: nat)
    requires ReadAlike(s, u) && p <= |s|
    ensures DigitsEnd(s, p) == DigitsEnd(u, p)
    ensures DelimsEnd(s, p) == DelimsEnd(u, p)
    ensures AlphasEnd(s, p) == AlphasEnd(u, p)
    decreases |s| - p
  {
    hide Alike, IsDelim, IsDigit;
    if p < |s| {
      AlikeIsRead(s[p], u[p]);
      RunsOfAlike(s, u, p + 1);
    }
  }

  lemma {:induction false} DigitsAreEqual(s: string, u: string)
    requires ReadAlike(s, u) && AllDigits(s)
    ensures s == u
  {
    hide Alike;
    forall i | 0 <= i < |s|
      ensures s[i] == u[i]
    {
      AlikeIsRead(s[i], u[i]);
    }
  }

  lemma {:induction false} DigitsOnly(s: string, q: nat)
    requires q <= |s|
    ensures forall i :: q <= i < DigitsEnd(s, q) ==> IsDigit(s[i])
    decreases |s| - q
  {
    if q < |s| && IsDigit(s[q]) {
      DigitsOnly(s, q + 1);
    }
  }

  lemma {:induction false} AlphasOnly(s: string, q: nat)
    requires q <= |s|
    ensures forall i :: q <= i < AlphasEnd(s, q) ==> IsAlpha(s[i])
    decreases |s| - q
  {
    if q < |s| && IsAlpha(s[q]) {
      AlphasOnly(s, q + 1);
    }
  }

  lemma {:induction false} RunHasNoDelim(s: string, q: nat)
    requires q < |s| && !IsDelim(s[q])
    ensures forall i :: q <= i < RunEnd(s, q) ==> !IsDelim(s[i])
    ensures IsDigit(s[q]) ==> forall i :: q <= i < RunEnd(s, q) ==> IsDigit(s[i])
  {
    if IsDigit(s[q]) {
      DigitsOnly(s, q);
    } else {
      AlphasOnly(s, q);
    }
  }

  lemma WordsAlike(x: string, y: string)
    requires ReadAlike(x, y) && forall i :: 0 <= i < |x| ==> !IsDelim(x[i])
    ensures Lower(x) == Lower(y)
  {
    forall i | 0 <= i < |x|
      ensures Lower(x)[i] == Lower(y)[i]
    {
      AlikeIsRead(x[i], y[i]);
    }
  }

  lemma ClassifyAlike(x: string, y: string, attached: bool, digitFollows: bool)
    requires ReadAlike(x, y) && x != []
    requires forall i :: 0 <= i < |x| ==> !IsDelim(x[i])
    requires IsDigit(x[0]) ==> AllDigits(x)
    ensures Classify(x, attached, digitFollows) == Classify(y, attached, digitFollows)
  {
    hide Value, OneOf, Lower;
    AlikeIsRead(x[0], y[0]);
    WordsAlike(x, y);
    if IsDigit(x[0]) {
      DigitsAreEqual(x, y);
    }
  }

  lemma RunIsOneKind(s: string, q: nat)
    requires q < |s| && !IsDelim(s[q])
    ensures var x := s[q..RunEnd(s, q)];
            && x != [] && x[0] == s[q] && (forall i :: 0 <= i < |x| ==> !IsDelim(x[i]))
            && (IsDigit(x[0]) ==> AllDigits(x))
  {
    hide IsDelim, IsDigit, RunEnd;
    RunHasNoDelim(s, q);
  }

  lemma SliceOfAlike(s: string, u: string, q: nat, e: nat)
    requires ReadAlike(s, u) && q <= e <= |s|
    ensures ReadAlike(s[q..e], u[q..e])
  {
    hide Alike;
  }

  lemma StepOfAlike(s: string, u: string, p: nat)
    requires ReadAlike(s, u) && p <= |s| && DelimsEnd(s, p) < |s|
    ensures DelimsEnd(u, p) == DelimsEnd(s, p) && NextAt(u, p) == NextAt(s, p) && HeadAt(u, p) == HeadAt(s, p)
  {
    hide Classify, Alike, IsDelim, IsDigit, AllDigits;
    var q := DelimsEnd(s, p);
    RunsOfAlike(s, u, p);
    RunsOfAlike(s, u, q);
    AlikeIsRead(s[q], u[q]);
    var e := RunEnd(s, q);
    RunIsOneKind(s, q);
    if e < |s| {
      AlikeIsRead(s[e], u[e]);
    }
    SliceOfAlike(s, u, q, e);
    ClassifyAlike(s[q..e], u[q..e], p == q, DigitAt(s, e));
  }

  lemma {:induction false} ComponentsOfAlike(s: string, u: string, p: nat)
    requires ReadAlike(s, u) && p <= |s|
    ensures Components(s, p) == Components(u, p)
    decreases |s| - p
  {
    hide HeadAt, NextAt, Alike;
    RunsOfAlike(s, u, p);
    if DelimsEnd(s, p) < |s| {
      StepOfAlike(s, u, p);
      ComponentsOfAlike(s, u, NextAt(s, p));
    }
  }

  lemma {:induction false} BeforePlusOfAlike(s: string, u: string)
    requires ReadAlike(s, u)
    ensures ReadAlike(BeforePlus(s), BeforePlus(u))
  {
    hide Alike;
    if s != [] {
      AlikeIsRead(s[0], u[0]);
      assert ReadAlike(s[1..], u[1..]);
      BeforePlusOfAlike(s[1..], u[1..]);
    }
  }

  lemma StripVOfAlike(s: string, u: string)
    requires ReadAlike(s, u)
    ensures ReadAlike(StripV(s), StripV(u))
  {
    hide Alike;
    if |s| >= 2 {
      AlikeIsRead(s[0], u[0]);
      AlikeIsRead(s[1], u[1]);
    }
  }

  lemma EpochOfAlike(s: string, u: string)
    requires ReadAlike(s, u)
    ensures EpochDigits(s) == EpochDigits(u) && ReadAlike(AfterEpoch(s), AfterEpoch(u))
  {
    hide Alike, IsDigit;
    RunsOfAlike(s, u, 0);
    var p := DigitsEnd(s, 0);
    if p < |s| {
      AlikeIsRead(s[p], u[p]);
    }
    DigitsOnly(s, 0);
    assert AllDigits(s[..p]);
    DigitsAreEqual(s[..p], u[..p]);
  }

  lemma DisallowedOfAlike(s: string, u: string)
    requires ReadAlike(s, u)
    ensures HasDisallowed(s) == HasDisallowed(u)
  {
    hide Alike, IsDisallowed;
    forall i | 0 <= i < |s| {
      AlikeIsRead(s[i], u[i]);
    }
    if i :| 0 <= i < |u| && IsDisallowed(u[i]) {
      assert IsDisallowed(s[i]);
    }
  }

  lemma ParseOfAlike(s: string, u: string)
    requires ReadAlike(s, u)
    ensures Parse(s) == Parse(u)
  {
    hide Alike, ReadAlike, Components, HasDisallowed, StripV, AfterEpoch, EpochDigits, BeforePlus, Value;
    StripVOfAlike(s, u);
    EpochOfAlike(StripV(s), StripV(u));
    BeforePlusOfAlike(AfterEpoch(StripV(s)), AfterEpoch(StripV(u)));
    ComponentsOfAlike(Body(s), Body(u), 0);
    DisallowedOfAlike(s, u);
  }

  /** Writing some capital letters small changes no answer, on either side. */
  lemma CaseIsIgnored(s: string, u: string, t: string)
    requires |s| == |u|
    requires forall i :: 0 <= i < |s| ==> u[i] == s[i] || ('A' <= s[i] <= 'Z' && u[i] as int == s[i] as int + 32)
    ensures Compare(u, t) == Compare(s, t) && Compare(t, u) == Compare(t, s)
  {
    hide Parse, CompareVersions;
    assert ReadAlike(s, u);
    ParseOfAlike(s, u);
  }

  /** Which of the three delimiters is used changes no answer, on either side. */
  lemma DelimitersAreAlike(s: string, u: string, t: string)
    requires |s| == |u|
    requires forall i :: 0 <= i < |s| ==>
               u[i] == s[i] || (s[i] in {'.', '-', '_'} && u[i] in {'.', '-', '_'})
    ensures Compare(u, t) == Compare(s, t) && Compare(t, u) == Compare(t, s)
  {
    hide Parse, CompareVersions;
    assert ReadAlike(s, u);
    ParseOfAlike(s, u);
  }

  // ---- what can be read at all ----

  /** A control byte, DEL or a byte that is not ASCII. */
  predicate IsBadByte(c: char) {
    c as int < 32 || c as int == 127 || c as int >= 128
  }

  /** Text without bad bytes that has something other than delimiters before any "+". */
  ghost predicate IsReadable(s: string) {
    && (forall i :: 0 <= i < |s| ==> !IsBadByte(s[i]))
    && exists i :: 0 <= i < |s| && s[i] !in {'.', '-', '_'} && forall j :: 0 <= j <= i ==> s[j] != '+'
  }

  /** An epoch of its own: digits and a colon at the start. */
  ghost predicate OwnsEpoch(s: string) {
    exists k :: 0 < k < |s| && s[k] == ':' && forall i :: 0 <= i < k ==> '0' <= s[i] <= '9'
  }

  /** A "v" of its own, before a digit. */
  ghost predicate OwnsV(s: string) {
    |s| >= 2 && s[0] in {'v', 'V'} && '0' <= s[1] <= '9'
  }

  lemma {:induction false} BeforePlusIsPrefix(s: string, i: nat)
    ensures i < |BeforePlus(s)| <==> i < |s| && forall j :: 0 <= j <= i ==> s[j] != '+'
  {
    var t := BeforePlus(s);
    assert forall j :: 0 <= j < |t| ==> t[j] == s[j];
  }

  lemma ComponentsExist(s: string)
    ensures !HasDisallowed(s) && Components(BeforePlus(s), 0) != [] <==> IsReadable(s)
  {
    var t := BeforePlus(s);
    DelimsEndIsFirstNonDelim(t, 0);
    assert forall j :: 0 <= j < |t| ==> t[j] == s[j];
    if i :| 0 <= i < |t| && !IsDelim(t[i]) {
      assert s[i] !in {'.', '-', '_'};
    }
    if i :| 0 <= i < |s| && s[i] !in {'.', '-', '_'} && forall j :: 0 <= j <= i ==> s[j] != '+' {
      BeforePlusIsPrefix(s, i);
      assert !IsDelim(t[i]);
    }
  }

  lemma {:induction false} DigitsEndAt(s: string, k: nat, p: nat)
    requires p <= k < |s| && !IsDigit(s[k]) && forall i :: p <= i < k ==> IsDigit(s[i])
    ensures DigitsEnd(s, p) == k
    decreases k - p
  {
    if p < k {
      DigitsEndAt(s, k, p + 1);
    }
  }

  lemma OwnEpochIsRead(s: string)
    ensures HasEpoch(s) <==> OwnsEpoch(s)
  {
    DigitsOnly(s, 0);
    if k :| 0 < k < |s| && s[k] == ':' && forall i :: 0 <= i < k ==> '0' <= s[i] <= '9' {
      DigitsEndAt(s, k, 0);
    }
  }

  lemma ZeroIsNothing()
    ensures Value("0") == 0
  {
    assert "0"[..0] == "";
  }

  /** What a text without "v" and epoch of its own is read as. */
  lemma ParseOfPlain(s: string)
    requires !OwnsEpoch(s) && !OwnsV(s)
    ensures Parse(s) == if IsReadable(s) then Version(0, Components(BeforePlus(s), 0)) else Garbage
  {
    hide Components, BeforePlus, HasDisallowed, IsReadable;
    OwnEpochIsRead(s);
    ComponentsExist(s);
    ZeroIsNothing();
  }

  lemma EpochBytesAreAllowed(m: string, s: string)
    requires AllDigits(m)
    ensures HasDisallowed(m + (":" + s)) <==> HasDisallowed(s)
  {
    DisallowedInConcat(m, ":" + s);
    DisallowedInConcat(":", s);
  }

  /** With digits and a colon in front, the digits are the epoch and the rest is read as ever. */
  lemma ParseOfEpoch(m: string, s: string)
    requires m != [] && AllDigits(m)
    ensures Parse(m + (":" + s)) == if IsReadable(s) then Version(Value(m), Components(BeforePlus(s), 0)) else Garbage
  {
    hide Components, BeforePlus, HasDisallowed, IsReadable, Value;
    var x := m + (":" + s);
    assert x[0] == m[0] && x[|m|] == ':';
    DigitsEndAt(x, |m|, 0);
    assert x[..|m|] == m && x[|m| + 1..] == s;
    ComponentsExist(s);
    EpochBytesAreAllowed(m, s);
  }

  /** A bad byte makes a string undecidable against everything. */
  lemma BadByteIsUndecidable(s: string, i: nat, t: string)
    requires i < |s| && IsBadByte(s[i])
    ensures Compare(s, t) == Undecidable && Compare(t, s) == Undecidable
  {
    hide Components, Body, EpochDigits;
    assert HasDisallowed(s);
  }

  /** Without a "v" and an epoch of its own, a string equals itself exactly when it has no bad
      byte and something other than delimiters before any "+". */
  lemma ReadableExactly(s: string)
    requires !OwnsEpoch(s) && !OwnsV(s)
    ensures Compare(s, s) == if IsReadable(s) then Equal else Undecidable
  {
    hide Parse, Components, IsReadable;
    ParseOfPlain(s);
    if IsReadable(s) {
      WalkReflexive(Components(BeforePlus(s), 0));
    }
  }

  // ---- epochs ----

  /** The larger epoch wins, whatever follows. */
  lemma EpochsDecide(m: string, s: string, n: string, t: string)
    requires m != [] && n != [] && AllDigits(m) && AllDigits(n) && Value(m) != Value(n)
    requires IsReadable(s) && IsReadable(t)
    ensures Compare(m + (":" + s), n + (":" + t)) == if Value(m) < Value(n) then Less else Greater
  {
    hide Parse, Components, IsReadable, BeforePlus, Value;
    ParseOfEpoch(m, s);
    ParseOfEpoch(n, t);
  }

  /** With equal epochs, however they are written, the answer is that of the texts behind them. */
  lemma EqualEpochsAreIgnored(m: string, s: string, n: string, t: string)
    requires m != [] && n != [] && AllDigits(m) && AllDigits(n) && Value(m) == Value(n)
    requires !OwnsEpoch(s) && !OwnsV(s) && !OwnsEpoch(t) && !OwnsV(t)
    ensures Compare(m + (":" + s), n + (":" + t)) == Compare(s, t)
  {
    hide Parse, Components, IsReadable, BeforePlus, Value, OwnsEpoch, OwnsV;
    ParseOfEpoch(m, s);
    ParseOfEpoch(n, t);
    ParseOfPlain(s);
    ParseOfPlain(t);
  }

  /** No epoch is epoch zero: against any text without one, a positive epoch wins, and a zero
      epoch changes nothing. */
  lemma MissingEpochIsZero(m: string, s: string, t: string)
    requires m != [] && AllDigits(m) && !OwnsEpoch(s) && !OwnsV(s) && !OwnsEpoch(t) && !OwnsV(t)
    ensures Compare(m + (":" + s), t) ==
            if Value(m) == 0 then Compare(s, t)
            else if IsReadable(s) && IsReadable(t) then Greater else Undecidable
  {
    hide Parse, Components, IsReadable, BeforePlus, Value, OwnsEpoch, OwnsV;
    ParseOfEpoch(m, s);
    ParseOfPlain(s);
    ParseOfPlain(t);
  }

  // ---- numbers and words at the same place ----

  lemma ReadableIsVersion(s: string)
    requires Compare(s, s) == Equal
    ensures Parse(s).Version?
  {
    hide Parse, Walk;
  }

  /** What one delimited run, and perhaps a further suffix, adds to a version. */
  lemma ComponentsOfRunAndRest(d: char, w: string, x: string)
    requires d in {'.', '-', '_'} && IsOneRun(w) && !HasDisallowed(w) && NoPlus(w) && (x == "" || IsSuffix(x))
    ensures IsSuffix([d] + w + x)
    ensures Components([d] + w + x, 0) == [Classify(w, false, false)] + Components(x, 0)
  {
    hide Classify, Components;
    DisallowedInConcat([d], w);
    DisallowedInConcat([d] + w, x);
    ComponentsOfOneRun(d, w);
    if x == "" {
      assert [d] + w + x == [d] + w;
      NoComponents();
    } else {
      ComponentsOfSuffix([d] + w, x);
    }
  }

  lemma DigitsAreAllowed(m: string)
    requires AllDigits(m)
    ensures !HasDisallowed(m) && NoPlus(m)
  {
  }

  lemma WalkOfNumbers(m: nat, n: nat, xs: seq<Component>, ys: seq<Component>)
    ensures Walk([Number(m)] + xs, [Number(n)] + ys) ==
            if m < n then Less else if m > n then Greater else Walk(xs, ys)
  {
    assert Tail([Number(m)] + xs) == xs && Tail([Number(n)] + ys) == ys;
  }

  /** The first number in which two versions differ decides, by value and not by length or
      spelling: 1.9 is before 1.10, and 1.2.9 before 1.3. */
  lemma NumbersDecide(s: string, d: char, m: string, x: string, e: char, n: string, y: string)
    requires NoPlus(s) && Compare(s, s) == Equal && d in {'.', '-', '_'} && e in {'.', '-', '_'}
    requires m != [] && n != [] && AllDigits(m) && AllDigits(n)
    requires (x == "" || IsSuffix(x)) && (y == "" || IsSuffix(y))
    ensures Value(m) < Value(n) ==> Compare(s + ([d] + m + x), s + ([e] + n + y)) == Less
    ensures Value(m) > Value(n) ==> Compare(s + ([d] + m + x), s + ([e] + n + y)) == Greater
  {
    hide Compare, Components, Parse, Walk, IsSuffix, Value;
    ReadableIsVersion(s);
    DigitsAreAllowed(m);
    DigitsAreAllowed(n);
    ComponentsOfRunAndRest(d, m, x);
    ComponentsOfRunAndRest(e, n, y);
    SuffixesAgainstEachOther(s, [d] + m + x, [e] + n + y);
    WalkOfNumbers(Value(m), Value(n), Components(x, 0), Components(y, 0));
  }

  /** A word of characters that are neither digits nor delimiters, all of them allowed. */
  ghost predicate IsPlainWord(w: string) {
    w != [] && forall i :: 0 <= i < |w| ==>
      !IsBadByte(w[i]) && w[i] !in {'.', '-', '_', '+'} && !('0' <= w[i] <= '9')
  }

  lemma PlainWordIsRun(w: string)
    requires IsPlainWord(w)
    ensures IsOneRun(w) && !HasDisallowed(w) && NoPlus(w) && !IsDigit(w[0])
  {
  }

  /** How two words compare at the same place: pre-release keywords among each other and unknown
      words among each other byte by byte in lower case, a pre-release keyword before a release
      keyword, release keywords alike, and nothing else. */
  function WordOrder(v: string, w: string): Verdict {
    if IsReleaseKeyword(v) && IsReleaseKeyword(w) then Equal
    else if IsPreReleaseKeyword(v) && IsReleaseKeyword(w) then Less
    else if IsReleaseKeyword(v) && IsPreReleaseKeyword(w) then Greater
    else if IsReleaseKeyword(v) || IsReleaseKeyword(w) then Undecidable
    else if IsPreReleaseKeyword(v) != IsPreReleaseKeyword(w) then Undecidable
    else if Lex(Lower(v), Lower(w)) < 0 then Less
    else if Lex(Lower(v), Lower(w)) > 0 then Greater
    else Equal
  }

  lemma TablesAreApart(w: string)
    requires w in RELEASE_KEYWORDS
    ensures w !in PRERELEASE_KEYWORDS
  {
    assert w[0] == 'g' || w[0] == 'f' || (w[0] == 'r' && |w| == 7) || (w[0] == 's' && |w| == 6);
    assert forall i :: 0 <= i < |PRERELEASE_KEYWORDS| ==>
      PRERELEASE_KEYWORDS[i][0] !in {'g', 'f'} &&
      (PRERELEASE_KEYWORDS[i][0] == 'r' ==> |PRERELEASE_KEYWORDS[i]| == 2) &&
      (PRERELEASE_KEYWORDS[i][0] == 's' ==> |PRERELEASE_KEYWORDS[i]| == 8);
  }

  lemma KeywordsAreApart(w: string)
    ensures !(IsPreReleaseKeyword(w) && IsReleaseKeyword(w))
  {
    hide OneOf, Lower;
    OneOfIsMembership(Lower(w), PRERELEASE_KEYWORDS);
    OneOfIsMembership(Lower(w), RELEASE_KEYWORDS);
    if Lower(w) in RELEASE_KEYWORDS {
      TablesAreApart(Lower(w));
    }
  }

  lemma WalkOfWords(v: string, w: string)
    requires IsPlainWord(v) && IsPlainWord(w)
    ensures Walk([Classify(v, false, false)], [Classify(w, false, false)]) == WordOrder(v, w)
  {
    hide IsPreReleaseKeyword, IsReleaseKeyword, Lex, Lower, Value;
    KeywordsAreApart(v);
    KeywordsAreApart(w);
    var c, d := Classify(v, false, false), Classify(w, false, false);
    assert Tail([c]) == [] == Tail([d]);
    assert Walk([c], [d]) == if CompareComponents(c, d) != Equal then CompareComponents(c, d) else Walk([], []);
  }

  lemma WordsDecide(s: string, d: char, v: string, e: char, w: string)
    requires NoPlus(s) && Compare(s, s) == Equal && d in {'.', '-', '_'} && e in {'.', '-', '_'}
    requires IsPlainWord(v) && IsPlainWord(w)
    ensures Compare(s + ([d] + v), s + ([e] + w)) == WordOrder(v, w)
  {
    hide Compare, Components, Parse, Walk, IsSuffix, WordOrder, Classify, IsPlainWord;
    ReadableIsVersion(s);
    PlainWordIsRun(v);
    PlainWordIsRun(w);
    ComponentsOfRunAndRest(d, v, "");
    ComponentsOfRunAndRest(e, w, "");
    NoComponents();
    assert [d] + v + "" == [d] + v && [e] + w + "" == [e] + w;
    var cs, ds := [Classify(v, false, false)], [Classify(w, false, false)];
    assert cs + [] == cs && ds + [] == ds;
    SuffixesAgainstEachOther(s, [d] + v, [e] + w);
    WalkOfWords(v, w);
  }

  lemma NumberWordWalk(n: nat, c: Component)
    requires !c.Number?
    ensures Walk([Number(n)], [c]) == Undecidable
  {
  }

  /** A number and a word at the same place do not compare. */
  lemma NumberAgainstWord(s: string, d: char, m: string, e: char, w: string)
    requires NoPlus(s) && Compare(s, s) == Equal && d in {'.', '-', '_'} && e in {'.', '-', '_'}
    requires m != [] && AllDigits(m) && IsPlainWord(w)
    ensures Compare(s + ([d] + m), s + ([e] + w)) == Undecidable
  {
    hide Compare, Components, Parse, Walk, IsSuffix, IsPlainWord, Value, IsPreReleaseKeyword, IsReleaseKeyword;
    ReadableIsVersion(s);
    DigitsAreAllowed(m);
    PlainWordIsRun(w);
    ComponentsOfRunAndRest(d, m, "");
    ComponentsOfRunAndRest(e, w, "");
    NoComponents();
    assert [d] + m + "" == [d] + m && [e] + w + "" == [e] + w;
    var cs, ds := [Classify(m, false, false)], [Classify(w, false, false)];
    assert cs + [] == cs && ds + [] == ds;
    SuffixesAgainstEachOther(s, [d] + m, [e] + w);
    NumberWordWalk(Value(m), Classify(w, false, false));
  }

  // ---- the keywords ----

  predicate NamesPreRelease(w: string) {
    w in {"alpha", "alfa", "beta", "rc", "pre", "preview", "dev", "devel", "snapshot", "nightly", "test", "unstable",
          "milestone"}
  }

  predicate NamesRelease(w: string) {
    w in {"ga", "final", "release", "stable"}
  }

  lemma SmallLetters(w: string)
    requires forall i :: 0 <= i < |w| ==> 'a' <= w[i] <= 'z'
    ensures Lower(w) == w && (w != [] ==> IsPlainWord(w))
  {
  }

  lemma PreReleaseWords(w: string)
    requires NamesPreRelease(w)
    ensures IsPreReleaseKeyword(w) && IsPlainWord(w)
  {
    SmallLetters(w);
    OneOfIsMembership(w, PRERELEASE_KEYWORDS);
  }

  lemma ReleaseWords(w: string)
    requires NamesRelease(w)
    ensures IsReleaseKeyword(w) && IsPlainWord(w)
  {
    SmallLetters(w);
    OneOfIsMembership(w, RELEASE_KEYWORDS);
  }

  /** Each pre-release word, behind any delimiter, puts a version before itself. */
  lemma PreReleasesComeBefore(s: string, d: char, w: string)
    requires NoPlus(s) && Compare(s, s) == Equal && d in {'.', '-', '_'}
    requires NamesPreRelease(w)
    ensures Compare(s + ([d] + w), s) == Less
  {
    hide Compare, Parse, IsPlainWord, IsPreReleaseKeyword;
    ReadableIsVersion(s);
    PreReleaseWords(w);
    PlainWordIsRun(w);
    WordSuffixVerdict(s, d, w);
  }

  /** Each word for the release itself, behind any delimiter, changes nothing. */
  lemma ReleaseWordsAreNeutral(s: string, d: char, w: string)
    requires NoPlus(s) && Compare(s, s) == Equal && d in {'.', '-', '_'}
    requires NamesRelease(w)
    ensures Compare(s + ([d] + w), s) == Equal
  {
    hide Compare, Parse, IsPlainWord, IsPreReleaseKeyword, IsReleaseKeyword;
    ReadableIsVersion(s);
    ReleaseWords(w);
    KeywordsAreApart(w);
    PlainWordIsRun(w);
    WordSuffixVerdict(s, d, w);
  }

  lemma SmallLettersAttach(w: string)
    requires w != [] && forall i :: 0 <= i < |w| ==> 'a' <= w[i] <= 'z'
    ensures IsWord(w)
  {
  }

  lemma KeywordsOfSmallLetters(w: string)
    requires forall i :: 0 <= i < |w| ==> 'a' <= w[i] <= 'z'
    ensures IsPreReleaseKeyword(w) ==> NamesPreRelease(w)
    ensures IsReleaseKeyword(w) ==> NamesRelease(w)
  {
    SmallLetters(w);
    OneOfIsMembership(w, PRERELEASE_KEYWORDS);
    OneOfIsMembership(w, RELEASE_KEYWORDS);
  }

  /** The same for words attached to a final digit; any other word of small letters, like the
      patch letter of "1.0.2k", puts the version after itself. */
  lemma AttachedWordsByTable(s: string, w: string)
    requires NoPlus(s) && Compare(s, s) == Equal && s != [] && '0' <= s[|s| - 1] <= '9'
    requires w != [] && forall i :: 0 <= i < |w| ==> 'a' <= w[i] <= 'z'
    ensures Compare(s + w, s) ==
            if NamesPreRelease(w) then Less
            else if NamesRelease(w) then Equal
            else Greater
  {
    hide Compare, Parse, IsPreReleaseKeyword, IsReleaseKeyword, NamesPreRelease, NamesRelease, IsWord;
    ReadableIsVersion(s);
    SmallLettersAttach(w);
    AttachedWordVerdict(s, w);
    KeywordsOfSmallLetters(w);
    KeywordsAreApart(w);
    if NamesPreRelease(w) {
      PreReleaseWords(w);
    } else if NamesRelease(w) {
      ReleaseWords(w);
    }
  }

  lemma LettersDecide()
    ensures Lex("alpha", "beta") < 0 && Lex("beta", "rc") < 0
  {
  }

  /** The life of a release: alpha before beta before rc before the release itself. */
  lemma ReleaseCycle(s: string)
    requires NoPlus(s) && Compare(s, s) == Equal
    ensures Compare(s + ("-" + "alpha"), s + ("-" + "beta")) == Less
    ensures Compare(s + ("-" + "beta"), s + ("-" + "rc")) == Less
    ensures Compare(s + ("-" + "rc"), s) == Less
  {
    hide Compare, IsPreReleaseKeyword, IsReleaseKeyword, IsPlainWord, Lex, Lower;
    PreReleaseWords("alpha");
    PreReleaseWords("beta");
    PreReleaseWords("rc");
    KeywordsAreApart("alpha");
    KeywordsAreApart("beta");
    KeywordsAreApart("rc");
    SmallLetters("alpha");
    SmallLetters("beta");
    SmallLetters("rc");
    LettersDecide();
    WordsDecide(s, '-', "alpha", '-', "beta");
    WordsDecide(s, '-', "beta", '-', "rc");
    PreReleasesComeBefore(s, '-', "rc");
  }
}
