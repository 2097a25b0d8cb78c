/** Validation of knowledge-base keys and values. A byte is a character below 256. */
module KbValidate {
  import opened Splitting

  const KEY_MAX_LEN := 255

  // ---- keys ----

  predicate IsKeyChar(c: char) {
    ('A' <= c <= 'Z') || ('a' <= c <= 'z') || ('0' <= c <= '9') || c == '_' || c == '.' || c == '-'
  }

  ghost predicate IsSegment(s: string) {
    s != [] && forall i :: 0 <= i < |s| ==> IsKeyChar(s[i])
  }

  /** A key is one or more non-empty segments, separated by slashes, of at most 255 bytes. */
  ghost predicate IsKey(key: string) {
    |key| <= KEY_MAX_LEN && forall i :: 0 <= i < |Split(key, '/')| ==> IsSegment(Split(key, '/')[i])
  }

  lemma {:induction false} CharIsInSegment(s: string, i: nat)
    requires i < |s| && s[i] != '/'
    ensures exists f, j :: 0 <= f < |Split(s, '/')| && 0 <= j < |Split(s, '/')[f]| && Split(s, '/')[f][j] == s[i]
  {
    var fs, rest := Split(s, '/'), Split(s[1..], '/');
    if i == 0 {
      assert fs[0][0] == s[0];
    } else {
      CharIsInSegment(s[1..], i - 1);
      var f, j :| 0 <= f < |rest| && 0 <= j < |rest[f]| && rest[f][j] == s[1..][i - 1];
      if s[0] == '/' {
        assert fs[f + 1] == rest[f];
      } else if f == 0 {
        assert fs[0] == [s[0]] + rest[0];
        assert fs[0][j + 1] == s[i];
      } else {
        assert fs[f] == rest[f];
      }
    }
  }

  lemma BadCharSpoilsKey(key: string, i: nat)
    requires i < |key| && key[i] != '/' && !IsKeyChar(key[i])
    ensures !IsKey(key)
  {
    CharIsInSegment(key, i);
  }

  lemma {:induction false} LastSegmentIsEmpty(s: string)
    requires s != [] && s[|s| - 1] == '/'
    ensures Split(s, '/')[|Split(s, '/')| - 1] == [] && |Split(s, '/')| > 1
  {
    if |s| > 1 {
      LastSegmentIsEmpty(s[1..]);
    } else {
      assert Split(s[1..], '/') == [[]];
    }
  }

  lemma EmptySegmentSpoilsKey(key: string, f: nat)
    requires f < |Split(key, '/')| && Split(key, '/')[f] == []
    ensures !IsKey(key)
  {
    hide Split;
    assert !IsSegment(Split(key, '/')[f]);
  }

  lemma LongTextIsNoKey(key: string)
    requires |key| > KEY_MAX_LEN
    ensures !IsKey(key)
  {
  }

  lemma SegmentsMakeKey(key: string, segments: seq<string>)
    requires Split(key, '/') == segments && |key| <= KEY_MAX_LEN
    requires forall j :: 0 <= j < |segments| ==> IsSegment(segments[j])
    ensures IsKey(key)
  {
    hide Split, IsSegment;
  }

  lemma KeyCharsFormSegment(key: string, start: nat, end: nat)
    requires start < end <= |key| && forall j :: start <= j < end ==> IsKeyChar(key[j])
    ensures IsSegment(key[start..end])
  {
  }

  lemma KeyCharsLackSlash(key: string, start: nat, end: nat)
    requires start <= end <= |key| && forall j :: start <= j < end ==> IsKeyChar(key[j])
    ensures Lacks(key[start..end], '/')
  {
  }

  lemma EmptyKeyIsNoKey()
    ensures !IsKey("")
  {
    SplitOfField("", '/');
    assert !IsSegment(Split("", '/')[0]);
  }

  lemma SlashFirst(key: string)
    requires key != [] && key[0] == '/'
    ensures !IsKey(key)
  {
    hide Split;
    assert key[0..] == key;
    NextField(key, '/', [], 0, 0);
    EmptySegmentSpoilsKey(key, 0);
  }

  lemma SlashLast(key: string)
    requires key != [] && key[|key| - 1] == '/'
    ensures !IsKey(key)
  {
    hide Split;
    LastSegmentIsEmpty(key);
    EmptySegmentSpoilsKey(key, |Split(key, '/')| - 1);
  }

  /** The segments of `before` are complete, and key characters follow up to position i. */
  ghost predicate KeyProgress(key: string, before: seq<string>, start: nat, i: nat) {
    && start <= i <= |key|
    && (forall j :: 0 <= j < |before| ==> IsSegment(before[j]))
    && (forall j :: start <= j < i ==> IsKeyChar(key[j]))
    && Split(key, '/') == before + Split(key[start..], '/')
  }

  lemma KeyStarts(key: string)
    ensures KeyProgress(key, [], 0, 0)
  {
    hide Split;
    assert key[0..] == key;
  }

  /** A slash completes a segment, unless the segment is empty. */
  lemma KeyTakesSlash(key: string, before: seq<string>, start: nat, i: nat)
    requires KeyProgress(key, before, start, i) && i < |key| && key[i] == '/'
    ensures start == i ==> !IsKey(key)
    ensures start < i ==> KeyProgress(key, before + [key[start..i]], i + 1, i + 1)
  {
    hide Split, IsKey, IsSegment, IsKeyChar, Lacks;
    KeyCharsLackSlash(key, start, i);
    NextField(key, '/', before, start, i);
    if start == i {
      assert Split(key, '/')[|before|] == [];
      EmptySegmentSpoilsKey(key, |before|);
    } else {
      KeyCharsFormSegment(key, start, i);
    }
  }

  lemma KeyTakesChar(key: string, before: seq<string>, start: nat, i: nat)
    requires KeyProgress(key, before, start, i) && i < |key| && IsKeyChar(key[i])
    ensures KeyProgress(key, before, start, i + 1)
  {
    hide Split, IsSegment, IsKeyChar;
  }

  lemma KeyEnds(key: string, before: seq<string>, start: nat)
    requires KeyProgress(key, before, start, |key|) && |key| <= KEY_MAX_LEN
    ensures start < |key| ==> IsKey(key)
    ensures start == |key| ==> !IsKey(key)
  {
    hide Split, IsKey, IsSegment, IsKeyChar, Lacks;
    KeyCharsLackSlash(key, start, |key|);
    NextField(key, '/', before, start, |key|);
    if start < |key| {
      KeyCharsFormSegment(key, start, |key|);
      assert key[start..|key|] == key[start..];
      SegmentsMakeKey(key, before + [key[start..]]);
    } else {
      assert Split(key, '/')[|before|] == [];
      EmptySegmentSpoilsKey(key, |before|);
    }
  }

  method ValidateKey(key: string) returns (ok: bool)
    ensures ok <==> IsKey(key)
  {
    hide IsKey, KeyProgress, IsKeyChar;
    var len := 0;
    while len <= KEY_MAX_LEN && len < |key|
      invariant len <= |key| && len <= KEY_MAX_LEN + 1
    {
      len := len + 1;
    }
    if len == 0 || len > KEY_MAX_LEN {
      if len == 0 {
        EmptyKeyIsNoKey();
      } else {
        LongTextIsNoKey(key);
      }
      return false;
    }
    if key[0] == '/' {
      SlashFirst(key);
      return false;
    }
    if key[len - 1] == '/' {
      SlashLast(key);
      return false;
    }
    ghost var before: seq<string> := [];
    var segLen := 0;
    KeyStarts(key);
    for i := 0 to len
      invariant 0 <= segLen <= i && KeyProgress(key, before, i - segLen, i)
    {
      var c := key[i];
      if c == '/' {
        KeyTakesSlash(key, before, i - segLen, i);
        if segLen == 0 {
          return false;
        }
        before := before + [key[i - segLen..i]];
        segLen := 0;
        continue;
      }
      if !IsKeyChar(c) {
        BadCharSpoilsKey(key, i);
        return false;
      }
      KeyTakesChar(key, before, i - segLen, i);
      segLen := segLen + 1;
    }
    KeyEnds(key, before, len - segLen);
    return segLen > 0;
  }

  predicate IsPathChar(c: char) {
    'A' <= c <= 'Z' || 'a' <= c <= 'z' || '0' <= c <= '9' || c in {'_', '.', '-', '/'}
  }

  ghost predicate ArePathChars(s: string) {
    forall i :: 0 <= i < |s| ==> IsPathChar(s[i])
  }

  ghost predicate NoDoubleSlash(s: string) {
    forall i :: 0 <= i < |s| - 1 ==> !(s[i] == '/' && s[i + 1] == '/')
  }

  /** Letters, digits, "_", ".", "-" and single slashes, none of them first or last. */
  ghost predicate IsCleanPath(s: string) {
    s != "" && s[0] != '/' && s[|s| - 1] != '/' && ArePathChars(s) && NoDoubleSlash(s)
  }

  ghost predicate AreSegments(fs: seq<string>) {
    forall i :: 0 <= i < |fs| ==> IsSegment(fs[i])
  }

  lemma SegmentsOfCons(f: string, fs: seq<string>)
    ensures AreSegments([f] + fs) <==> IsSegment(f) && AreSegments(fs)
  {
    hide IsSegment;
    var all := [f] + fs;
    assert all[0] == f;
    if AreSegments(all) {
      forall i | 0 <= i < |fs|
        ensures IsSegment(fs[i])
      {
        assert all[i + 1] == fs[i];
      }
    }
  }

  lemma SegmentOfCons(c: char, f: string)
    requires f != ""
    ensures IsSegment([c] + f) <==> IsKeyChar(c) && IsSegment(f)
  {
    var g := [c] + f;
    assert g[0] == c && forall i :: 0 <= i < |f| ==> g[i + 1] == f[i];
  }

  lemma PathCharsOfCons(s: string)
    requires s != ""
    ensures ArePathChars(s) <==> IsPathChar(s[0]) && ArePathChars(s[1..])
  {
    hide IsPathChar;
    if ArePathChars(s[1..]) && IsPathChar(s[0]) {
      forall i | 0 <= i < |s|
        ensures IsPathChar(s[i])
      {
        assert i > 0 ==> s[1..][i - 1] == s[i];
      }
    }
  }

  lemma NoDoubleSlashOfCons(s: string)
    requires |s| > 1
    ensures NoDoubleSlash(s) <==> !(s[0] == '/' && s[1] == '/') && NoDoubleSlash(s[1..])
  {
    var rest := s[1..];
    if NoDoubleSlash(rest) && !(s[0] == '/' && s[1] == '/') {
      forall i | 0 <= i < |s| - 1
        ensures !(s[i] == '/' && s[i + 1] == '/')
      {
        if i > 0 {
          assert rest[i - 1] == s[i] && rest[i - 1 + 1] == s[i + 1];
        }
      }
    }
  }

  lemma OneCharPath(c: char)
    ensures IsCleanPath([c]) <==> IsKeyChar(c)
  {
    assert [c][0] == c;
  }

  lemma PathOfCons(s: string)
    requires |s| > 1 && s[0] != '/'
    ensures s[1] != '/' ==> (IsCleanPath(s) <==> IsKeyChar(s[0]) && IsCleanPath(s[1..]))
    ensures s[1] == '/' ==> (IsCleanPath(s) <==> IsKeyChar(s[0]) && IsCleanPath(s[2..]))
  {
    hide ArePathChars, NoDoubleSlash;
    var rest := s[1..];
    PathCharsOfCons(s);
    NoDoubleSlashOfCons(s);
    PathCharsOfCons(rest);
    assert rest[1..] == s[2..];
    if |s| > 2 {
      NoDoubleSlashOfCons(rest);
    }
  }

  lemma LeadingSlashIsUnclean(s: string)
    requires s != "" && s[0] == '/'
    ensures !IsCleanPath(s)
  {
  }

  lemma NothingIsNoSegment()
    ensures !IsSegment("") && !IsCleanPath("")
  {
  }

  lemma OneCharSegment(c: char)
    ensures IsSegment([c]) <==> IsKeyChar(c)
  {
    assert [c][0] == c;
  }

  lemma {:induction false} SegmentsExactly(s: string)
    ensures AreSegments(Split(s, '/')) <==> IsCleanPath(s)
  {
    hide IsSegment, IsCleanPath, IsKeyChar;
    if s == "" {
      NothingIsNoSegment();
      assert !IsSegment(Split(s, '/')[0]);
    } else {
      var rest := Split(s[1..], '/');
      if s[0] == '/' {
        SegmentsOfCons([], rest);
        NothingIsNoSegment();
        LeadingSlashIsUnclean(s);
      } else if |s| == 1 {
        assert s[1..] == [] && rest == [[]] && [s[0]] + rest[0] == s;
        assert Split(s, '/') == [s] + [] && s == [s[0]] && AreSegments([]);
        SegmentsOfCons(s, []);
        OneCharSegment(s[0]);
        OneCharPath(s[0]);
      } else if s[1] == '/' {
        var more := Split(s[1..][1..], '/');
        assert s[1..][1..] == s[2..] && rest == [[]] + more;
        assert [s[0]] + rest[0] == [s[0]] && rest[1..] == more;
        assert Split(s, '/') == [[s[0]]] + more;
        SegmentsOfCons([s[0]], more);
        OneCharSegment(s[0]);
        SegmentsExactly(s[2..]);
        PathOfCons(s);
      } else {
        assert rest[0] != "";
        SegmentsOfCons([s[0]] + rest[0], rest[1..]);
        SegmentOfCons(s[0], rest[0]);
        SegmentsOfCons(rest[0], rest[1..]);
        assert rest == [rest[0]] + rest[1..];
        SegmentsExactly(s[1..]);
        PathOfCons(s);
      }
    }
  }

  /** A key in terms of its characters: at most 255 of them, forming a clean path. */
  lemma KeyExactly(key: string)
    ensures IsKey(key) <==> |key| <= 255 && IsCleanPath(key)
  {
    hide Split, IsSegment, IsCleanPath;
    SegmentsExactly(key);
  }

  // ---- values: UTF-8 ----

  ghost predicate NoNul(s: string) {
    forall i :: 0 <= i < |s| ==> s[i] as int != 0
  }

  method ValidateNoEmbeddedNul(s: string) returns (ok: bool)
    ensures ok <==> NoNul(s)
  {
    for i := 0 to |s|
      invariant forall j :: 0 <= j < i ==> s[j] as int != 0
    {
      if s[i] as int == 0 {
        return false;
      }
    }
    return true;
  }

  /** A Unicode scalar value: a code point that is not a surrogate. */
  predicate IsScalar(c: int) {
    0 <= c < 0xD800 || 0xE000 <= c <= 0x10FFFF
  }

  function Cont(n: int): char {
    (0x80 + n % 64) as char
  }

  /** The UTF-8 encoding of one scalar value (section 3 of RFC 3629). */
  function Encode(c: int): (bytes: string)
    requires IsScalar(c)
    ensures 1 <= |bytes| <= 4
  {
    if c < 0x80 then [c as char]
    else if c < 0x800 then [(0xC0 + c / 64) as char, Cont(c)]
    else if c < 0x10000 then [(0xE0 + c / 64 / 64) as char, Cont(c / 64), Cont(c)]
    else [(0xF0 + c / 64 / 64 / 64) as char, Cont(c / 64 / 64), Cont(c / 64), Cont(c)]
  }

  ghost predicate AreScalars(cs: seq<int>) {
    forall i :: 0 <= i < |cs| ==> IsScalar(cs[i])
  }

  ghost function EncodeAll(cs: seq<int>): string
    requires AreScalars(cs)
  {
    if cs == [] then [] else Encode(cs[0]) + EncodeAll(cs[1..])
  }

  /** `s` is the encoding of some sequence of scalar values. */
  ghost predicate IsUtf8(s: string) {
    exists cs :: AreScalars(cs) && EncodeAll(cs) == s
  }

  /** What a lead byte demands: how many continuation bytes, and the range of the first. */
  datatype Lead = BadLead | Lead(extra: nat, lo: int, hi: int)

  function LeadOf(b: int): Lead {
    if 0xC2 <= b <= 0xDF then Lead(1, 0x80, 0xBF)
    else if b == 0xE0 then Lead(2, 0xA0, 0xBF)
    else if 0xE1 <= b <= 0xEC then Lead(2, 0x80, 0xBF)
    else if b == 0xED then Lead(2, 0x80, 0x9F)
    else if 0xEE <= b <= 0xEF then Lead(2, 0x80, 0xBF)
    else if b == 0xF0 then Lead(3, 0x90, 0xBF)
    else if 0xF1 <= b <= 0xF3 then Lead(3, 0x80, 0xBF)
    else if b == 0xF4 then Lead(3, 0x80, 0x8F)
    else BadLead
  }

  predicate IsCont(c: char) {
    0x80 <= c as int <= 0xBF
  }

  /** `s` starts with a well-formed sequence of `n` bytes. */
  predicate StartsWell(s: string, n: nat) {
    s != [] &&
    var b := s[0] as int;
    if b < 0x80 then n == 1
    else
      var lead := LeadOf(b);
      lead.Lead? && n == lead.extra + 1 && n <= |s| && lead.lo <= s[1] as int <= lead.hi &&
      forall k :: 2 <= k < n ==> IsCont(s[k])
  }

  /** The payload of a continuation byte appended to the bits before it. */
  function Append(high: int, c: char): int {
    high * 64 + (c as int - 0x80)
  }

  /** The scalar value a well-formed start encodes. */
  function Decode(s: string, n: nat): int
    requires StartsWell(s, n)
  {
    var b := s[0] as int;
    if n == 1 then b
    else if n == 2 then Append(b - 0xC0, s[1])
    else if n == 3 then Append(Append(b - 0xE0, s[1]), s[2])
    else Append(Append(Append(b - 0xF0, s[1]), s[2]), s[3])
  }

  lemma AppendSplits(high: int, c: char)
    requires IsCont(c)
    ensures Append(high, c) / 64 == high && Cont(Append(high, c)) == c
  {
  }

  lemma DecodeThenEncode(s: string, n: nat)
    requires StartsWell(s, n)
    ensures IsScalar(Decode(s, n)) && n <= |s| && Encode(Decode(s, n)) == s[..n]
  {
    hide Cont;
    var b := s[0] as int;
    if n == 2 {
      AppendSplits(b - 0xC0, s[1]);
    } else if n == 3 {
      AppendSplits(b - 0xE0, s[1]);
      AppendSplits(Append(b - 0xE0, s[1]), s[2]);
    } else if n == 4 {
      AppendSplits(b - 0xF0, s[1]);
      AppendSplits(Append(b - 0xF0, s[1]), s[2]);
      AppendSplits(Append(Append(b - 0xF0, s[1]), s[2]), s[3]);
    }
  }

  /** Every encoding is a well-formed start, and of one length only. */
  lemma EncodingStartsWell(c: int, rest: string, n: nat)
    requires IsScalar(c)
    ensures StartsWell(Encode(c) + rest, n) <==> n == |Encode(c)|
  {
  }

  lemma ContDecides(c: int, d: int)
    ensures Cont(c) == Cont(d) && c / 64 == d / 64 ==> c == d
  {
  }

  lemma EncodeIsInjective(c: int, d: int)
    requires IsScalar(c) && IsScalar(d) && Encode(c) == Encode(d)
    ensures c == d
  {
    hide Cont;
    ContDecides(c, d);
    if |Encode(c)| > 2 {
      ContDecides(c / 64, d / 64);
    }
    if |Encode(c)| > 3 {
      ContDecides(c / 64 / 64, d / 64 / 64);
    }
  }

  /** No encoding is a prefix of another: a well-formed start decides the first scalar. */
  lemma EncodingIsPrefixFree(c: int, d: int, x: string, y: string)
    requires IsScalar(c) && IsScalar(d) && Encode(c) + x == Encode(d) + y
    ensures c == d && x == y
  {
    var s := Encode(c) + x;
    EncodingStartsWell(c, x, |Encode(c)|);
    EncodingStartsWell(d, y, |Encode(c)|);
    assert s[..|Encode(c)|] == Encode(c) && s[..|Encode(d)|] == Encode(d);
    EncodeIsInjective(c, d);
    assert s[|Encode(c)|..] == x && s[|Encode(d)|..] == y;
  }

  /** Dropping a well-formed start changes nothing about the rest. */
  lemma Utf8AfterStart(s: string, n: nat)
    requires StartsWell(s, n)
    ensures n <= |s| && (IsUtf8(s) <==> IsUtf8(s[n..]))
  {
    hide Encode, StartsWell, IsScalar;
    DecodeThenEncode(s, n);
    var c := Decode(s, n);
    assert s == Encode(c) + s[n..];
    if IsUtf8(s[n..]) {
      var cs :| AreScalars(cs) && EncodeAll(cs) == s[n..];
      var all := [c] + cs;
      assert all[1..] == cs;
      assert AreScalars(all) && EncodeAll(all) == s;
    }
    if IsUtf8(s) {
      var cs :| AreScalars(cs) && EncodeAll(cs) == s;
      if cs == [] {
        assert |Encode(c)| <= |s|;
      } else {
        EncodingIsPrefixFree(c, cs[0], s[n..], EncodeAll(cs[1..]));
        assert AreScalars(cs[1..]);
      }
    }
  }

  lemma Utf8StartsWell(s: string)
    requires IsUtf8(s) && s != []
    ensures exists n :: StartsWell(s, n)
  {
    hide Encode, StartsWell, IsScalar;
    var cs :| AreScalars(cs) && EncodeAll(cs) == s;
    EncodingStartsWell(cs[0], EncodeAll(cs[1..]), |Encode(cs[0])|);
  }

  /** Byte i of well-formed text: never a byte that starts or continues nothing, and behind the
      four lead bytes that could begin an overlong form, a surrogate or a value beyond U+10FFFF,
      never the second byte that would. */
  ghost predicate IsSafeAt(s: string, i: nat) {
    i < |s| ==>
      var b := s[i] as int;
      && b < 256 && b != 0xC0 && b != 0xC1 && b < 0xF5
      && (b >= 0xC2 ==> i + 1 < |s| && 0x80 <= s[i + 1] as int <= 0xBF)
      && (b == 0xE0 ==> i + 1 < |s| && s[i + 1] as int >= 0xA0)
      && (b == 0xED ==> i + 1 < |s| && s[i + 1] as int <= 0x9F)
      && (b == 0xF0 ==> i + 1 < |s| && s[i + 1] as int >= 0x90)
      && (b == 0xF4 ==> i + 1 < |s| && s[i + 1] as int <= 0x8F)
  }

  lemma EncodingIsSafe(c: int, rest: string, i: nat)
    requires IsScalar(c) && i < |Encode(c)|
    ensures IsSafeAt(Encode(c) + rest, i)
  {
  }

  lemma SafeFurtherOn(first: string, rest: string, i: nat)
    requires IsSafeAt(rest, i)
    ensures IsSafeAt(first + rest, |first| + i)
  {
  }

  lemma {:induction false} EncodingsAreSafe(cs: seq<int>, i: nat)
    requires AreScalars(cs)
    ensures IsSafeAt(EncodeAll(cs), i)
  {
    hide Encode, IsScalar;
    if cs != [] {
      var first, rest := Encode(cs[0]), EncodeAll(cs[1..]);
      if i < |first| {
        EncodingIsSafe(cs[0], rest, i);
      } else {
        EncodingsAreSafe(cs[1..], i - |first|);
        SafeFurtherOn(first, rest, i - |first|);
      }
    }
  }

  /** No accepted text holds an overlong form, a surrogate or a value beyond U+10FFFF. */
  lemma Utf8IsSafe(s: string, i: nat)
    requires IsUtf8(s)
    ensures IsSafeAt(s, i)
  {
    hide Encode, IsScalar, IsSafeAt;
    var cs :| AreScalars(cs) && EncodeAll(cs) == s;
    EncodingsAreSafe(cs, i);
  }

  /** Every code point from U+0000 to U+10FFFF outside the surrogates has accepted text, of one
      to four bytes, from which it can be read back. */
  lemma EveryScalarIsAccepted(c: int)
    requires 0 <= c < 0xD800 || 0xE000 <= c <= 0x10FFFF
    ensures IsScalar(c) && IsUtf8(Encode(c))
    ensures |Encode(c)| == if c < 0x80 then 1 else if c < 0x800 then 2 else if c < 0x10000 then 3 else 4
    ensures c < 0x80 ==> Encode(c) == [c as char]
  {
    assert EncodeAll([c]) == Encode(c) by {
      assert [c][1..] == [];
    }
    assert AreScalars([c]);
  }

  lemma EmptyIsUtf8()
    ensures IsUtf8([])
  {
    assert EncodeAll([]) == [];
  }

  /** The strict validator accepts exactly the encodings of scalar values; every index it
      reads lies inside the buffer. */
  method ValidateUtf8(buf: string) returns (ok: bool)
    ensures ok <==> IsUtf8(buf)
  {
    hide IsUtf8;
    var i := 0;
    assert buf[0..] == buf;
    while i < |buf|
      invariant i <= |buf|
      invariant IsUtf8(buf) <==> IsUtf8(buf[i..])
    {
      ghost var rest := buf[i..];
      var b0 := buf[i] as int;
      if b0 < 0x80 {
        Utf8AfterStart(rest, 1);
        assert rest[1..] == buf[i + 1..];
        i := i + 1;
        continue;
      }
      var lead := LeadOf(b0);
      if IsUtf8(rest) {
        Utf8StartsWell(rest);
      }
      if lead.BadLead? {
        return false;
      }
      if i + lead.extra >= |buf| {
        return false;
      }
      var c1 := buf[i + 1] as int;
      if c1 < lead.lo || c1 > lead.hi {
        return false;
      }
      for k := 2 to lead.extra + 1
        invariant forall j :: 2 <= j < k ==> IsCont(rest[j])
      {
        if !IsCont(buf[i + k]) {
          assert !IsCont(rest[k]);
          return false;
        }
      }
      assert StartsWell(rest, lead.extra + 1);
      Utf8AfterStart(rest, lead.extra + 1);
      assert rest[lead.extra + 1..] == buf[i + (lead.extra + 1)..];
      i := i + (lead.extra + 1);
    }
    assert buf[i..] == [];
    EmptyIsUtf8();
    return true;
  }
}
