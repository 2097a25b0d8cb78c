/** Instants as (day number, milliseconds of day), the ISO-8601 texts that are accepted for
    them, and the one canonical text that is written. */
module Timestamp {
  import opened Wrappers
  import opened Ascii
  import opened Calendar

  datatype Instant = Instant(days: int, ms: int)

  const MS_PER_DAY := 86400000
  const TS_MAX_LEN := 40

  function InstantCompare(a: Instant, b: Instant): int {
    if a.days != b.days then (if a.days < b.days then -1 else 1)
    else if a.ms != b.ms then (if a.ms < b.ms then -1 else 1)
    else 0
  }

  function AddDays(i: Instant, n: int): Instant {
    i.(days := i.days + n)
  }

  // ---- the accepted grammar ----

  ghost predicate DigitsAt(s: string, p: nat, n: nat) {
    p + n <= |s| && AllDigits(s[p..p + n])
  }

  function DateOf(s: string): Date
    requires |s| >= 10
  {
    Date(Value(s[0..4]), Value(s[5..7]), Value(s[8..10]))
  }

  /** YYYY-MM-DD at the start of `s`, naming a real date. */
  ghost predicate StartsWithDate(s: string) {
    |s| >= 10 && DigitsAt(s, 0, 4) && s[4] == '-' && DigitsAt(s, 5, 2) && s[7] == '-' && DigitsAt(s, 8, 2) &&
    IsDate(DateOf(s))
  }

  function SecondsOf(t: string): int
    requires |t| >= 9
  {
    (Value(t[1..3]) * 60 + Value(t[4..6])) * 60 + Value(t[7..9])
  }

  /** A separator and HH:MM:SS at the start of `t`. */
  ghost predicate StartsWithTime(t: string) {
    |t| >= 9 && (t[0] == 'T' || t[0] == 't' || t[0] == ' ') &&
    DigitsAt(t, 1, 2) && t[3] == ':' && DigitsAt(t, 4, 2) && t[6] == ':' && DigitsAt(t, 7, 2) &&
    Value(t[1..3]) <= 23 && Value(t[4..6]) <= 59 && Value(t[7..9]) <= 59
  }

  function Zeros(n: nat): string {
    seq(n, _ => '0')
  }

  /** The milliseconds a fraction stands for: its first three digits, padded with zeros. */
  function Millis(fraction: string): nat {
    if |fraction| >= 3 then Value(fraction[..3]) else Value(fraction + Zeros(3 - |fraction|))
  }

  function FractionText(fraction: string): string {
    if fraction == [] then [] else ['.'] + fraction
  }

  /** An optional fraction of one to nine digits, then an optional "Z" or "z". */
  ghost predicate IsTail(u: string, fraction: string, zone: string) {
    AllDigits(fraction) && |fraction| <= 9 && (zone == "" || zone == "Z" || zone == "z") &&
    u == FractionText(fraction) + zone
  }

  ghost predicate TimeReads(t: string, ms: int) {
    StartsWithTime(t) &&
    exists fraction, zone :: IsTail(t[9..], fraction, zone) && ms == SecondsOf(t) * 1000 + Millis(fraction)
  }

  /** `s` is an accepted text for instant `i`: a bare date, or a date and a time. */
  ghost predicate Reads(s: string, i: Instant) {
    StartsWithDate(s) && i.days == DayNumber(DateOf(s)) &&
    if |s| == 10 then i.ms == 0 else TimeReads(s[10..], i.ms)
  }

  // ---- the parser as it runs ----

  /** Exactly `n` digits at `pos`, or failure. */
  method ReadDigits(s: string, pos: nat, n: nat) returns (ok: bool, pos': nat, val: nat)
    requires pos <= |s|
    ensures ok <==> DigitsAt(s, pos, n)
    ensures ok ==> pos' == pos + n && val == Value(s[pos..pos + n])
    ensures !ok ==> pos' == pos
  {
    if pos + n > |s| {
      return false, pos, 0;
    }
    var v: nat := 0;
    for i := 0 to n
      invariant v == Value(s[pos..pos + i]) && AllDigits(s[pos..pos + i])
    {
      var c := s[pos + i];
      if !IsDigit(c) {
        assert s[pos..pos + n][i] == c;
        return false, pos, 0;
      }
      assert s[pos..pos + i + 1][..i] == s[pos..pos + i];
      v := v * 10 + Digit(c);
    }
    return true, pos + n, v;
  }

  lemma EmptyText()
    ensures Value("") == 0 && Millis("") == 0
  {
    ValueOfZeros("" + Zeros(3));
  }

  lemma ValueAppends(s: string, c: char)
    ensures Value(s + [c]) == Value(s) * 10 + Digit(c)
  {
    assert (s + [c])[..|s|] == s;
  }

  lemma TimesTen(v: nat, p: nat)
    ensures v * (10 * p) == 10 * (v * p)
  {
  }

  lemma {:induction false} ValueOfConcat(a: string, b: string)
    ensures Value(a + b) == Value(a) * Pow10(|b|) + Value(b)
  {
    if b == [] {
      assert a + b == a;
    } else {
      var b', d := b[..|b| - 1], Digit(b[|b| - 1]);
      assert (a + b)[..|a + b| - 1] == a + b';
      ValueOfConcat(a, b');
      var v, p := Value(a), Pow10(|b'|);
      assert Value(a + b) == 10 * Value(a + b') + d && Value(b) == 10 * Value(b') + d;
      assert Pow10(|b|) == 10 * p;
      TimesTen(v, p);
    }
  }

  lemma DropDigits(s: string, n: nat)
    requires AllDigits(s) && n <= |s|
    ensures Value(s[..n]) == Value(s) / Pow10(|s| - n)
  {
    hide Value, Pow10;
    var kept, dropped := s[..n], s[n..];
    assert s == kept + dropped;
    ValueOfConcat(kept, dropped);
    ValueBounds(dropped);
    FloorIsUnique(Value(s), Pow10(|dropped|), Value(kept));
  }

  lemma AppendZeros(s: string, zeros: string)
    requires forall i :: 0 <= i < |zeros| ==> zeros[i] == '0'
    ensures Value(s + zeros) == Value(s) * Pow10(|zeros|)
  {
    ValueOfConcat(s, zeros);
    ValueOfZeros(zeros);
  }

  /** Keeping three digits is division, padding to three is multiplication. */
  lemma ScaleToMillis(fraction: string)
    requires AllDigits(fraction)
    ensures |fraction| >= 3 ==> Millis(fraction) == Value(fraction) / Pow10(|fraction| - 3)
    ensures |fraction| < 3 ==> Millis(fraction) == Value(fraction) * Pow10(3 - |fraction|)
  {
    hide Value, Pow10;
    if |fraction| >= 3 {
      hide AllDigits;
      DropDigits(fraction, 3);
    } else {
      hide AllDigits;
      AppendZeros(fraction, Zeros(3 - |fraction|));
    }
  }

  /** Brings a fraction of `digits` digits and value `val` to milliseconds. */
  method ScaleFraction(ghost fraction: string, val: nat, digits: nat) returns (millis: nat)
    requires AllDigits(fraction) && |fraction| == digits && val == Value(fraction)
    ensures millis == Millis(fraction)
  {
    hide Value, Millis, AllDigits;
    ScaleToMillis(fraction);
    if digits >= 3 {
      var divisor := 1;
      for i := 0 to digits - 3
        invariant divisor == Pow10(i)
      {
        divisor := divisor * 10;
      }
      return val / divisor;
    }
    var multiplier := 1;
    for i := 0 to 3 - digits
      invariant multiplier == Pow10(i)
    {
      multiplier := multiplier * 10;
    }
    return val * multiplier;
  }

  lemma DigitsStopOnce(u: string, e: nat, pos: nat)
    requires 1 <= e <= |u| && AllDigits(u[1..e]) && (e < |u| ==> !IsDigit(u[e]))
    requires 1 <= pos <= |u| && AllDigits(u[1..pos]) && (pos < |u| ==> !IsDigit(u[pos]))
    ensures e == pos
  {
  }

  /** Where the digits stop, the fraction stops: a zone never starts with a digit. */
  lemma TailSplits(u: string, pos: nat)
    requires pos <= |u|
    requires pos == 0 ==> u == [] || u[0] != '.'
    requires pos > 0 ==> u[0] == '.' && AllDigits(u[1..pos]) && (pos < |u| ==> !IsDigit(u[pos]))
    ensures forall fraction, zone :: IsTail(u, fraction, zone) ==>
              fraction == (if pos == 0 then "" else u[1..pos]) && zone == u[pos..] && pos != 1
  {
    forall fraction, zone | IsTail(u, fraction, zone)
      ensures fraction == (if pos == 0 then "" else u[1..pos]) && zone == u[pos..] && pos != 1
    {
      var e := |FractionText(fraction)|;
      assert u[e..] == zone;
      if fraction == "" {
        assert u == zone;
      } else {
        assert u[0] == '.' && u[1..e] == fraction;
        DigitsStopOnce(u, e, pos);
      }
    }
  }

  lemma TailIsExactly(u: string, pos: nat)
    requires pos <= |u|
    requires pos == 0 ==> u == [] || u[0] != '.'
    requires pos > 0 ==> u[0] == '.' && AllDigits(u[1..pos]) && (pos < |u| ==> !IsDigit(u[pos]))
    ensures var f := if pos == 0 then "" else u[1..pos];
            && (forall fraction, zone :: IsTail(u, fraction, zone) ==> fraction == f && zone == u[pos..])
            && (IsTail(u, f, u[pos..]) <==> pos != 1 && pos <= 10 &&
                                            (|u| == pos || (|u| == pos + 1 && (u[pos] == 'Z' || u[pos] == 'z'))))
  {
    TailSplits(u, pos);
    assert u == u[..pos] + u[pos..];
    assert pos > 1 ==> u[..pos] == "." + u[1..pos];
    assert |u| == pos + 1 ==> u[pos..] == [u[pos]];
    assert |u| == pos ==> u[pos..] == "";
  }

  /** The optional fraction, the optional zone, and nothing after them. */
  method ParseTail(u: string) returns (r: Option<nat>)
    ensures r.Some? ==> exists fraction, zone :: IsTail(u, fraction, zone) && r.value == Millis(fraction)
    ensures r.None? ==> forall fraction, zone :: !IsTail(u, fraction, zone)
  {
    hide Value, Millis, IsTail, FractionText;
    var millis: nat := 0;
    var pos := 0;
    ghost var fraction := "";
    EmptyText();
    if pos < |u| && u[pos] == '.' {
      pos := 1;
      assert u[1..1] == "";
      var fracDigits, fracVal: nat := 0, 0;
      while pos < |u| && IsDigit(u[pos])
        invariant 1 <= pos <= |u| && fracDigits == pos - 1
        invariant AllDigits(u[1..pos])
        invariant fracDigits <= 9 ==> fracVal == Value(u[1..pos])
      {
        assert u[1..pos + 1] == u[1..pos] + [u[pos]];
        ValueAppends(u[1..pos], u[pos]);
        if fracDigits < 9 {
          fracVal := fracVal * 10 + Digit(u[pos]);
        }
        fracDigits := fracDigits + 1;
        pos := pos + 1;
      }
      fraction := u[1..pos];
      TailIsExactly(u, pos);
      if fracDigits == 0 || fracDigits > 9 {
        return None;
      }
      millis := ScaleFraction(fraction, fracVal, fracDigits);
    } else {
      TailIsExactly(u, 0);
    }
    var end := pos;
    if pos < |u| && (u[pos] == 'Z' || u[pos] == 'z') {
      pos := pos + 1;
    }
    if pos != |u| {
      return None;
    }
    assert IsTail(u, fraction, u[end..]);
    return Some(millis);
  }

  method ParseTime(t: string) returns (r: Option<int>)
    requires t != []
    ensures r.Some? ==> TimeReads(t, r.value)
    ensures r.None? ==> forall ms :: !TimeReads(t, ms)
  {
    hide Value;
    var sep := t[0];
    if sep != 'T' && sep != 't' && sep != ' ' {
      return None;
    }
    var ok, pos, hh := ReadDigits(t, 1, 2);
    if !ok || hh > 23 || pos >= |t| || t[pos] != ':' {
      return None;
    }
    var mm, ss: nat;
    ok, pos, mm := ReadDigits(t, pos + 1, 2);
    if !ok || mm > 59 || pos >= |t| || t[pos] != ':' {
      return None;
    }
    ok, pos, ss := ReadDigits(t, pos + 1, 2);
    if !ok || ss > 59 {
      return None;
    }
    var millis := ParseTail(t[9..]);
    if millis.None? {
      return None;
    }
    return Some(((hh * 60 + mm) * 60 + ss) * 1000 + millis.value);
  }

  lemma ReadableIsShort(s: string, i: Instant)
    requires Reads(s, i)
    ensures 10 <= |s| <= 30
  {
    hide DaysFromCivil, MonthLength, Value;
    if |s| > 10 {
      var fraction, zone :| IsTail(s[10..][9..], fraction, zone);
      assert |s[10..][9..]| == |s| - 19;
    }
  }

  method ParseInstant(s: string) returns (r: Option<Instant>)
    ensures r.Some? ==> Reads(s, r.value)
    ensures r.None? ==> forall i :: !Reads(s, i)
  {
    hide DaysFromCivil, CivilFromDays, MonthLength, Value;
    var len := if |s| <= TS_MAX_LEN then |s| else TS_MAX_LEN + 1;
    if len == 0 || len > TS_MAX_LEN {
      forall i | Reads(s, i)
        ensures false
      {
        ReadableIsShort(s, i);
      }
      return None;
    }
    var ok, pos, year := ReadDigits(s, 0, 4);
    if !ok || pos >= |s| || s[pos] != '-' {
      return None;
    }
    var month, day: nat;
    ok, pos, month := ReadDigits(s, pos + 1, 2);
    if !ok || pos >= |s| || s[pos] != '-' {
      return None;
    }
    ok, pos, day := ReadDigits(s, pos + 1, 2);
    if !ok {
      return None;
    }
    ValidExactlyForDates(year, month, day);
    if !IsValidYmd(year, month, day) {
      return None;
    }
    var days := DaysFromCivil(year, month, day);
    if pos == |s| {
      return Some(Instant(days, 0));
    }
    var ms := ParseTime(s[10..]);
    if ms.None? {
      return None;
    }
    return Some(Instant(days, ms.value));
  }

  function DigitsStop(u: string, p: nat): (e: nat)
    requires p <= |u|
    ensures p <= e <= |u| && AllDigits(u[p..e]) && (e < |u| ==> !IsDigit(u[e]))
    decreases |u| - p
  {
    if p < |u| && IsDigit(u[p]) then
      var e := DigitsStop(u, p + 1);
      assert u[p..e] == [u[p]] + u[p + 1..e];
      e
    else p
  }

  /** An accepted text stands for one instant only. */
  lemma ReadsIsUnambiguous(s: string, i: Instant, j: Instant)
    requires Reads(s, i) && Reads(s, j)
    ensures i == j
  {
    hide DaysFromCivil, MonthLength, Value;
    if |s| > 10 {
      var u := s[10..][9..];
      var pos := if u != [] && u[0] == '.' then DigitsStop(u, 1) else 0;
      TailSplits(u, pos);
    }
  }

  // ---- the canonical text ----

  /** Years of four digits and a time within one day. */
  predicate InRange(i: Instant) {
    0 <= CivilFromDays(i.days).year <= 9999 && 0 <= i.ms < MS_PER_DAY
  }

  /** `n` in decimal, zero-padded to `w` digits. */
  function Pad(n: nat, w: nat): (t: string)
    ensures |t| == w
  {
    if w == 0 then [] else Pad(n / 10, w - 1) + [DigitChar(n % 10)]
  }

  function DateText(t: Date): string
    requires t.year >= 0 && t.month >= 0 && t.day >= 0
  {
    Pad(t.year, 4) + (['-'] + (Pad(t.month, 2) + (['-'] + Pad(t.day, 2))))
  }

  function ClockText(h: nat, m: nat, s: nat, f: nat): string {
    ['T'] + (Pad(h, 2) + ([':'] + (Pad(m, 2) + ([':'] + (Pad(s, 2) + (['.'] + (Pad(f, 3) + ['Z'])))))))
  }

  function TimeText(ms: nat): string {
    ClockText(ms / 3600000, ms / 60000 % 60, ms / 1000 % 60, ms % 1000)
  }

  /** YYYY-MM-DDTHH:MM:SS.sssZ. */
  function Canonical(i: Instant): string
    requires InRange(i)
  {
    DayRoundTrip(i.days);
    DateText(CivilFromDays(i.days)) + TimeText(i.ms)
  }

  method FormatInstant(i: Instant) returns (r: Option<string>)
    ensures r == if InRange(i) then Some(Canonical(i)) else None
  {
    hide CivilFromDays, DaysFromCivil;
    var date := CivilFromDays(i.days);
    if date.year < 0 || date.year > 9999 {
      return None;
    }
    if i.ms < 0 || i.ms >= MS_PER_DAY {
      return None;
    }
    DayRoundTrip(i.days);
    return Some(DateText(date) + TimeText(i.ms));
  }

  lemma {:induction false} PadIsDecimal(n: nat, w: nat)
    requires n < Pow10(w)
    ensures AllDigits(Pad(n, w)) && Value(Pad(n, w)) == n
  {
    if w > 0 {
      PadIsDecimal(n / 10, w - 1);
      var t := Pad(n, w);
      assert t[..w - 1] == Pad(n / 10, w - 1);
    }
  }

  lemma PowersOfTen()
    ensures Pow10(2) == 100 && Pow10(3) == 1000 && Pow10(4) == 10000
  {
    assert Pow10(1) == 10 && Pow10(2) == 100;
  }

  lemma DateTextReads(t: Date, rest: string)
    requires IsDate(t) && 0 <= t.year <= 9999
    ensures StartsWithDate(DateText(t) + rest) && DateOf(DateText(t) + rest) == t
    ensures |DateText(t)| == 10
  {
    hide Value, AllDigits, Pad;
    PowersOfTen();
    var y, m, d := Pad(t.year, 4), Pad(t.month, 2), Pad(t.day, 2);
    PadIsDecimal(t.year, 4);
    PadIsDecimal(t.month, 2);
    PadIsDecimal(t.day, 2);
    var s := DateText(t) + rest;
    assert s[0..4] == y && s[4] == '-' && s[5..7] == m && s[7] == '-' && s[8..10] == d;
  }

  /** The four printed fields make up the time of day. */
  lemma TimeFields(ms: nat)
    ensures ms == ((ms / 3600000 * 60 + ms / 60000 % 60) * 60 + ms / 1000 % 60) * 1000 + ms % 1000
    ensures ms < MS_PER_DAY ==> ms / 3600000 < 24
  {
    var s, m, h := ms / 1000, ms / 60000, ms / 3600000;
    assert m == s / 60 && h == m / 60;
  }

  lemma TimeTextReads(ms: nat)
    requires ms < MS_PER_DAY
    ensures TimeReads(TimeText(ms), ms)
  {
    hide Value, AllDigits, Pad;
    PowersOfTen();
    var hh, mm, ss, frac := ms / 3600000, ms / 60000 % 60, ms / 1000 % 60, ms % 1000;
    PadIsDecimal(hh, 2);
    PadIsDecimal(mm, 2);
    PadIsDecimal(ss, 2);
    PadIsDecimal(frac, 3);
    var t := TimeText(ms);
    var f := Pad(frac, 3);
    assert t[1..3] == Pad(hh, 2) && t[3] == ':' && t[4..6] == Pad(mm, 2) && t[6] == ':' && t[7..9] == Pad(ss, 2);
    assert t[9..] == FractionText(f) + "Z";
    assert f[..3] == f;
    TimeFields(ms);
    assert IsTail(t[9..], f, "Z");
  }

  /** Writing an instant and reading it back gives the same instant. */
  lemma CanonicalReads(i: Instant)
    requires InRange(i)
    ensures |Canonical(i)| == 24 && Reads(Canonical(i), i)
  {
    hide CivilFromDays, DaysFromCivil, Value, AllDigits, Pad;
    var t := CivilFromDays(i.days);
    DayRoundTrip(i.days);
    DateTextReads(t, TimeText(i.ms));
    TimeTextReads(i.ms);
    assert Canonical(i)[10..] == TimeText(i.ms);
  }

  lemma ReadDateIsPrintable(s: string)
    requires StartsWithDate(s)
    ensures |s| >= 10 && 0 <= CivilFromDays(DayNumber(DateOf(s))).year <= 9999
  {
    hide CivilFromDays, DaysFromCivil, Value;
    PowersOfTen();
    DateRoundTrip(DateOf(s));
    ValueBounds(s[0..4]);
  }

  lemma MillisBound(u: string, fraction: string, zone: string)
    requires IsTail(u, fraction, zone)
    ensures Millis(fraction) < 1000
  {
    hide Value;
    PowersOfTen();
    ValueBounds(if |fraction| >= 3 then fraction[..3] else fraction + Zeros(3 - |fraction|));
  }

  lemma ReadTimeIsWithinDay(t: string, ms: int)
    requires TimeReads(t, ms)
    ensures 0 <= ms < MS_PER_DAY
  {
    hide Value, Millis, IsTail;
    var fraction, zone :| IsTail(t[9..], fraction, zone) && ms == SecondsOf(t) * 1000 + Millis(fraction);
    MillisBound(t[9..], fraction, zone);
  }

  /** Every accepted text has a canonical form, which reads as the same instant. */
  lemma ReadableHasCanonicalForm(s: string, i: Instant)
    requires Reads(s, i)
    ensures InRange(i) && Reads(Canonical(i), i)
  {
    hide CivilFromDays, DaysFromCivil, StartsWithDate, DateOf, TimeReads;
    ReadDateIsPrintable(s);
    if |s| > 10 {
      ReadTimeIsWithinDay(s[10..], i.ms);
    }
    CanonicalReads(i);
  }

  /** Two texts that agree up to one field compare by that field first. */
  lemma FieldDecides(m: nat, n: nat, w: nat, x: string, y: string)
    requires m < Pow10(w) && n < Pow10(w)
    ensures Lex(Pad(m, w) + x, Pad(n, w) + y) == if m == n then Lex(x, y) else Sign(m - n)
  {
    PadIsDecimal(m, w);
    PadIsDecimal(n, w);
    LexConcat(Pad(m, w), Pad(n, w), x, y);
    LexIsNumericOrder(Pad(m, w), Pad(n, w));
    LexMirror(Pad(m, w), Pad(n, w));
  }

  lemma SeparatorIsNeutral(c: char, x: string, y: string)
    ensures Lex([c] + x, [c] + y) == Lex(x, y)
  {
    assert ([c] + x)[1..] == x && ([c] + y)[1..] == y;
  }

  lemma ClockTextOrder(h: nat, m: nat, s: nat, f: nat, h': nat, m': nat, s': nat, f': nat)
    requires h < 24 && m < 60 && s < 60 && f < 1000 && h' < 24 && m' < 60 && s' < 60 && f' < 1000
    ensures Lex(ClockText(h, m, s, f), ClockText(h', m', s', f')) ==
            if h != h' then Sign(h - h') else if m != m' then Sign(m - m')
            else if s != s' then Sign(s - s') else Sign(f - f')
  {
    hide Pad, Lex;
    PowersOfTen();
    var z, z' := Pad(f, 3) + ['Z'], Pad(f', 3) + ['Z'];
    var y, y' := Pad(s, 2) + (['.'] + z), Pad(s', 2) + (['.'] + z');
    var x, x' := Pad(m, 2) + ([':'] + y), Pad(m', 2) + ([':'] + y');
    LexMirror(['Z'], ['Z']);
    FieldDecides(f, f', 3, ['Z'], ['Z']);
    FieldDecides(s, s', 2, ['.'] + z, ['.'] + z');
    FieldDecides(m, m', 2, [':'] + y, [':'] + y');
    FieldDecides(h, h', 2, [':'] + x, [':'] + x');
    SeparatorIsNeutral('.', z, z');
    SeparatorIsNeutral(':', y, y');
    SeparatorIsNeutral(':', x, x');
    SeparatorIsNeutral('T', Pad(h, 2) + ([':'] + x), Pad(h', 2) + ([':'] + x'));
  }

  lemma MixedRadixOrder(h: nat, m: nat, s: nat, f: nat, h': nat, m': nat, s': nat, f': nat)
    requires m < 60 && s < 60 && f < 1000 && m' < 60 && s' < 60 && f' < 1000
    ensures Sign((((h * 60 + m) * 60 + s) * 1000 + f) - (((h' * 60 + m') * 60 + s') * 1000 + f')) ==
            if h != h' then Sign(h - h') else if m != m' then Sign(m - m')
            else if s != s' then Sign(s - s') else Sign(f - f')
  {
  }

  lemma TimeTextOrder(a: nat, b: nat)
    requires a < MS_PER_DAY && b < MS_PER_DAY
    ensures Lex(TimeText(a), TimeText(b)) == Sign(a - b)
  {
    hide ClockText, Lex, Sign;
    TimeFields(a);
    TimeFields(b);
    MixedRadixOrder(a / 3600000, a / 60000 % 60, a / 1000 % 60, a % 1000,
                    b / 3600000, b / 60000 % 60, b / 1000 % 60, b % 1000);
    ClockTextOrder(a / 3600000, a / 60000 % 60, a / 1000 % 60, a % 1000,
                   b / 3600000, b / 60000 % 60, b / 1000 % 60, b % 1000);
  }

  lemma DateTextOrder(s: Date, t: Date, x: string, y: string)
    requires IsDate(s) && IsDate(t) && 0 <= s.year <= 9999 && 0 <= t.year <= 9999
    ensures Lex(DateText(s) + x, DateText(t) + y) == if s == t then Lex(x, y) else if Before(s, t) then -1 else 1
  {
    hide Pad, Lex;
    PowersOfTen();
    var ds, dt := Pad(s.day, 2) + x, Pad(t.day, 2) + y;
    var ms, mt := Pad(s.month, 2) + (['-'] + ds), Pad(t.month, 2) + (['-'] + dt);
    assert DateText(s) + x == Pad(s.year, 4) + (['-'] + ms);
    assert DateText(t) + y == Pad(t.year, 4) + (['-'] + mt);
    FieldDecides(s.day, t.day, 2, x, y);
    FieldDecides(s.month, t.month, 2, ['-'] + ds, ['-'] + dt);
    FieldDecides(s.year, t.year, 4, ['-'] + ms, ['-'] + mt);
    SeparatorIsNeutral('-', ds, dt);
    SeparatorIsNeutral('-', ms, mt);
  }

  /** The byte order of canonical texts is the order of the instants. */
  lemma CanonicalOrder(a: Instant, b: Instant)
    requires InRange(a) && InRange(b)
    ensures Lex(Canonical(a), Canonical(b)) == InstantCompare(a, b)
  {
    hide CivilFromDays, DaysFromCivil, Pad, Lex, TimeText, DateText;
    var s, t := CivilFromDays(a.days), CivilFromDays(b.days);
    DayRoundTrip(a.days);
    DayRoundTrip(b.days);
    DayNumbersFollowDates(s, t);
    DateTextOrder(s, t, TimeText(a.ms), TimeText(b.ms));
    TimeTextOrder(a.ms, b.ms);
  }

  // ---- the texts in terms of their characters ----

  /** YYYY-MM-DDTHH:MM:SS.sssZ with the fields of the instant in their places. */
  lemma CanonicalShape(i: Instant)
    requires InRange(i)
    ensures var t, date := Canonical(i), CivilFromDays(i.days);
            && |t| == 24 && t[4] == '-' && t[7] == '-' && t[10] == 'T' && t[13] == ':' && t[16] == ':' && t[19] == '.'
            && t[23] == 'Z'
            && Value(t[0..4]) == date.year && Value(t[5..7]) == date.month && Value(t[8..10]) == date.day
            && ((Value(t[11..13]) * 60 + Value(t[14..16])) * 60 + Value(t[17..19])) * 1000 + Value(t[20..23]) == i.ms
            && Value(t[11..13]) < 24 && Value(t[14..16]) < 60 && Value(t[17..19]) < 60
  {
    hide CivilFromDays, DaysFromCivil, Value, AllDigits, Pad;
    PowersOfTen();
    DayRoundTrip(i.days);
    var date, ms := CivilFromDays(i.days), i.ms;
    DateTextReads(date, TimeText(ms));
    var hh, mm, ss, frac := ms / 3600000, ms / 60000 % 60, ms / 1000 % 60, ms % 1000;
    TimeFields(ms);
    PadIsDecimal(hh, 2);
    PadIsDecimal(mm, 2);
    PadIsDecimal(ss, 2);
    PadIsDecimal(frac, 3);
    var t := Canonical(i);
    assert t[11..13] == Pad(hh, 2) && t[14..16] == Pad(mm, 2) && t[17..19] == Pad(ss, 2) && t[20..23] == Pad(frac, 3);
  }

  lemma DateOfExtension(d: string, x: string)
    requires |d| == 10
    ensures StartsWithDate(d + x) <==> StartsWithDate(d)
    ensures DateOf(d + x) == DateOf(d)
  {
    hide Value, AllDigits, IsDate;
    var s := d + x;
    assert s[0..4] == d[0..4] && s[5..7] == d[5..7] && s[8..10] == d[8..10];
  }

  lemma ReadsByParts(d: string, t: string, i: Instant)
    requires |d| == 10 && t != []
    ensures Reads(d + t, i) <==> StartsWithDate(d) && i.days == DayNumber(DateOf(d)) && TimeReads(t, i.ms)
  {
    hide StartsWithDate, DateOf, TimeReads, DaysFromCivil;
    DateOfExtension(d, t);
    assert (d + t)[10..] == t;
  }

  lemma MidnightReads(ms: int)
    ensures TimeReads("T00:00:00Z", ms) <==> ms == 0
  {
    hide Value, Millis;
    var t := "T00:00:00Z";
    assert t[1..3] == "00" && t[4..6] == "00" && t[7..9] == "00" && t[9..] == "Z";
    ValueOfZeros("00");
    EmptyText();
    assert IsTail("Z", "", "Z");
    forall fraction, zone | IsTail("Z", fraction, zone)
      ensures fraction == ""
    {
      TailSplits("Z", 0);
    }
  }

  /** A bare date is midnight of that day. */
  lemma BareDateIsMidnight(d: string, i: Instant)
    requires |d| == 10
    ensures Reads(d, i) <==> Reads(d + "T00:00:00Z", i)
  {
    hide StartsWithDate, DateOf, TimeReads, DaysFromCivil;
    ReadsByParts(d, "T00:00:00Z", i);
    MidnightReads(i.ms);
  }

  /** Whether "T", "t" or a blank separates date and time does not matter. */
  lemma SeparatorIsFree(d: string, a: char, b: char, rest: string, i: Instant)
    requires |d| == 10 && a in {'T', 't', ' '} && b in {'T', 't', ' '}
    ensures Reads(d + ([a] + rest), i) <==> Reads(d + ([b] + rest), i)
  {
    hide StartsWithDate, DateOf, DaysFromCivil, Value, Millis, AllDigits, IsTail;
    ReadsByParts(d, [a] + rest, i);
    ReadsByParts(d, [b] + rest, i);
    var x, y := [a] + rest, [b] + rest;
    if |x| >= 9 {
      assert x[1..3] == y[1..3] && x[4..6] == y[4..6] && x[7..9] == y[7..9] && x[9..] == y[9..];
    }
  }

  lemma FractionEndsInDigit(fraction: string)
    requires AllDigits(fraction)
    ensures var x := FractionText(fraction); fraction != "" ==> x != "" && IsDigit(x[|x| - 1])
  {
  }

  /** The last character of a tail tells its zone. */
  lemma ZoneIsLast(u: string, fraction: string, zone: string)
    requires IsTail(u, fraction, zone)
    ensures zone == if u != "" && u[|u| - 1] in {'Z', 'z'} then [u[|u| - 1]] else ""
  {
    if zone == "" {
      FractionEndsInDigit(fraction);
      assert FractionText(fraction) + "" == FractionText(fraction);
    } else {
      assert zone == [zone[0]] && u[|u| - 1] == zone[0];
    }
  }

  lemma TailTakesZone(u: string, fraction: string, z: string)
    requires z in {"Z", "z"}
    ensures IsTail(u + z, fraction, z) <==> IsTail(u, fraction, "")
  {
    var x := FractionText(fraction);
    assert x + "" == x;
    if u + z == x + z {
      assert u == (u + z)[..|u|] && x == (x + z)[..|x|];
    }
  }

  lemma TailsWithZone(u: string, z: string, fraction: string, zone: string)
    requires (u == "" || IsDigit(u[|u| - 1])) && z in {"Z", "z"}
    ensures IsTail(u, fraction, zone) <==> zone == "" && IsTail(u + z, fraction, z)
    ensures IsTail(u + z, fraction, zone) ==> zone == z
  {
    hide IsTail;
    TailTakesZone(u, fraction, z);
    assert (u + z)[|u + z| - 1] == z[0] && z == [z[0]];
    if IsTail(u, fraction, zone) {
      ZoneIsLast(u, fraction, zone);
    }
    if IsTail(u + z, fraction, zone) {
      ZoneIsLast(u + z, fraction, zone);
    }
  }

  lemma TimeOfExtension(t: string, z: string)
    requires |t| >= 9
    ensures StartsWithTime(t + z) <==> StartsWithTime(t)
    ensures SecondsOf(t + z) == SecondsOf(t) && (t + z)[9..] == t[9..] + z
  {
    hide Value, AllDigits;
    var s := t + z;
    assert s[1..3] == t[1..3];
    assert s[4..6] == t[4..6];
    assert s[7..9] == t[7..9];
  }

  /** The zone "Z", in either case, may be left out: the time is UTC all the same. */
  lemma ZoneIsFree(t: string, z: string, ms: int)
    requires |t| >= 9 && IsDigit(t[|t| - 1]) && z in {"Z", "z"}
    ensures TimeReads(t + z, ms) <==> TimeReads(t, ms)
  {
    hide Value, Millis, IsTail, AllDigits, StartsWithTime, SecondsOf;
    var s, u := t + z, t[9..];
    TimeOfExtension(t, z);
    if TimeReads(t, ms) {
      var fraction, zone :| IsTail(t[9..], fraction, zone) && ms == SecondsOf(t) * 1000 + Millis(fraction);
      TailsWithZone(u, z, fraction, zone);
      assert IsTail(s[9..], fraction, z);
    }
    if TimeReads(s, ms) {
      var fraction, zone :| IsTail(s[9..], fraction, zone) && ms == SecondsOf(s) * 1000 + Millis(fraction);
      TailsWithZone(u, z, fraction, zone);
      TailsWithZone(u, z, fraction, "");
      assert IsTail(t[9..], fraction, "");
    }
  }

  lemma ValueOfThree(a: char, b: char, c: char)
    ensures Value([a, b, c]) == 100 * Digit(a) + 10 * Digit(b) + Digit(c)
  {
    assert [a, b, c][..2] == [a, b] && [a, b][..1] == [a] && [a][..0] == [];
    assert Value([a]) == Digit(a);
    assert Value([a, b]) == 10 * Digit(a) + Digit(b);
  }

  /** Only the first three digits of a fraction count, and missing ones are zeros. */
  lemma FractionInMillis(a: char, b: char, c: char, rest: string)
    requires IsDigit(a) && IsDigit(b) && IsDigit(c)
    ensures Millis([a, b, c] + rest) == 100 * Digit(a) + 10 * Digit(b) + Digit(c)
    ensures Millis([a]) == 100 * Digit(a)
    ensures Millis([a, b]) == 100 * Digit(a) + 10 * Digit(b)
  {
    assert ([a, b, c] + rest)[..3] == [a, b, c];
    ValueOfThree(a, b, c);
    ValueOfThree(a, b, '0');
    ValueOfThree(a, '0', '0');
    assert [a] + Zeros(2) == [a, '0', '0'] && [a, b] + Zeros(1) == [a, b, '0'];
  }
}
