/** The Internet checksum (RFC 1071) of the ICMP echo request: words summed in 32 bits with the
    carries folded in at the end, against the sum that folds after every addition. */
module IcmpChecksum {
  type Byte = b: int | 0 <= b < 256

  const WORD := 0x1_0000
  const WRAP := 0x1_0000_0000

  function Word(high: Byte, low: Byte): (w: nat)
    ensures w < WORD
  {
    (high as int) * 256 + low
  }

  /** The big-endian 16-bit words of `s`, an odd last byte padded with a zero. */
  function WordSum(s: seq<Byte>): nat {
    if s == [] then 0
    else if |s| == 1 then Word(s[0], 0)
    else Word(s[0], s[1]) + WordSum(s[2..])
  }

  /** One's complement addition: a carry out of 16 bits comes back in at the bottom. */
  function EndAround(n: nat): nat {
    if n < WORD then n else n - WORD + 1
  }

  /** The one's complement sum, as section 1 of RFC 1071 defines it. */
  function OnesSum(s: seq<Byte>): nat {
    if s == [] then 0
    else if |s| == 1 then Word(s[0], 0)
    else EndAround(Word(s[0], s[1]) + OnesSum(s[2..]))
  }

  /** The number in 0..65535 that agrees with `n` modulo 65535 and is zero only when `n` is. */
  function Canonical(n: nat): (r: nat)
    ensures r < WORD && r % 65535 == n % 65535 && (r == 0 <==> n == 0)
  {
    if n == 0 then 0 else (n - 1) % 65535 + 1
  }

  lemma CanonicalIsUnique(m: nat, n: nat)
    requires m < WORD && m % 65535 == n % 65535 && (m == 0 <==> n == 0)
    ensures m == Canonical(n)
  {
  }

  lemma QuotientIsUnique(n: int, q: int, r: int)
    requires n == 65535 * q + r && 0 <= r < 65535
    ensures n / 65535 == q && n % 65535 == r
  {
  }

  lemma SameResidue(m: int, k: int)
    ensures (m + 65535 * k) % 65535 == m % 65535
  {
    var q, r := m / 65535, m % 65535;
    assert m + 65535 * k == 65535 * (q + k) + r;
    QuotientIsUnique(m + 65535 * k, q + k, r);
  }

  lemma FoldKeepsCanonical(n: nat)
    ensures Canonical(n % WORD + n / WORD) == Canonical(n)
  {
    var m := n % WORD + n / WORD;
    assert n == m + 65535 * (n / WORD);
    SameResidue(m, n / WORD);
    CanonicalIsUnique(Canonical(m), n);
  }

  lemma ResidueOfSum(w: int, a: int, b: int)
    requires a % 65535 == b % 65535
    ensures (w + a) % 65535 == (w + b) % 65535
  {
    var k := a / 65535 - b / 65535;
    assert w + a == (w + b) + 65535 * k;
    SameResidue(w + b, k);
  }

  /** Folding after every addition or once at the end comes to the same. */
  lemma {:induction false} CarriesCanWait(s: seq<Byte>)
    ensures OnesSum(s) == Canonical(WordSum(s))
  {
    hide Canonical;
    if |s| < 2 {
      CanonicalIsUnique(WordSum(s), WordSum(s));
    } else {
      CarriesCanWait(s[2..]);
      var w, rest := Word(s[0], s[1]), WordSum(s[2..]);
      var sum := w + Canonical(rest);
      assert sum % 65535 == (w + rest) % 65535 by { ResidueOfSum(w, Canonical(rest), rest); }
      assert EndAround(sum) % 65535 == sum % 65535 by { SameResidue(sum - 65535, 1); }
      CanonicalIsUnique(EndAround(sum), WordSum(s));
    }
  }

  /** The checksum field value for the bytes `s`. */
  function Checksum(s: seq<Byte>): nat {
    65535 - Canonical(WordSum(s) % WRAP)
  }

  lemma WrapNow(a: nat, b: nat)
    ensures (a % WRAP + b) % WRAP == (a + b) % WRAP
  {
    var q := a / WRAP;
    assert a + b == WRAP * q + (a % WRAP + b);
  }

  lemma TakeWord(s: seq<Byte>, i: nat, sum: nat)
    requires i + 1 < |s|
    ensures ((sum + Word(s[i], s[i + 1])) % WRAP + WordSum(s[i + 2..])) % WRAP == (sum + WordSum(s[i..])) % WRAP
  {
    assert s[i..][2..] == s[i + 2..];
    WrapNow(sum + Word(s[i], s[i + 1]), WordSum(s[i + 2..]));
  }

  lemma TakeRest(s: seq<Byte>, i: nat)
    requires |s| - 1 <= i <= |s|
    ensures WordSum(s[i..]) == if i < |s| then Word(s[i], 0) else 0
  {
  }

  /** A sum that fits in a word is the checksum's complement. */
  lemma FoldedIsChecksum(bytes: seq<Byte>, sum: nat)
    requires sum < WORD && Canonical(sum) == Canonical(WordSum(bytes) % WRAP)
    ensures 65535 - sum == Checksum(bytes)
    ensures WordSum(bytes) < WRAP ==> sum == OnesSum(bytes)
  {
    hide Canonical, WordSum, OnesSum;
    CanonicalIsUnique(sum, sum);
    CarriesCanWait(bytes);
  }

  method ComputeChecksum(bytes: seq<Byte>) returns (r: nat)
    ensures r == Checksum(bytes) && r < WORD
    ensures WordSum(bytes) < WRAP ==> r == 65535 - OnesSum(bytes)
  {
    hide Canonical, WordSum, Word, OnesSum, Checksum;
    var sum: nat, i: nat := 0, 0;
    assert bytes[0..] == bytes;
    while i + 1 < |bytes|
      invariant i <= |bytes| && sum < WRAP
      invariant (sum + WordSum(bytes[i..])) % WRAP == WordSum(bytes) % WRAP
    {
      TakeWord(bytes, i, sum);
      var word := Word(bytes[i], bytes[i + 1]);
      sum := (sum + word) % WRAP;
      i := i + 2;
    }
    TakeRest(bytes, i);
    if i < |bytes| {
      sum := (sum + Word(bytes[i], 0)) % WRAP;
    }
    assert sum == WordSum(bytes) % WRAP;
    while sum / WORD != 0
      invariant Canonical(sum) == Canonical(WordSum(bytes) % WRAP)
      decreases sum
    {
      FoldKeepsCanonical(sum);
      sum := sum % WORD + sum / WORD;
    }
    FoldedIsChecksum(bytes, sum);
    return 65535 - sum;
  }

  // ---- which lengths are safe ----

  lemma {:induction false} WordSumBound(s: seq<Byte>)
    ensures WordSum(s) <= (|s| + 1) / 2 * 65535
    ensures |s| % 2 == 1 ==> WordSum(s) <= |s| / 2 * 65535 + 65280
  {
    if |s| > 1 {
      WordSumBound(s[2..]);
    }
  }

  /** Up to 131074 bytes the 32-bit sum cannot overflow. */
  lemma ShortSumsDoNotWrap(s: seq<Byte>)
    requires |s| <= 131074
    ensures WordSum(s) < WRAP && Checksum(s) == 65535 - OnesSum(s) == 65535 - Canonical(WordSum(s))
  {
    hide WordSum, OnesSum, Canonical;
    WordSumBound(s);
    CarriesCanWait(s);
  }

  lemma CancelResidue(a: int, b: int)
    requires a % 65535 == (a + b) % 65535
    ensures b % 65535 == 0
  {
    var k := (a + b) / 65535 - a / 65535;
    assert b == 0 + 65535 * k;
    SameResidue(0, k);
  }

  /** Exactly when the 32-bit sum gives the RFC's answer, for bytes of any length: each lost
      carry of 2^32 stands for one, so the carries lost must be a multiple of 65535. */
  lemma ExactWhenLostCarriesCancel(s: seq<Byte>)
    ensures Checksum(s) == 65535 - OnesSum(s) <==>
            WordSum(s) / WRAP % 65535 == 0 && (WordSum(s) % WRAP == 0 ==> WordSum(s) == 0)
  {
    hide Canonical, WordSum, OnesSum;
    CarriesCanWait(s);
    var n := WordSum(s);
    var q, low := n / WRAP, n % WRAP;
    assert n == low + q + 65535 * (65537 * q);
    SameResidue(low + q, 65537 * q);
    assert n % 65535 == (low + q) % 65535;
    if Canonical(low) == Canonical(n) {
      CancelResidue(low, q);
    }
    if q % 65535 == 0 && (low == 0 ==> n == 0) {
      ResidueOfSum(low, q, 0);
      CanonicalIsUnique(Canonical(low), n);
    }
  }

  lemma {:induction false} AllOnesSum(s: seq<Byte>)
    requires forall i :: 0 <= i < |s| ==> s[i] == 255
    ensures WordSum(s) == |s| / 2 * 65535 + |s| % 2 * 65280
  {
    if |s| > 1 {
      AllOnesSum(s[2..]);
    }
  }

  /** The bound is tight: 131075 bytes can already go wrong. */
  lemma LongSumsCanBeWrong(s: seq<Byte>)
    requires |s| == 131075 && forall i :: 0 <= i < |s| ==> s[i] == 255
    ensures Checksum(s) != 65535 - OnesSum(s)
  {
    AllOnesSum(s);
    ExactWhenLostCarriesCancel(s);
  }

  // ---- storing the checksum ----

  function WithWord(s: seq<Byte>, at: nat, w: nat): (r: seq<Byte>)
    requires at + 2 <= |s| && w < WORD
    ensures |r| == |s|
  {
    s[at := w / 256][at + 1 := w % 256]
  }

  /** Storing a word in a zeroed even field adds it to the sum. */
  lemma {:induction false} StoringAddsWord(s: seq<Byte>, at: nat, w: nat)
    requires at % 2 == 0 && at + 2 <= |s| && s[at] == 0 && s[at + 1] == 0 && w < WORD
    ensures WordSum(WithWord(s, at, w)) == WordSum(s) + w
  {
    var r := WithWord(s, at, w);
    if at == 0 {
      assert r[2..] == s[2..];
    } else {
      StoringAddsWord(s[2..], at - 2, w);
      assert r[2..] == WithWord(s[2..], at - 2, w);
    }
  }

  lemma ComplementCancels(n: nat, c: nat)
    requires c == 65535 - Canonical(n)
    ensures (n + c) % 65535 == 0
  {
    hide Canonical;
    ResidueOfSum(c, n, Canonical(n));
  }

  lemma CancelCommon(n: int, a: int, b: int)
    ensures (n + a) % 65535 == (n + b) % 65535 <==> a % 65535 == b % 65535
  {
    if a % 65535 == b % 65535 {
      ResidueOfSum(n, a, b);
    }
    if (n + a) % 65535 == (n + b) % 65535 {
      ResidueOfSum(-n, n + a, n + b);
    }
  }

  lemma WordCompletesSum(n: nat, w: nat)
    ensures (n + w) % 65535 == 0 <==> w % 65535 == (65535 - Canonical(n)) % 65535
  {
    hide Canonical;
    ComplementCancels(n, 65535 - Canonical(n));
    CancelCommon(n, w, 65535 - Canonical(n));
  }

  lemma FullSum(n: nat)
    ensures Canonical(n) == 65535 <==> n % 65535 == 0 && n != 0
  {
    hide Canonical;
    if n % 65535 == 0 && n != 0 {
      CanonicalIsUnique(65535, n);
    }
  }

  /** A receiver recomputing over the packet sees zero exactly for the stored words that are
      congruent to the sender's checksum modulo 65535 (of a packet not all zero). */
  lemma VerifiesExactly(s: seq<Byte>, at: nat, w: nat)
    requires at % 2 == 0 && at + 2 <= |s| <= 131074 && s[at] == 0 && s[at + 1] == 0 && w < WORD
    ensures Checksum(WithWord(s, at, w)) == 0 <==>
            w % 65535 == Checksum(s) % 65535 && (WordSum(s) != 0 || w != 0)
  {
    hide Canonical, WordSum, OnesSum, WithWord;
    ShortSumsDoNotWrap(s);
    ShortSumsDoNotWrap(WithWord(s, at, w));
    StoringAddsWord(s, at, w);
    FullSum(WordSum(s) + w);
    WordCompletesSum(WordSum(s), w);
  }

  /** Recomputing over an even-length header that carries its checksum gives zero. */
  lemma StoredChecksumVerifies(s: seq<Byte>, at: nat)
    requires at % 2 == 0 && at + 2 <= |s| <= 131074 && s[at] == 0 && s[at + 1] == 0
    ensures Checksum(WithWord(s, at, Checksum(s))) == 0
  {
    hide WordSum, OnesSum, WithWord;
    VerifiesExactly(s, at, Checksum(s));
  }

  /** The echo request: type 8, code 0, checksum, identifier, sequence number 1. */
  method EchoRequest(ident: nat) returns (packet: array<Byte>)
    requires ident < WORD
    ensures fresh(packet) && packet.Length == 8 && Checksum(packet[..]) == 0
    ensures packet[0] == 8 && packet[1] == 0 && packet[4..] == [ident / 256, ident % 256, 0, 1]
    ensures Word(packet[2], packet[3]) == 65535 - OnesSum([8, 0, 0, 0, ident / 256, ident % 256, 0, 1])
  {
    packet := new Byte[8](_ => 0);
    packet[0] := 8;
    packet[4], packet[5] := ident / 256, ident % 256;
    packet[6], packet[7] := 0, 1;
    ghost var zeroed: seq<Byte> := [8, 0, 0, 0, ident / 256, ident % 256, 0, 1];
    assert packet[..] == zeroed;
    var c := ComputeChecksum(packet[..]);
    ShortSumsDoNotWrap(zeroed);
    StoredChecksumVerifies(zeroed, 2);
    packet[2], packet[3] := c / 256, c % 256;
    assert packet[..] == WithWord(zeroed, 2, c);
  }
}
