/** IPv4 CIDR blocks, with the bit operations of the code spelled out bit by bit. */
module Cidr {
  import opened Wrappers
  import opened Splitting
  import Ascii

  const IP_STR_MAX := 46
  const ALL_ONES := 0xFFFF_FFFF

  datatype Block = Block(network: nat, prefix: nat)

  datatype ParseResult = Parsed(block: Block) | Malformed | BadAddress | BadPrefix

  // ---- bit operations on words of w bits ----

  function Pow2(n: nat): (p: nat)
    ensures p >= 1
  {
    if n == 0 then 1 else 2 * Pow2(n - 1)
  }

  function BitAnd(a: nat, b: nat, w: nat): nat {
    if w == 0 then 0
    else 2 * BitAnd(a / 2, b / 2, w - 1) + if a % 2 == 1 && b % 2 == 1 then 1 else 0
  }

  function BitOr(a: nat, b: nat, w: nat): nat {
    if w == 0 then 0
    else 2 * BitOr(a / 2, b / 2, w - 1) + if a % 2 == 1 || b % 2 == 1 then 1 else 0
  }

  /** A left shift within w bits: what leaves on the left is lost. */
  function ShiftLeft(a: nat, n: nat, w: nat): nat {
    a * Pow2(n) % Pow2(w)
  }

  /** The prefix mask; a shift by all 32 bits is never made. */
  function Mask(prefix: nat): nat
    requires prefix <= 32
  {
    if prefix == 0 then 0 else ShiftLeft(ALL_ONES, 32 - prefix, 32)
  }

  function NetworkOf(address: nat, prefix: nat): nat
    requires prefix <= 32
  {
    BitAnd(address, Mask(prefix), 32)
  }

  /** Addresses in the block, counted in 64 bits so that /0 fits. */
  function HostCount(b: Block): nat {
    if b.prefix > 32 then 0 else Pow2(32 - b.prefix)
  }

  function NthAddress(b: Block, n: nat): Option<nat> {
    if HostCount(b) == 0 || n >= HostCount(b) then None else Some(BitOr(b.network, n, 32))
  }

  // ---- what the bit operations compute ----

  lemma {:induction false} Pow2Monotone(k: nat, w: nat)
    requires k <= w
    ensures Pow2(k) <= Pow2(w)
  {
    if k < w {
      Pow2Monotone(k, w - 1);
    }
  }

  lemma TimesTwo(a: nat, b: nat)
    ensures a * (2 * b) == 2 * (a * b)
  {
  }

  lemma {:induction false} Pow2Sum(m: nat, n: nat)
    ensures Pow2(m + n) == Pow2(m) * Pow2(n)
  {
    if n > 0 {
      Pow2Sum(m, n - 1);
      TimesTwo(Pow2(m), Pow2(n - 1));
    }
  }

  lemma Pow2Of32()
    ensures Pow2(32) == ALL_ONES + 1
  {
    assert Pow2(8) == 256;
    Pow2Sum(8, 8);
    Pow2Sum(16, 16);
  }

  lemma NextMultiple(m: nat, a: nat, b: nat)
    requires a < b
    ensures m * a + m <= m * b
  {
    var k := b - a - 1;
    assert m * b == m * a + m + m * k;
  }

  lemma DivisionIsUnique(a: nat, m: nat, q: nat, r: nat)
    requires m > 0 && a == m * q + r && r < m
    ensures a / m == q && a % m == r
  {
    var q' := a / m;
    assert a == m * q' + a % m;
    if q < q' {
      NextMultiple(m, q, q');
    }
    if q' < q {
      NextMultiple(m, q', q);
    }
  }

  lemma HalfMod(a: nat, p: nat)
    requires p > 0
    ensures a % (2 * p) == 2 * (a / 2 % p) + a % 2
    ensures a / (2 * p) == a / 2 / p
  {
    var h, q, r := a / 2, a / 2 / p, a / 2 % p;
    assert h == p * q + r;
    var low := 2 * r + a % 2;
    assert a == (2 * p) * q + low by {
      assert (2 * p) * q == 2 * (p * q);
    }
    DivisionIsUnique(a, 2 * p, q, low);
  }

  /** The w-bit word with zeros in the low k places and ones above. */
  function TopBits(k: nat, w: nat): nat
    requires k <= w
  {
    Pow2Monotone(k, w);
    Pow2(w) - Pow2(k)
  }

  lemma TopBitsHalves(k: nat, w: nat)
    requires k <= w && w > 0
    ensures TopBits(k, w) / 2 == TopBits(if k == 0 then 0 else k - 1, w - 1)
    ensures TopBits(k, w) % 2 == if k == 0 then 1 else 0
  {
  }

  /** ANDing with the top bits clears the low ones. */
  lemma {:induction false} AndWithTopBits(a: nat, k: nat, w: nat)
    requires k <= w && a < Pow2(w)
    ensures BitAnd(a, TopBits(k, w), w) == a - a % Pow2(k)
  {
    hide TopBits;
    if w > 0 {
      TopBitsHalves(k, w);
      if k == 0 {
        AndWithTopBits(a / 2, 0, w - 1);
      } else {
        AndWithTopBits(a / 2, k - 1, w - 1);
        HalfMod(a, Pow2(k - 1));
      }
    }
  }

  /** ORing in bits below a cleared boundary is adding them. */
  lemma {:induction false} OrIsSum(a: nat, n: nat, k: nat, w: nat)
    requires k <= w && a < Pow2(w) && a % Pow2(k) == 0 && n < Pow2(k)
    ensures BitOr(a, n, w) == a + n
  {
    if w > 0 {
      if k == 0 {
        OrIsSum(a / 2, 0, 0, w - 1);
      } else {
        HalfMod(a, Pow2(k - 1));
        OrIsSum(a / 2, n / 2, k - 1, w - 1);
      }
    }
  }

  lemma ShiftOfOnes(p: nat, q: nat)
    requires 0 < p <= q
    ensures (q - 1) * p % q == q - p
  {
    assert (q - 1) * p == q * (p - 1) + (q - p);
    DivisionIsUnique((q - 1) * p, q, p - 1, q - p);
  }

  lemma MaskIsTopBits(prefix: nat)
    requires prefix <= 32
    ensures Mask(prefix) == TopBits(32 - prefix, 32)
  {
    var k := 32 - prefix;
    Pow2Of32();
    Pow2Monotone(k, 32);
    if prefix > 0 {
      ShiftOfOnes(Pow2(k), Pow2(32));
    }
  }

  lemma NetworkIsRoundedDown(address: nat, prefix: nat)
    requires prefix <= 32 && address < Pow2(32)
    ensures NetworkOf(address, prefix) == address - address % Pow2(32 - prefix)
  {
    hide TopBits, BitAnd, Mask, Pow2;
    MaskIsTopBits(prefix);
    AndWithTopBits(address, 32 - prefix, 32);
  }

  // ---- main results ----

  /** The first `prefix` of 32 bits are the same. */
  predicate AgreeOnPrefix(a: nat, b: nat, prefix: nat)
    requires prefix <= 32
  {
    a / Pow2(32 - prefix) == b / Pow2(32 - prefix)
  }

  lemma RoundedDown(a: nat, p: nat)
    requires p > 0
    ensures a - a % p == p * (a / p) && (a - a % p) % p == 0
  {
    assert a == p * (a / p) + a % p;
    DivisionIsUnique(p * (a / p), p, a / p, 0);
  }

  lemma NthIsOffset(address: nat, prefix: nat, n: nat)
    requires prefix <= 32 && address < Pow2(32) && n < Pow2(32 - prefix)
    ensures NthAddress(Block(NetworkOf(address, prefix), prefix), n) == Some(NetworkOf(address, prefix) + n)
  {
    hide NetworkOf, BitOr, Pow2;
    NetworkIsRoundedDown(address, prefix);
    RoundedDown(address, Pow2(32 - prefix));
    OrIsSum(NetworkOf(address, prefix), n, 32 - prefix, 32);
  }

  /** The block of address/prefix, from /0 to /32, is exactly the addresses that agree with
      `address` on the prefix bits; address `a` is the one at offset a - network. */
  lemma BlockIsExact(address: nat, prefix: nat, a: nat)
    requires prefix <= 32 && address < Pow2(32) && a < Pow2(32)
    ensures var b := Block(NetworkOf(address, prefix), prefix);
            AgreeOnPrefix(a, address, prefix) <==> exists n: nat :: NthAddress(b, n) == Some(a)
  {
    hide NetworkOf, BitOr, Pow2;
    var b := Block(NetworkOf(address, prefix), prefix);
    var p := Pow2(32 - prefix);
    NetworkIsRoundedDown(address, prefix);
    RoundedDown(address, p);
    RoundedDown(a, p);
    if AgreeOnPrefix(a, address, prefix) {
      NthIsOffset(address, prefix, a % p);
      assert NthAddress(b, a % p) == Some(a);
    }
    if exists n: nat :: NthAddress(b, n) == Some(a) {
      var n: nat :| NthAddress(b, n) == Some(a);
      NthIsOffset(address, prefix, n);
      DivisionIsUnique(a, p, address / p, n);
    }
  }

  /** Rounding down below p * m leaves room for one whole block of p. */
  lemma BlockFits(a: nat, p: nat, m: nat)
    requires p > 0 && a < m * p
    ensures a - a % p + p <= m * p
  {
    RoundedDown(a, p);
    var q := a / p;
    assert m * p == p * m;
    if q < m {
      NextMultiple(p, q, m);
    } else if m < q {
      NextMultiple(p, m, q);
    }
  }

  /** Addresses come once each, in ascending order, and all fit in 32 bits. */
  lemma BlockAscends(address: nat, prefix: nat, m: nat, n: nat)
    requires prefix <= 32 && address < Pow2(32)
    requires var b := Block(NetworkOf(address, prefix), prefix); m < n < HostCount(b)
    ensures var b := Block(NetworkOf(address, prefix), prefix);
            NthAddress(b, m).value < NthAddress(b, n).value < Pow2(32)
  {
    hide NetworkOf, BitOr, Pow2;
    NthIsOffset(address, prefix, m);
    NthIsOffset(address, prefix, n);
    NetworkIsRoundedDown(address, prefix);
    Pow2Sum(prefix, 32 - prefix);
    BlockFits(address, Pow2(32 - prefix), Pow2(prefix));
  }

  // ---- the parser ----

  /** "A.B.C.D/N"; `pton` is the library's IPv4 literal parser, yielding 32-bit values. */
  method ParseBlock(spec: string, pton: string -> Option<nat>) returns (r: ParseResult)
    requires forall s :: pton(s).Some? ==> pton(s).value < Pow2(32)
    ensures var fs := Split(spec, '/');
            var usable := |fs| == 2 && 0 < |fs[0]| < IP_STR_MAX && pton(fs[0]).Some?;
            && (r == Malformed <==> |fs| != 2)
            && (r.Parsed? <==> usable && 1 <= |fs[1]| <= 2 && Ascii.AllDigits(fs[1]) && Ascii.Value(fs[1]) <= 32)
            && (r.Parsed? ==> r.block == Block(NetworkOf(pton(fs[0]).value, Ascii.Value(fs[1])), Ascii.Value(fs[1])))
            && (r == BadAddress <==> |fs| == 2 && !usable)
  {
    hide NetworkOf, Split;
    var hasSecond, suffix := FieldAt(spec, '/', 1);
    var hasThird, _ := FieldAt(spec, '/', 2);
    if !hasSecond || hasThird {
      return Malformed;
    }
    var _, addressText := FieldAt(spec, '/', 0);
    if |addressText| == 0 || |addressText| >= IP_STR_MAX {
      return BadAddress;
    }
    var address := pton(addressText);
    if address.None? {
      return BadAddress;
    }
    if |suffix| == 0 || |suffix| > 2 {
      return BadPrefix;
    }
    var prefix: nat := 0;
    for i := 0 to |suffix|
      invariant Ascii.AllDigits(suffix[..i]) && prefix == Ascii.Value(suffix[..i])
    {
      if !Ascii.IsDigit(suffix[i]) {
        return BadPrefix;
      }
      assert suffix[..i + 1][..i] == suffix[..i];
      prefix := prefix * 10 + Ascii.Digit(suffix[i]);
    }
    assert suffix[..|suffix|] == suffix;
    if prefix > 32 {
      return BadPrefix;
    }
    return Parsed(Block(NetworkOf(address.value, prefix), prefix));
  }
}
