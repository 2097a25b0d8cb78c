/** Expanding a target specification into a growable array, under a hard cap, and removing
    repeated addresses in place. */
module TargetList {
  import opened Wrappers
  import opened Splitting
  import opened Cidr
  import Ascii

  const MAX_TARGETS := 65536
  const TOKEN_MAX_LEN := 256
  const SPEC_MAX_LEN := 65536
  const SPEC_MAX_TOKENS := 8192

  datatype Target = Target(host: string, ip: string)

  datatype ListStatus = ListOk | Invalid | Unresolved | TooMany | Empty | BadFile | OutOfMemory

  datatype Resolution = Resolved(target: Target) | NotALiteral | LookupFailed

  /** The library calls: reading and printing IPv4 literals, and resolving one host. */
  datatype Library = Library(pton: string -> Option<nat>, ntop: nat -> string, resolve: string -> Resolution)

  ghost predicate IsSane(lib: Library) {
    forall s :: lib.pton(s).Some? ==> lib.pton(s).value < Pow2(32)
  }

  // ---- the growable array ----

  /** `memory` says that no allocation is refused. */
  class TargetArray {
    const memory: bool
    var items: array<Target>
    var count: nat

    ghost predicate Valid()
      reads this
    {
      count <= items.Length
    }

    ghost function Contents(): seq<Target>
      requires Valid()
      reads this, items
    {
      items[..count]
    }

    constructor (memory: bool)
      ensures Valid() && Contents() == [] && fresh(items) && this.memory == memory
    {
      this.memory := memory;
      items := new Target[0];
      count := 0;
    }

    /** Appends, doubling the capacity (from 64) when it is used up. */
    method Push(t: Target) returns (ok: bool)
      requires Valid()
      modifies this, items
      ensures Valid() && (items == old(items) || fresh(items))
      ensures memory ==> ok
      ensures Contents() == if ok then old(Contents()) + [t] else old(Contents())
    {
      if count == items.Length {
        var outOfMemory: bool := *;
        if outOfMemory && !memory {
          return false;
        }
        var capacity := if items.Length == 0 then 64 else items.Length * 2;
        var grown := new Target[capacity](_ => t);
        for i := 0 to count
          invariant items == old(items) && count == old(count) && items[..] == old(items[..])
          invariant grown[..i] == items[..i]
        {
          grown[i] := items[i];
        }
        items := grown;
      }
      items[count] := t;
      count := count + 1;
      return true;
    }
  }

  // ---- what a token, a list and the whole input stand for ----

  predicate IsSpace(c: char) {
    c == ' ' || 9 <= c as int <= 13
  }

  function TrimLeft(s: string): string {
    if s != [] && IsSpace(s[0]) then TrimLeft(s[1..]) else s
  }

  function TrimRight(s: string): string {
    if s != [] && IsSpace(s[|s| - 1]) then TrimRight(s[..|s| - 1]) else s
  }

  function Trim(s: string): string {
    TrimRight(TrimLeft(s))
  }

  /** The targets of the first `n` addresses of a block, host and address alike. */
  function BlockTargets(lib: Library, b: Block, n: nat): (ts: seq<Target>)
    requires n <= HostCount(b)
    ensures |ts| == n
  {
    if n == 0 then []
    else
      var ip := lib.ntop(NthAddress(b, n - 1).value);
      BlockTargets(lib, b, n - 1) + [Target(ip, ip)]
  }

  /** The block a text "A.B.C.D/N" denotes. */
  function BlockOf(lib: Library, text: string): (b: Option<Block>)
    ensures b.Some? ==> b.value.prefix <= 32
  {
    var fs := Split(text, '/');
    if |fs| == 2 && 0 < |fs[0]| < IP_STR_MAX && lib.pton(fs[0]).Some? &&
       1 <= |fs[1]| <= 2 && Ascii.AllDigits(fs[1]) && Ascii.Value(fs[1]) <= 32 then
      Some(Block(NetworkOf(lib.pton(fs[0]).value, Ascii.Value(fs[1])), Ascii.Value(fs[1])))
    else None
  }

  datatype Expansion = Refused(status: ListStatus) | Expanded(targets: seq<Target>)

  /** What one token expands to when `before` targets have already been collected. A block is
      judged by its size before anything of it is expanded, a host before it is looked up. */
  function ExpandOne(lib: Library, token: string, before: nat): (r: Expansion)
    ensures r.Expanded? ==> before + |r.targets| <= MAX_TARGETS
    ensures r.Refused? ==> r.status != ListOk && r.status != OutOfMemory
  {
    var text := Trim(token);
    if |text| == 0 || |text| >= TOKEN_MAX_LEN then Refused(Invalid)
    else if '/' in text then
      var b := BlockOf(lib, text);
      if b.None? then Refused(Invalid)
      else if before + HostCount(b.value) > MAX_TARGETS then Refused(TooMany)
      else Expanded(BlockTargets(lib, b.value, HostCount(b.value)))
    else if before + 1 > MAX_TARGETS then Refused(TooMany)
    else match lib.resolve(text)
      case NotALiteral => Refused(Invalid)
      case LookupFailed => Refused(Unresolved)
      case Resolved(target) => Expanded([target])
  }

  /** All tokens in order, after `before` targets from elsewhere; the first refusal is the
      answer. */
  function ExpandAll(lib: Library, tokens: seq<string>, before: nat): (r: Expansion)
    requires before <= MAX_TARGETS
    ensures r.Expanded? ==> before + |r.targets| <= MAX_TARGETS
    ensures r.Refused? ==> r.status != ListOk && r.status != OutOfMemory
  {
    if tokens == [] then Expanded([])
    else
      var front := ExpandAll(lib, tokens[..|tokens| - 1], before);
      if front.Refused? then front
      else
        var last := ExpandOne(lib, tokens[|tokens| - 1], before + |front.targets|);
        if last.Refused? then last else Expanded(front.targets + last.targets)
  }

  /** A comma-separated list: too long a text is refused unread, the 8193rd token unexpanded. */
  function ExpandList(lib: Library, spec: string): (r: Expansion)
    ensures r.Expanded? ==> |r.targets| <= MAX_TARGETS
    ensures r.Refused? ==> r.status != ListOk && r.status != OutOfMemory
  {
    var tokens := Split(spec, ',');
    if |spec| >= SPEC_MAX_LEN then Refused(Invalid)
    else if |tokens| <= SPEC_MAX_TOKENS then ExpandAll(lib, tokens, 0)
    else
      var front := ExpandAll(lib, tokens[..SPEC_MAX_TOKENS], 0);
      if front.Refused? then front else Refused(Invalid)
  }

  lemma ExpandOneMore(lib: Library, tokens: seq<string>, token: string, before: nat)
    requires before <= MAX_TARGETS && ExpandAll(lib, tokens, before).Expanded?
    ensures var front := ExpandAll(lib, tokens, before);
            var last := ExpandOne(lib, token, before + |front.targets|);
            ExpandAll(lib, tokens + [token], before) ==
            if last.Refused? then last else Expanded(front.targets + last.targets)
  {
    hide ExpandOne;
    var longer := tokens + [token];
    assert longer[..|tokens|] == tokens && longer[|tokens|] == token;
  }

  /** A refusal is final: whatever follows is not reached. */
  lemma {:induction false} RefusalIsFinal(lib: Library, tokens: seq<string>, n: nat, before: nat)
    requires before <= MAX_TARGETS && n <= |tokens| && ExpandAll(lib, tokens[..n], before).Refused?
    ensures ExpandAll(lib, tokens, before) == ExpandAll(lib, tokens[..n], before)
  {
    hide ExpandOne;
    if n < |tokens| {
      assert tokens[..|tokens| - 1][..n] == tokens[..n];
      RefusalIsFinal(lib, tokens[..|tokens| - 1], n, before);
    } else {
      assert tokens[..n] == tokens;
    }
  }

  lemma TrimmedRight(s: string, low: nat, high: nat)
    requires low < high <= |s| && IsSpace(s[high - 1])
    ensures TrimRight(s[low..high]) == TrimRight(s[low..high - 1])
  {
    var t := s[low..high];
    assert t[..high - low - 1] == s[low..high - 1];
  }

  method TrimToken(s: string) returns (t: string)
    ensures t == Trim(s)
  {
    var low, high := 0, |s|;
    assert s[0..] == s;
    while low < high && IsSpace(s[low])
      invariant low <= high == |s| && TrimLeft(s[low..]) == TrimLeft(s)
    {
      low := low + 1;
    }
    assert s[low..high] == s[low..];
    while low < high && IsSpace(s[high - 1])
      invariant low <= high <= |s| && TrimRight(s[low..high]) == TrimRight(s[low..])
    {
      TrimmedRight(s, low, high);
      high := high - 1;
    }
    return s[low..high];
  }

  lemma AddressExists(b: Block, n: nat)
    requires n < HostCount(b)
    ensures NthAddress(b, n).Some?
  {
  }

  /** Pushes every address of a block that fits. */
  method PushBlock(lib: Library, b: Block, arr: TargetArray) returns (status: ListStatus)
    requires arr.Valid() && b.prefix <= 32 && arr.count + HostCount(b) <= MAX_TARGETS
    modifies arr, arr.items
    ensures arr.Valid() && (arr.items == old(arr.items) || fresh(arr.items)) && arr.count <= MAX_TARGETS
    ensures status == ListOk || (status == OutOfMemory && !arr.memory)
    ensures status == ListOk ==> arr.Contents() == old(arr.Contents()) + BlockTargets(lib, b, HostCount(b))
  {
    hide NthAddress, Pow2;
    var hostCount := HostCount(b);
    for n := 0 to hostCount
      invariant arr.Valid() && (arr.items == old(arr.items) || fresh(arr.items))
      invariant arr.Contents() == old(arr.Contents()) + BlockTargets(lib, b, n)
    {
      AddressExists(b, n);
      var ip := lib.ntop(NthAddress(b, n).value);
      var ok := arr.Push(Target(ip, ip));
      if !ok {
        return OutOfMemory;
      }
    }
    return ListOk;
  }

  /** Expands one token onto the array. `total` is a counter of its own, tested against the
      cap and raised once per block or host; except when memory runs out within a block it
      stays equal to the length of the array. */
  method ExpandToken(lib: Library, token: string, arr: TargetArray, total: nat)
    returns (status: ListStatus, total': nat)
    requires IsSane(lib) && arr.Valid() && total == arr.count <= MAX_TARGETS
    modifies arr, arr.items
    ensures arr.Valid() && (arr.items == old(arr.items) || fresh(arr.items)) && arr.count <= MAX_TARGETS
    ensures status == OutOfMemory ==> !arr.memory && total' == total
    ensures var r := ExpandOne(lib, token, total);
            status != OutOfMemory ==>
              && status == (if r.Refused? then r.status else ListOk)
              && arr.Contents() == old(arr.Contents()) + (if r.Refused? then [] else r.targets)
              && total' == arr.count
  {
    hide NetworkOf, Split, NthAddress, Pow2;
    total' := total;
    var text := TrimToken(token);
    if |text| == 0 || |text| >= TOKEN_MAX_LEN {
      return Invalid, total';
    }
    if '/' in text {
      var parsed := ParseBlock(text, lib.pton);
      if !parsed.Parsed? {
        return Invalid, total';
      }
      assert BlockOf(lib, text) == Some(parsed.block);
      var hostCount := HostCount(parsed.block);
      if hostCount == 0 || total' + hostCount > MAX_TARGETS {
        return TooMany, total';
      }
      status := PushBlock(lib, parsed.block, arr);
      if status != ListOk {
        return status, total';
      }
      return ListOk, total' + hostCount;
    }
    if total' + 1 > MAX_TARGETS {
      return TooMany, total';
    }
    var resolution := lib.resolve(text);
    match resolution {
      case NotALiteral => return Invalid, total';
      case LookupFailed => return Unresolved, total';
      case Resolved(target) =>
        var ok := arr.Push(target);
        if !ok {
          return OutOfMemory, total';
        }
        return ListOk, total' + 1;
    }
  }

  lemma NothingExpanded(lib: Library, before: nat)
    requires before <= MAX_TARGETS
    ensures ExpandAll(lib, [], before) == Expanded([])
  {
  }

  lemma ListCases(lib: Library, spec: string)
    ensures var tokens := Split(spec, ',');
            ExpandList(lib, spec) ==
            if |spec| >= SPEC_MAX_LEN then Refused(Invalid)
            else if |tokens| <= SPEC_MAX_TOKENS then ExpandAll(lib, tokens, 0)
            else
              var front := ExpandAll(lib, tokens[..SPEC_MAX_TOKENS], 0);
              if front.Refused? then front else Refused(Invalid)
  {
    hide ExpandAll, Split;
  }

  /** A token refused among the first 8192 of a list refuses the list. */
  lemma RefusedInList(lib: Library, spec: string, n: nat)
    requires |spec| < SPEC_MAX_LEN && n <= |Split(spec, ',')| && n <= SPEC_MAX_TOKENS
    requires ExpandAll(lib, Split(spec, ',')[..n], 0).Refused?
    ensures ExpandList(lib, spec) == ExpandAll(lib, Split(spec, ',')[..n], 0)
  {
    hide ExpandAll, Split;
    var all := Split(spec, ',');
    if |all| <= SPEC_MAX_TOKENS {
      RefusalIsFinal(lib, all, n, 0);
    } else {
      assert all[..SPEC_MAX_TOKENS][..n] == all[..n];
      RefusalIsFinal(lib, all[..SPEC_MAX_TOKENS], n, 0);
    }
  }

  /** Expands a comma-separated list, token by token. */
  method ExpandSpec(lib: Library, spec: string, arr: TargetArray) returns (status: ListStatus, total: nat)
    requires IsSane(lib) && arr.Valid() && arr.Contents() == []
    modifies arr, arr.items
    ensures arr.Valid() && (arr.items == old(arr.items) || fresh(arr.items)) && arr.count <= MAX_TARGETS
    ensures status == OutOfMemory ==> !arr.memory
    ensures var r := ExpandList(lib, spec);
            status != OutOfMemory ==>
              && total == arr.count
              && if r.Refused? then status == r.status else status == ListOk && arr.Contents() == r.targets
  {
    hide Split, ExpandOne, ExpandAll, ExpandList;
    ghost var all := Split(spec, ',');
    ListCases(lib, spec);
    total := 0;
    if |spec| >= SPEC_MAX_LEN {
      return Invalid, total;
    }
    ghost var tokens: seq<string> := [];
    var start, i, tokenCount := 0, 0, 0;
    assert spec[0..] == spec;
    NothingExpanded(lib, 0);
    while true
      invariant start == i <= |spec| && tokenCount == |tokens| <= SPEC_MAX_TOKENS
      invariant arr.Valid() && (arr.items == old(arr.items) || fresh(arr.items)) && total == arr.count <= MAX_TARGETS
      invariant all == tokens + Split(spec[start..], ',')
      invariant ExpandAll(lib, tokens, 0) == Expanded(arr.Contents())
      decreases |spec| - i
    {
      while i < |spec| && spec[i] != ','
        invariant start <= i <= |spec| && Lacks(spec[start..i], ',')
      {
        assert spec[start..i + 1] == spec[start..i] + [spec[i]];
        i := i + 1;
      }
      NextField(spec, ',', tokens, start, i);
      var token := spec[start..i];
      tokenCount := tokenCount + 1;
      if tokenCount > SPEC_MAX_TOKENS {
        assert all[..SPEC_MAX_TOKENS] == tokens;
        return Invalid, total;
      }
      status, total := ExpandToken(lib, token, arr, total);
      if status == OutOfMemory {
        return;
      }
      ExpandOneMore(lib, tokens, token, 0);
      tokens := tokens + [token];
      if status != ListOk {
        assert all[..|tokens|] == tokens;
        RefusedInList(lib, spec, |tokens|);
        return;
      }
      if i >= |spec| {
        return ListOk, total;
      }
      i := i + 1;
      start := i;
    }
  }

  // ---- removing repeated addresses ----

  predicate HasIp(ts: seq<Target>, ip: string) {
    exists i :: 0 <= i < |ts| && ts[i].ip == ip
  }

  /** Keeps the first target of every address, in the original order. */
  function FirstPerIp(ts: seq<Target>): seq<Target> {
    if ts == [] then []
    else
      var front, last := ts[..|ts| - 1], ts[|ts| - 1];
      FirstPerIp(front) + if HasIp(front, last.ip) then [] else [last]
  }

  /** Whether no earlier target has the same address. */
  ghost predicate IsFirst(ts: seq<Target>, i: nat)
    requires i < |ts|
  {
    forall j :: 0 <= j < i ==> ts[j].ip != ts[i].ip
  }

  datatype Key = Key(ip: string, idx: nat)

  function CompareKeys(a: Key, b: Key): int {
    if Ascii.Lex(a.ip, b.ip) != 0 then Ascii.Lex(a.ip, b.ip)
    else if a.idx < b.idx then -1
    else if a.idx > b.idx then 1
    else 0
  }

  ghost predicate IsAscending(ks: seq<Key>) {
    forall i, j :: 0 <= i < j < |ks| ==> CompareKeys(ks[i], ks[j]) < 0
  }

  lemma CompareKeysIsOrder(a: Key, b: Key, c: Key)
    ensures CompareKeys(a, b) == 0 <==> a == b
    ensures CompareKeys(a, b) > 0 <==> CompareKeys(b, a) < 0
    ensures CompareKeys(a, b) < 0 && CompareKeys(b, c) < 0 ==> CompareKeys(a, c) < 0
  {
    Ascii.LexMirror(a.ip, b.ip);
    Ascii.LexMirror(b.ip, c.ip);
    Ascii.LexMirror(a.ip, c.ip);
    if Ascii.Lex(a.ip, b.ip) <= 0 && Ascii.Lex(b.ip, c.ip) <= 0 {
      Ascii.LexTransitive(a.ip, b.ip, c.ip);
    }
  }

  method InsertKey(sorted: seq<Key>, key: Key) returns (r: seq<Key>)
    requires IsAscending(sorted) && key !in sorted
    ensures IsAscending(r) && |r| == |sorted| + 1
    ensures forall k :: k in r <==> k in sorted || k == key
  {
    hide CompareKeys;
    var p := 0;
    while p < |sorted| && CompareKeys(sorted[p], key) < 0
      invariant p <= |sorted|
      invariant forall i :: 0 <= i < p ==> CompareKeys(sorted[i], key) < 0
    {
      p := p + 1;
    }
    r := sorted[..p] + [key] + sorted[p..];
    forall i | p <= i < |sorted|
      ensures CompareKeys(key, sorted[i]) < 0
    {
      CompareKeysIsOrder(sorted[p], key, key);
      CompareKeysIsOrder(key, sorted[p], sorted[i]);
    }
  }

  /** What the library sort promises: the same keys, ascending. */
  method SortKeys(keys: seq<Key>) returns (sorted: seq<Key>)
    requires forall i, j :: 0 <= i < j < |keys| ==> keys[i] != keys[j]
    ensures |sorted| == |keys| && IsAscending(sorted)
    ensures forall k :: k in sorted <==> k in keys
  {
    sorted := [];
    for i := 0 to |keys|
      invariant |sorted| == i && IsAscending(sorted)
      invariant forall k :: k in sorted <==> k in keys[..i]
    {
      assert keys[..i + 1] == keys[..i] + [keys[i]];
      sorted := InsertKey(sorted, keys[i]);
    }
    assert keys[..|keys|] == keys;
  }

  ghost predicate AreKeysOf(keys: seq<Key>, ts: seq<Target>) {
    && (forall i :: 0 <= i < |keys| ==> keys[i].idx < |ts| && keys[i].ip == ts[keys[i].idx].ip)
    && (forall x :: 0 <= x < |ts| ==> Key(ts[x].ip, x) in keys)
  }

  lemma SameIpByIndex(a: Key, b: Key)
    requires a.ip == b.ip && a.idx < b.idx
    ensures CompareKeys(a, b) < 0
  {
    Ascii.LexMirror(a.ip, b.ip);
  }

  lemma BetweenSameIp(a: Key, m: Key, b: Key)
    requires a.ip == b.ip && CompareKeys(a, m) < 0 && CompareKeys(m, b) < 0
    ensures m.ip == a.ip
  {
    Ascii.LexMirror(a.ip, m.ip);
    Ascii.LexMirror(m.ip, b.ip);
  }

  lemma EarlierKeyOfRun(keys: seq<Key>, q: nat, p: nat)
    requires IsAscending(keys) && q < |keys| && p < |keys|
    requires keys[q].ip == keys[p].ip && keys[q].idx < keys[p].idx
    ensures 0 < p && keys[p - 1].ip == keys[p].ip
  {
    hide CompareKeys;
    var a, b := keys[q], keys[p];
    SameIpByIndex(a, b);
    CompareKeysIsOrder(a, b, b);
    assert CompareKeys(a, b) < 0 && !(CompareKeys(b, a) < 0);
    if q < p - 1 {
      BetweenSameIp(a, keys[p - 1], b);
    }
  }

  /** In the sorted keys the first of a run of equal addresses is the earliest target. */
  lemma RunHeadIsFirst(keys: seq<Key>, ts: seq<Target>, p: nat)
    requires IsAscending(keys) && AreKeysOf(keys, ts) && p < |keys|
    ensures (p == 0 || keys[p].ip != keys[p - 1].ip) <==> IsFirst(ts, keys[p].idx)
  {
    var x := keys[p].idx;
    Ascii.LexMirror(keys[p].ip, keys[p].ip);
    if p > 0 && keys[p].ip == keys[p - 1].ip {
      assert CompareKeys(keys[p - 1], keys[p]) < 0;
      assert ts[keys[p - 1].idx].ip == ts[x].ip;
    } else if exists y :: 0 <= y < x && ts[y].ip == ts[x].ip {
      var y :| 0 <= y < x && ts[y].ip == ts[x].ip;
      var q :| 0 <= q < |keys| && keys[q] == Key(ts[y].ip, y);
      EarlierKeyOfRun(keys, q, p);
    }
  }

  /** keep[x] is set for the target at the head of every run of equal addresses. */
  method MarkRunHeads(sorted: seq<Key>, ghost ts: seq<Target>) returns (keep: array<bool>)
    requires IsAscending(sorted) && AreKeysOf(sorted, ts) && |sorted| == |ts|
    ensures fresh(keep) && keep.Length == |ts|
    ensures forall x :: 0 <= x < |ts| ==> (keep[x] <==> IsFirst(ts, x))
  {
    hide IsAscending, IsFirst;
    var n := |sorted|;
    keep := new bool[n](_ => false);
    for i := 0 to n
      invariant forall x :: 0 <= x < n ==> (keep[x] <==> IsFirst(ts, x) && Key(ts[x].ip, x) in sorted[..i])
    {
      assert sorted[..i + 1] == sorted[..i] + [sorted[i]];
      RunHeadIsFirst(sorted, ts, i);
      if i == 0 || sorted[i].ip != sorted[i - 1].ip {
        keep[sorted[i].idx] := true;
      }
    }
    assert sorted[..n] == sorted;
  }

  lemma ShortIsDistinct(ts: seq<Target>)
    requires |ts| <= 1
    ensures FirstPerIp(ts) == ts
  {
    if |ts| == 1 {
      assert ts[..0] == [];
      assert ts == [ts[0]];
    }
  }

  lemma KeysSurviveSorting(keys: seq<Key>, sorted: seq<Key>, ts: seq<Target>)
    requires |keys| == |ts| && forall j :: 0 <= j < |ts| ==> keys[j] == Key(ts[j].ip, j)
    requires forall k :: k in sorted <==> k in keys
    ensures AreKeysOf(sorted, ts)
  {
    forall i | 0 <= i < |sorted|
      ensures sorted[i].idx < |ts| && sorted[i].ip == ts[sorted[i].idx].ip
    {
      assert sorted[i] in keys;
    }
    forall x | 0 <= x < |ts|
      ensures Key(ts[x].ip, x) in sorted
    {
      assert keys[x] in keys;
    }
  }

  lemma FirstPerIpStep(ts: seq<Target>, i: nat)
    requires i < |ts|
    ensures FirstPerIp(ts[..i + 1]) == FirstPerIp(ts[..i]) + if IsFirst(ts, i) then [ts[i]] else []
  {
    var front := ts[..i];
    assert ts[..i + 1][..i] == front;
    if !IsFirst(ts, i) {
      var j :| 0 <= j < i && ts[j].ip == ts[i].ip;
      assert front[j].ip == ts[i].ip;
    }
  }

  method Compact(arr: TargetArray, keep: array<bool>, ghost ts: seq<Target>)
    requires arr.Valid() && arr.Contents() == ts && keep.Length == arr.count
    requires forall x :: 0 <= x < |ts| ==> (keep[x] <==> IsFirst(ts, x))
    modifies arr, arr.items
    ensures arr.Valid() && arr.items == old(arr.items) && arr.Contents() == FirstPerIp(ts)
  {
    hide FirstPerIp, IsFirst;
    var n := arr.count;
    var w := 0;
    ShortIsDistinct(ts[..0]);
    for i := 0 to n
      invariant w <= i && arr.count == n && arr.items == old(arr.items)
      invariant arr.items[..w] == FirstPerIp(ts[..i])
      invariant forall j :: i <= j < n ==> arr.items[j] == ts[j]
      invariant forall x :: 0 <= x < |ts| ==> (keep[x] <==> IsFirst(ts, x))
    {
      FirstPerIpStep(ts, i);
      if keep[i] {
        if w != i {
          arr.items[w] := arr.items[i];
        }
        w := w + 1;
      }
    }
    assert ts[..n] == ts;
    arr.count := w;
  }

  /** Removes repeated addresses in place: sort (address, index) keys, mark the head of every
      run, then slide the marked targets down. */
  method Dedup(arr: TargetArray)
    requires arr.Valid()
    modifies arr, arr.items
    ensures arr.Valid() && arr.items == old(arr.items)
    ensures arr.Contents() == FirstPerIp(old(arr.Contents()))
  {
    hide IsAscending;
    var n := arr.count;
    ghost var ts := arr.Contents();
    if n <= 1 {
      ShortIsDistinct(ts);
      return;
    }
    var keys: seq<Key> := [];
    for i := 0 to n
      invariant |keys| == i && forall j :: 0 <= j < i ==> keys[j] == Key(ts[j].ip, j)
    {
      keys := keys + [Key(arr.items[i].ip, i)];
    }
    var sorted := SortKeys(keys);
    KeysSurviveSorting(keys, sorted, ts);
    var keep := MarkRunHeads(sorted, ts);
    Compact(arr, keep, ts);
  }

  // ---- what the filter keeps ----

  lemma HasIpOfSnoc(ts: seq<Target>, t: Target, ip: string)
    ensures HasIp(ts + [t], ip) <==> HasIp(ts, ip) || t.ip == ip
  {
    var longer := ts + [t];
    if HasIp(ts, ip) {
      var i :| 0 <= i < |ts| && ts[i].ip == ip;
      assert longer[i].ip == ip;
    }
    if t.ip == ip {
      assert longer[|ts|].ip == ip;
    }
  }

  /** Every address is kept, once, by its first target, and nothing is reordered. */
  lemma {:induction false} FirstPerIpKeepsEachOnce(ts: seq<Target>)
    ensures forall ip :: HasIp(FirstPerIp(ts), ip) <==> HasIp(ts, ip)
    ensures forall i, j :: 0 <= i < j < |FirstPerIp(ts)| ==> FirstPerIp(ts)[i].ip != FirstPerIp(ts)[j].ip
  {
    if ts != [] {
      var front, last := ts[..|ts| - 1], ts[|ts| - 1];
      var kept := FirstPerIp(front);
      FirstPerIpKeepsEachOnce(front);
      assert front + [last] == ts;
      forall ip
        ensures HasIp(ts, ip) <==> HasIp(front, ip) || last.ip == ip
        ensures HasIp(kept + [last], ip) <==> HasIp(kept, ip) || last.ip == ip
      {
        HasIpOfSnoc(front, last, ip);
        HasIpOfSnoc(kept, last, ip);
      }
      if HasIp(front, last.ip) {
        assert FirstPerIp(ts) == kept + [] == kept;
      } else {
        assert FirstPerIp(ts) == kept + [last];
        assert !HasIp(kept, last.ip);
      }
    }
  }

  ghost predicate IsEarliest(ts: seq<Target>, t: Target) {
    exists i :: 0 <= i < |ts| && ts[i] == t && IsFirst(ts, i)
  }

  lemma EarliestOfSnoc(front: seq<Target>, last: Target, t: Target)
    ensures IsEarliest(front + [last], t) <==> IsEarliest(front, t) || (t == last && !HasIp(front, last.ip))
  {
    var ts := front + [last];
    if IsEarliest(front, t) {
      var i :| 0 <= i < |front| && front[i] == t && IsFirst(front, i);
      assert ts[i] == t && IsFirst(ts, i);
    }
    if t == last && !HasIp(front, last.ip) {
      assert ts[|front|] == t && IsFirst(ts, |front|);
    }
    if IsEarliest(ts, t) {
      var i :| 0 <= i < |ts| && ts[i] == t && IsFirst(ts, i);
      assert forall j :: 0 <= j < |front| ==> ts[j] == front[j];
      assert i < |front| ==> IsFirst(front, i);
    }
  }

  lemma NothingIsEarliest(t: Target)
    ensures !IsEarliest([], t)
  {
  }

  /** What is kept is exactly the earliest target of each address. */
  lemma {:induction false} FirstPerIpKeepsFirsts(ts: seq<Target>, t: Target)
    ensures t in FirstPerIp(ts) <==> IsEarliest(ts, t)
  {
    hide HasIp, IsEarliest;
    if ts == [] {
      NothingIsEarliest(t);
    } else {
      var front, last := ts[..|ts| - 1], ts[|ts| - 1];
      FirstPerIpKeepsFirsts(front, t);
      EarliestOfSnoc(front, last, t);
      assert ts == front + [last];
    }
  }

  // ---- the whole parse ----

  /** Where targets come from besides the specification: no file, a file that could not be
      read, or the lines of one. */
  datatype TargetsFile = NoFile | Unreadable | Lines(lines: seq<string>)

  /** The expansion of a specification, then of a file, before repeated addresses go. */
  function ExpandInput(lib: Library, spec: string, file: TargetsFile): (r: Expansion)
    ensures r.Expanded? ==> 0 < |r.targets| <= MAX_TARGETS
    ensures r.Refused? ==> r.status != ListOk && r.status != OutOfMemory
  {
    if spec == [] && file.NoFile? then Refused(Empty)
    else
      var fromSpec := if spec == [] then Expanded([]) else ExpandList(lib, spec);
      if fromSpec.Refused? then fromSpec
      else if file.Unreadable? then Refused(BadFile)
      else
        var fromFile := ExpandAll(lib, if file.Lines? then file.lines else [], |fromSpec.targets|);
        if fromFile.Refused? then fromFile
        else if fromSpec.targets + fromFile.targets == [] then Refused(Empty)
        else Expanded(fromSpec.targets + fromFile.targets)
  }

  method ExpandLines(lib: Library, lines: seq<string>, arr: TargetArray, before: nat)
    returns (status: ListStatus, total: nat)
    requires IsSane(lib) && arr.Valid() && before == arr.count <= MAX_TARGETS
    modifies arr, arr.items
    ensures arr.Valid() && (arr.items == old(arr.items) || fresh(arr.items)) && arr.count <= MAX_TARGETS
    ensures status == OutOfMemory ==> !arr.memory
    ensures var r := ExpandAll(lib, lines, before);
            status != OutOfMemory ==>
              && total == arr.count
              && if r.Refused? then status == r.status
                 else status == ListOk && arr.Contents() == old(arr.Contents()) + r.targets
  {
    hide ExpandOne, ExpandAll;
    total := before;
    NothingExpanded(lib, before);
    for i := 0 to |lines|
      invariant arr.Valid() && (arr.items == old(arr.items) || fresh(arr.items)) && total == arr.count <= MAX_TARGETS
      invariant var r := ExpandAll(lib, lines[..i], before);
                r.Expanded? && arr.Contents() == old(arr.Contents()) + r.targets
    {
      status, total := ExpandToken(lib, lines[i], arr, total);
      if status == OutOfMemory {
        return;
      }
      ExpandOneMore(lib, lines[..i], lines[i], before);
      assert lines[..i + 1] == lines[..i] + [lines[i]];
      if status != ListOk {
        RefusalIsFinal(lib, lines, i + 1, before);
        return;
      }
    }
    assert lines[..|lines|] == lines;
    return ListOk, total;
  }

  method ParseTargets(lib: Library, spec: string, file: TargetsFile, memory: bool)
    returns (status: ListStatus, targets: seq<Target>)
    requires IsSane(lib)
    ensures status == OutOfMemory ==> !memory && targets == []
    ensures var r := ExpandInput(lib, spec, file);
            status != OutOfMemory ==>
              && status == (if r.Refused? then r.status else ListOk)
              && targets == (if r.Refused? then [] else FirstPerIp(r.targets))
  {
    hide Split, ExpandOne, ExpandAll, ExpandList, FirstPerIp;
    if spec == [] && file.NoFile? {
      return Empty, [];
    }
    var arr := new TargetArray(memory);
    var total := 0;
    if spec != [] {
      status, total := ExpandSpec(lib, spec, arr);
      if status != ListOk {
        return status, [];
      }
    }
    ghost var fromSpec := arr.Contents();
    NothingExpanded(lib, |fromSpec|);
    if file.Unreadable? {
      return BadFile, [];
    }
    if file.Lines? {
      status, total := ExpandLines(lib, file.lines, arr, total);
      if status != ListOk {
        return status, [];
      }
    }
    if total == 0 {
      return Empty, [];
    }
    var sorts: bool := *;
    if !sorts && !memory {
      return OutOfMemory, [];
    }
    assert arr.Contents() == ExpandInput(lib, spec, file).targets by {
      assert fromSpec + [] == fromSpec;
    }
    Dedup(arr);
    return ListOk, arr.items[..arr.count];
  }

  // ---- what a specification stands for, address by address ----

  ghost predicate IsBlank(s: string) {
    forall i :: 0 <= i < |s| ==> s[i] in {' ', 9 as char, 10 as char, 11 as char, 12 as char, 13 as char}
  }

  lemma {:induction false} LeftBlanksGo(left: string, x: string)
    requires IsBlank(left) && (x == [] || !IsSpace(x[0]))
    ensures TrimLeft(left + x) == x
  {
    if left == [] {
      assert left + x == x;
    } else {
      assert (left + x)[1..] == left[1..] + x;
      LeftBlanksGo(left[1..], x);
    }
  }

  lemma {:induction false} RightBlanksGo(x: string, right: string)
    requires IsBlank(right) && (x == [] || !IsSpace(x[|x| - 1]))
    ensures TrimRight(x + right) == x
  {
    if right == [] {
      assert x + right == x;
    } else {
      var n := |right| - 1;
      assert (x + right)[..|x| + n] == x + right[..n];
      RightBlanksGo(x, right[..n]);
    }
  }

  lemma SpaceIsBlank(c: char)
    requires IsSpace(c)
    ensures IsBlank([c])
  {
    var n := c as int;
    assert c == n as char;
  }

  /** Blanks around a text go, and nothing else. */
  lemma TrimExactly(left: string, x: string, right: string)
    requires IsBlank(left) && IsBlank(right)
    requires x != [] && !IsBlank([x[0]]) && !IsBlank([x[|x| - 1]])
    ensures Trim(left + (x + right)) == x
  {
    assert !IsSpace(x[0]) by {
      if IsSpace(x[0]) {
        SpaceIsBlank(x[0]);
      }
    }
    assert !IsSpace(x[|x| - 1]) by {
      if IsSpace(x[|x| - 1]) {
        SpaceIsBlank(x[|x| - 1]);
      }
    }
    LeftBlanksGo(left, x + right);
    RightBlanksGo(x, right);
  }

  lemma {:induction false} BlockTargetAt(lib: Library, address: nat, b: Block, size: nat, n: nat, i: nat)
    requires b.prefix <= 32 && address < Pow2(32) && size == Pow2(32 - b.prefix) && i < n <= size
    requires b.network == address - address % size
    ensures var ip := lib.ntop(b.network + i); BlockTargets(lib, b, n)[i] == Target(ip, ip)
  {
    hide NetworkOf, Pow2, NthAddress;
    if i == n - 1 {
      NthIsOffset(address, b.prefix, i);
      NetworkIsRoundedDown(address, b.prefix);
    } else {
      BlockTargetAt(lib, address, b, size, n - 1, i);
    }
  }

  /** The text of a block: an address that can be read, a slash, a prefix length. */
  ghost predicate IsBlockText(lib: Library, a: string, address: nat, p: string) {
    && 0 < |a| < IP_STR_MAX && Lacks(a, '/') && lib.pton(a) == Some(address) && address < Pow2(32)
    && 1 <= |p| <= 2 && Ascii.AllDigits(p) && Ascii.Value(p) <= 32
  }

  lemma BlockTextIsRead(lib: Library, a: string, address: nat, p: string)
    requires IsBlockText(lib, a, address, p)
    ensures var prefix := Ascii.Value(p);
            '/' in a + ("/" + p) && |a + ("/" + p)| < TOKEN_MAX_LEN &&
            BlockOf(lib, a + ("/" + p)) == Some(Block(NetworkOf(address, prefix), prefix))
  {
    hide NetworkOf, Split, Ascii.Value, Pow2;
    SplitOfCons(a, p, '/');
    SplitOfField(p, '/');
    assert (a + ("/" + p))[|a|] == '/';
  }

  /** The addresses of a block, in order: those from the one rounded down to a multiple of the
      size on, each its own host. */
  ghost predicate AreBlockTargets(lib: Library, address: nat, size: nat, ts: seq<Target>)
    requires size > 0
  {
    |ts| == size &&
    forall i :: 0 <= i < size ==> var ip := lib.ntop(address - address % size + i); ts[i] == Target(ip, ip)
  }

  lemma DigitIsNotBlank(c: char)
    requires Ascii.IsDigit(c)
    ensures !IsBlank([c])
  {
    assert [c][0] == c;
  }

  /** A block token, with blanks around it, expands to all its addresses, or to nothing when
      they would not fit under the cap. */
  lemma BlockTokenExactly(lib: Library, left: string, a: string, address: nat, p: string, right: string, before: nat)
    requires IsBlockText(lib, a, address, p) && IsBlank(left) && IsBlank(right) && !IsBlank([a[0]])
    ensures var size := Pow2(32 - Ascii.Value(p));
            var r := ExpandOne(lib, left + (a + ("/" + p) + right), before);
            if before + size > 65536 then r == Refused(TooMany)
            else r.Expanded? && AreBlockTargets(lib, address, size, r.targets)
  {
    hide NetworkOf, Split, Ascii.Value, Pow2, Trim, BlockTargets, BlockOf, IsBlank;
    var text, prefix := a + ("/" + p), Ascii.Value(p);
    DigitIsNotBlank(p[|p| - 1]);
    assert text[0] == a[0] && text[|text| - 1] == p[|p| - 1];
    TrimExactly(left, text, right);
    BlockTextIsRead(lib, a, address, p);
    var size := Pow2(32 - prefix);
    NetworkIsRoundedDown(address, prefix);
    forall i | 0 <= i < size {
      BlockTargetAt(lib, address, Block(NetworkOf(address, prefix), prefix), size, size, i);
    }
  }

  lemma OffsetIsInBlock(address: nat, size: nat, i: nat)
    requires i < size
    ensures address >= address % size && (address - address % size + i) / size == address / size
  {
    RoundedDown(address, size);
    DivisionIsUnique(address - address % size + i, size, address / size, i);
  }

  lemma BlockHasOffset(address: nat, size: nat, x: nat)
    requires size > 0 && x / size == address / size
    ensures x == address - address % size + x % size && x % size < size
  {
    RoundedDown(address, size);
    RoundedDown(x, size);
  }

  /** Which addresses a block stands for: exactly those that agree with its address on the
      prefix bits. */
  lemma BlockAddressesExactly(lib: Library, address: nat, prefix: nat, ts: seq<Target>, ip: string)
    requires prefix <= 32 && address < Pow2(32) && AreBlockTargets(lib, address, Pow2(32 - prefix), ts)
    ensures HasIp(ts, ip) <==>
            exists x: nat :: x / Pow2(32 - prefix) == address / Pow2(32 - prefix) && lib.ntop(x) == ip
  {
    hide Pow2;
    var size := Pow2(32 - prefix);
    if i :| 0 <= i < |ts| && ts[i].ip == ip {
      OffsetIsInBlock(address, size, i);
      assert lib.ntop(address - address % size + i) == ip;
    }
    if x: nat :| x / size == address / size && lib.ntop(x) == ip {
      BlockHasOffset(address, size, x);
      assert ts[x % size].ip == ip;
    }
  }

  /** A token that is no block stands for the one target its host resolves to. */
  lemma HostTokenExactly(lib: Library, left: string, host: string, right: string, before: nat)
    requires host != [] && '/' !in host && |host| < 256 && IsBlank(left) && IsBlank(right)
    requires !IsBlank([host[0]]) && !IsBlank([host[|host| - 1]])
    ensures var r := ExpandOne(lib, left + (host + right), before);
            if before >= 65536 then r == Refused(TooMany)
            else match lib.resolve(host)
              case Resolved(target) => r == Expanded([target])
              case NotALiteral => r == Refused(Invalid)
              case LookupFailed => r == Refused(Unresolved)
  {
    hide Trim, IsBlank, BlockOf, BlockTargets;
    TrimExactly(left, host, right);
  }

  lemma RoomChangesNothing(lib: Library, token: string, before: nat)
    requires ExpandOne(lib, token, before).Expanded?
    ensures ExpandOne(lib, token, 0) == ExpandOne(lib, token, before)
  {
    hide Trim, BlockOf, BlockTargets, HostCount;
  }

  ghost predicate TokenMeans(lib: Library, token: string, ip: string) {
    var r := ExpandOne(lib, token, 0);
    r.Expanded? && HasIp(r.targets, ip)
  }

  /** One of the tokens stands for the address. */
  ghost predicate SomeTokenMeans(lib: Library, tokens: seq<string>, ip: string) {
    exists i :: 0 <= i < |tokens| && TokenMeans(lib, tokens[i], ip)
  }

  lemma SomeTokenOfSnoc(lib: Library, tokens: seq<string>, token: string, ip: string)
    ensures SomeTokenMeans(lib, tokens + [token], ip) <==> SomeTokenMeans(lib, tokens, ip) || TokenMeans(lib, token, ip)
  {
    hide TokenMeans;
    var longer := tokens + [token];
    assert longer[|tokens|] == token;
    if i :| 0 <= i < |tokens| && TokenMeans(lib, tokens[i], ip) {
      assert longer[i] == tokens[i];
    }
    if i :| 0 <= i < |longer| && TokenMeans(lib, longer[i], ip) {
      assert i < |tokens| ==> longer[i] == tokens[i];
    }
  }

  lemma HasIpOfConcat(a: seq<Target>, b: seq<Target>, ip: string)
    ensures HasIp(a + b, ip) <==> HasIp(a, ip) || HasIp(b, ip)
  {
    if i :| 0 <= i < |a| && a[i].ip == ip {
      assert (a + b)[i].ip == ip;
    }
    if i :| 0 <= i < |b| && b[i].ip == ip {
      assert (a + b)[|a| + i].ip == ip;
    }
    if i :| 0 <= i < |a + b| && (a + b)[i].ip == ip {
      assert i >= |a| ==> b[i - |a|].ip == ip;
    }
  }

  lemma NothingIsMeant(lib: Library, ip: string)
    ensures !HasIp([], ip) && !SomeTokenMeans(lib, [], ip)
  {
  }

  lemma {:induction false} ExpansionMeansTokens(lib: Library, tokens: seq<string>, before: nat, ip: string)
    requires before <= MAX_TARGETS && ExpandAll(lib, tokens, before).Expanded?
    ensures HasIp(ExpandAll(lib, tokens, before).targets, ip) <==> SomeTokenMeans(lib, tokens, ip)
  {
    hide ExpandOne, HasIp, SomeTokenMeans;
    if tokens == [] {
      NothingIsMeant(lib, ip);
    } else {
      var front, token := tokens[..|tokens| - 1], tokens[|tokens| - 1];
      var first := ExpandAll(lib, front, before).targets;
      ExpansionMeansTokens(lib, front, before, ip);
      RoomChangesNothing(lib, token, before + |first|);
      HasIpOfConcat(first, ExpandOne(lib, token, before + |first|).targets, ip);
      SomeTokenOfSnoc(lib, front, token, ip);
      assert front + [token] == tokens;
    }
  }

  lemma BlanksTrimAway(left: string, right: string)
    requires IsBlank(left) && IsBlank(right)
    ensures Trim(left + right) == ""
  {
    var s := left + right;
    assert IsBlank(s);
    assert s + "" == s;
    LeftBlanksGo(s, "");
  }

  lemma BlockOfReads(lib: Library, text: string)
    requires BlockOf(lib, text).Some? && IsSane(lib)
    ensures exists a, address, p :: text == a + ("/" + p) && IsBlockText(lib, a, address, p)
  {
    hide NetworkOf, Split, Ascii.Value, Pow2;
    JoinOfSplit(text, '/');
    var fs := Split(text, '/');
    assert Join(fs, '/') == fs[0] + (['/'] + Join(fs[1..], '/'));
    assert fs[1..] == [fs[1]];
    assert text == fs[0] + ("/" + fs[1]) && IsBlockText(lib, fs[0], lib.pton(fs[0]).value, fs[1]);
  }

  /** A token of blanks alone, a token of 256 characters or more, and a token with a slash that is
      not the text of a block are refused as invalid. */
  lemma BadTokenIsInvalid(lib: Library, left: string, text: string, right: string, before: nat)
    requires IsBlank(left) && IsBlank(right)
    requires text == "" || (!IsBlank([text[0]]) && !IsBlank([text[|text| - 1]]))
    requires text == "" || |text| >= 256 ||
             ('/' in text && forall a, address, p :: text == a + ("/" + p) ==> !IsBlockText(lib, a, address, p))
    requires IsSane(lib)
    ensures ExpandOne(lib, left + (text + right), before) == Refused(Invalid)
  {
    hide NetworkOf, Split, Ascii.Value, Pow2, Trim, BlockTargets, IsBlank;
    if text == "" {
      BlanksTrimAway(left, right);
      assert text + right == right;
    } else {
      TrimExactly(left, text, right);
      if |text| < 256 && BlockOf(lib, text).Some? {
        BlockOfReads(lib, text);
      }
    }
  }

  lemma SomeTokenOfConcat(lib: Library, a: seq<string>, b: seq<string>, ip: string)
    ensures SomeTokenMeans(lib, a + b, ip) <==> SomeTokenMeans(lib, a, ip) || SomeTokenMeans(lib, b, ip)
  {
    hide TokenMeans;
    if i :| 0 <= i < |a| && TokenMeans(lib, a[i], ip) {
      assert (a + b)[i] == a[i];
    }
    if i :| 0 <= i < |b| && TokenMeans(lib, b[i], ip) {
      assert (a + b)[|a| + i] == b[i];
    }
    if i :| 0 <= i < |a + b| && TokenMeans(lib, (a + b)[i], ip) {
      assert i < |a| ==> (a + b)[i] == a[i];
      assert i >= |a| ==> (a + b)[i] == b[i - |a|];
    }
  }

  function LinesOf(file: TargetsFile): seq<string> {
    if file.Lines? then file.lines else []
  }

  /** Of an accepted comma-separated list, a targets file or both, the result holds exactly the
      addresses that some token or line stands for, each once. */
  lemma ParsedAddressesExactly(lib: Library, tokens: seq<string>, spec: string, file: TargetsFile)
    requires |tokens| <= 8192 && forall i :: 0 <= i < |tokens| ==> Lacks(tokens[i], ',')
    requires if tokens == [] then spec == "" else 0 < |spec| < 65536 && spec == Join(tokens, ',')
    requires ExpandInput(lib, spec, file).Expanded?
    ensures var result := FirstPerIp(ExpandInput(lib, spec, file).targets);
            && (forall ip :: HasIp(result, ip) <==> SomeTokenMeans(lib, tokens + LinesOf(file), ip))
            && (forall i, j :: 0 <= i < j < |result| ==> result[i].ip != result[j].ip)
  {
    hide ExpandOne, ExpandAll, HasIp, SomeTokenMeans, Split, Join, FirstPerIp;
    if tokens != [] {
      SplitOfJoin(tokens, ',');
    }
    NothingExpanded(lib, 0);
    var fromSpec := ExpandAll(lib, tokens, 0).targets;
    NothingExpanded(lib, |fromSpec|);
    assert fromSpec + [] == fromSpec;
    var fromFile := ExpandAll(lib, LinesOf(file), |fromSpec|).targets;
    var all := fromSpec + fromFile;
    assert all == ExpandInput(lib, spec, file).targets;
    FirstPerIpKeepsEachOnce(all);
    forall ip
      ensures HasIp(all, ip) <==> SomeTokenMeans(lib, tokens + LinesOf(file), ip)
    {
      ExpansionMeansTokens(lib, tokens, 0, ip);
      ExpansionMeansTokens(lib, LinesOf(file), |fromSpec|, ip);
      HasIpOfConcat(fromSpec, fromFile, ip);
      SomeTokenOfConcat(lib, tokens, LinesOf(file), ip);
    }
  }

  // ---- what is accepted ----

  ghost predicate Stands(lib: Library, token: string) {
    ExpandOne(lib, token, 0).Expanded?
  }

  ghost predicate AllStand(lib: Library, tokens: seq<string>) {
    forall i :: 0 <= i < |tokens| ==> Stands(lib, tokens[i])
  }

  lemma AllStandOfConcat(lib: Library, a: seq<string>, b: seq<string>)
    ensures AllStand(lib, a + b) <==> AllStand(lib, a) && AllStand(lib, b)
  {
    hide Stands;
    var all := a + b;
    assert forall i :: 0 <= i < |a| ==> all[i] == a[i];
    assert forall i :: 0 <= i < |b| ==> all[|a| + i] == b[i];
  }

  ghost function SizeOf(lib: Library, token: string): nat {
    if Stands(lib, token) then |ExpandOne(lib, token, 0).targets| else 0
  }

  ghost function TotalSize(lib: Library, tokens: seq<string>): nat {
    if tokens == [] then 0 else TotalSize(lib, tokens[..|tokens| - 1]) + SizeOf(lib, tokens[|tokens| - 1])
  }

  lemma FitsExactly(lib: Library, token: string, before: nat)
    requires before <= 65536
    ensures ExpandOne(lib, token, before).Expanded? <==> Stands(lib, token) && before + SizeOf(lib, token) <= 65536
    ensures ExpandOne(lib, token, before).Expanded? ==> |ExpandOne(lib, token, before).targets| == SizeOf(lib, token)
  {
    hide Trim, BlockOf, HostCount;
  }

  lemma {:induction false} AllFitExactly(lib: Library, tokens: seq<string>, before: nat)
    requires before <= 65536
    ensures var r := ExpandAll(lib, tokens, before);
            && (r.Expanded? <==>
                  && AllStand(lib, tokens)
                  && before + TotalSize(lib, tokens) <= 65536)
            && (r.Expanded? ==> |r.targets| == TotalSize(lib, tokens))
  {
    hide ExpandOne, Stands, SizeOf;
    if tokens != [] {
      var front, token := tokens[..|tokens| - 1], tokens[|tokens| - 1];
      AllFitExactly(lib, front, before);
      assert front + [token] == tokens;
      AllStandOfConcat(lib, front, [token]);
      if ExpandAll(lib, front, before).Expanded? {
        FitsExactly(lib, token, before + TotalSize(lib, front));
      }
    }
  }

  lemma {:induction false} TotalSizeOfConcat(lib: Library, a: seq<string>, b: seq<string>)
    ensures TotalSize(lib, a + b) == TotalSize(lib, a) + TotalSize(lib, b)
  {
    hide SizeOf;
    if b == [] {
      assert a + b == a;
    } else {
      assert (a + b)[..|a + b| - 1] == a + b[..|b| - 1];
      TotalSizeOfConcat(lib, a, b[..|b| - 1]);
    }
  }

  /** Within the limits on the text and its tokens, an input is accepted exactly when every token
      and line stands for something on its own and all of them together for at least one target
      and at most 65536. */
  lemma AcceptedExactly(lib: Library, tokens: seq<string>, spec: string, file: TargetsFile)
    requires |tokens| <= 8192 && forall i :: 0 <= i < |tokens| ==> Lacks(tokens[i], ',')
    requires if tokens == [] then spec == "" else 0 < |spec| < 65536 && spec == Join(tokens, ',')
    requires !file.Unreadable? && (spec != "" || file.Lines?)
    ensures var all := tokens + LinesOf(file);
            ExpandInput(lib, spec, file).Expanded? <==>
            AllStand(lib, all) && 1 <= TotalSize(lib, all) <= 65536
  {
    hide ExpandOne, ExpandAll, AllStand, TotalSize, Split, Join;
    if tokens != [] {
      SplitOfJoin(tokens, ',');
    }
    var lines := LinesOf(file);
    var all := tokens + lines;
    NothingExpanded(lib, 0);
    AllFitExactly(lib, tokens, 0);
    TotalSizeOfConcat(lib, tokens, lines);
    AllStandOfConcat(lib, tokens, lines);
    if ExpandAll(lib, tokens, 0).Expanded? {
      AllFitExactly(lib, lines, TotalSize(lib, tokens));
    }
  }

  /** A longer text, and a list of more than 8192 tokens, are never accepted. */
  lemma OverlongIsRefused(lib: Library, spec: string, file: TargetsFile)
    requires |spec| >= 65536 || |Split(spec, ',')| > 8192
    ensures ExpandInput(lib, spec, file).Refused?
  {
    hide ExpandAll, Split;
    SplitOfField("", ',');
  }
}
