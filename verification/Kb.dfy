/** The knowledge base: a chained hash table with linked entries, whose buckets double in
    number by re-splicing every entry in place. */
module Kb {
  import opened Wrappers
  import opened KbValidate

  const INITIAL_BUCKETS := 64
  const VALUE_MAX_LEN := 4096

  datatype Value = Str(text: string) | Int(number: int) | Bool(flag: bool)

  datatype GetStatus = Found | NotFound | InvalidKey

  /** FNV-1a, 64 bits wide. */
  function Hash(key: string): bv64 {
    if key == [] then 1469598103934665603
    else (Hash(key[..|key| - 1]) ^ ((key[|key| - 1] as int % 256) as bv64)) * 1099511628211
  }

  function BucketOf(key: string, buckets: nat): (b: nat)
    requires buckets > 0
    ensures b < buckets
  {
    (Hash(key) as nat) % buckets
  }

  class Entry {
    const key: string
    var value: Value
    var next: Entry?

    constructor (key: string, value: Value)
      ensures this.key == key && this.value == value && next == null
    {
      this.key, this.value, next := key, value, null;
    }
  }

  // ---- linked chains and the table they form ----

  function NodeAt(chain: seq<Entry>, j: nat): Entry?
    requires j <= |chain|
  {
    if j < |chain| then chain[j] else null
  }

  /** From position j on, each entry points to the one after it. */
  ghost predicate LinkedFrom(chain: seq<Entry>, j: nat)
    reads chain
  {
    forall k :: j <= k < |chain| ==> chain[k].next == NodeAt(chain, k + 1)
  }

  ghost predicate IsList(head: Entry?, chain: seq<Entry>)
    reads chain
  {
    head == NodeAt(chain, 0) && LinkedFrom(chain, 0)
  }

  ghost predicate NoDuplicates(chain: seq<Entry>) {
    forall j, k :: 0 <= j < k < |chain| ==> chain[j] != chain[k]
  }

  /** The chains hold exactly `entries`, each once, in the bucket its hash selects. */
  ghost predicate IsTable(chains: seq<seq<Entry>>, entries: set<Entry>) {
    && |chains| > 0
    && (forall b :: 0 <= b < |chains| ==> NoDuplicates(chains[b]))
    && (forall b, j :: 0 <= b < |chains| && 0 <= j < |chains[b]| ==>
          chains[b][j] in entries && BucketOf(chains[b][j].key, |chains|) == b)
    && (forall e :: e in entries ==> e in chains[BucketOf(e.key, |chains|)])
  }

  ghost predicate AreLists(buckets: array<Entry?>, chains: seq<seq<Entry>>, entries: set<Entry>)
    reads buckets, entries
  {
    && 0 < buckets.Length == |chains|
    && (forall b, j :: 0 <= b < |chains| && 0 <= j < |chains[b]| ==> chains[b][j] in entries)
    && (forall b :: 0 <= b < |chains| ==> buckets[b] == NodeAt(chains[b], 0))
    && (forall b, k :: 0 <= b < |chains| && 0 <= k < |chains[b]| ==> chains[b][k].next == NodeAt(chains[b], k + 1))
  }

  ghost predicate Stores(entries: set<Entry>, contents: map<string, Value>)
    reads entries
  {
    && (forall e :: e in entries ==> e.key in contents && contents[e.key] == e.value)
    && (forall k :: k in contents ==> exists e :: e in entries && e.key == k)
    && (forall e, f :: e in entries && f in entries && e.key == f.key ==> e == f)
  }

  class KnowledgeBase {
    var buckets: array<Entry?>
    var entryCount: nat
    ghost var chains: seq<seq<Entry>>
    ghost var entries: set<Entry>
    ghost var contents: map<string, Value>

    ghost predicate Valid()
      reads this, buckets, entries
    {
      && AreLists(buckets, chains, entries)
      && IsTable(chains, entries)
      && Stores(entries, contents)
      && entryCount == |contents|
    }

    constructor ()
      ensures Valid() && contents == map[] && fresh(buckets) && entries == {}
    {
      buckets := new Entry?[INITIAL_BUCKETS](_ => null);
      chains := seq(INITIAL_BUCKETS, _ => []);
      entries := {};
      contents := map[];
      entryCount := 0;
    }

    lemma StoredUnderKey(e: Entry)
      requires Valid() && e in entries
      ensures e.key in contents && contents[e.key] == e.value
    {
    }

    /** A key is nowhere if it is not in the bucket its hash selects. */
    lemma NotInItsBucket(key: string)
      requires Valid()
      requires var chain := chains[BucketOf(key, |chains|)]; forall k :: 0 <= k < |chain| ==> chain[k].key != key
      ensures key !in contents
    {
    }

    method Find(key: string) returns (e: Entry?)
      requires Valid()
      ensures e == null ==> key !in contents
      ensures e != null ==> e in entries && e.key == key && key in contents && contents[key] == e.value
    {
      hide BucketOf, Stores, IsTable;
      var b := BucketOf(key, buckets.Length);
      e := buckets[b];
      ghost var j := 0;
      while e != null
        invariant j <= |chains[b]| && e == NodeAt(chains[b], j)
        invariant forall k :: 0 <= k < j ==> chains[b][k].key != key
        decreases |chains[b]| - j
      {
        if e.key == key {
          StoredUnderKey(e);
          return;
        }
        e := e.next;
        j := j + 1;
      }
      NotInItsBucket(key);
    }

    static lemma PushedIsTable(cs: seq<seq<Entry>>, es: set<Entry>, e: Entry, cs': seq<seq<Entry>>)
      requires IsTable(cs, es) && e !in es
      requires var b := BucketOf(e.key, |cs|); cs' == cs[b := [e] + cs[b]]
      ensures IsTable(cs', es + {e})
    {
      hide BucketOf;
      var b := BucketOf(e.key, |cs|);
      assert cs'[b][0] == e;
      forall f | f in es
        ensures f in cs'[BucketOf(f.key, |cs'|)]
      {
        var c := BucketOf(f.key, |cs|);
        var j :| 0 <= j < |cs[c]| && cs[c][j] == f;
        assert c == b ==> cs'[b][j + 1] == f;
      }
    }

    /** Pushes an entry that is in no chain yet onto the front of its chain. */
    static method PushFront(e: Entry, into: array<Entry?>, ghost cs: seq<seq<Entry>>, ghost es: set<Entry>)
      returns (ghost cs': seq<seq<Entry>>)
      requires AreLists(into, cs, es) && IsTable(cs, es) && e !in es
      modifies e`next, into
      ensures AreLists(into, cs', es + {e}) && IsTable(cs', es + {e}) && |cs'| == |cs|
    {
      hide BucketOf, IsTable;
      var b := BucketOf(e.key, into.Length);
      e.next := into[b];
      into[b] := e;
      cs' := cs[b := [e] + cs[b]];
      PushedIsTable(cs, es, e, cs');
    }

    /** Whether the load factor after one more insert stays at or below three quarters. */
    predicate HasRoom()
      reads this
    {
      (entryCount + 1) * 4 <= buckets.Length * 3
    }

    /** The entries of the first i chains, and of chain i up to position j. */
    static ghost function EntriesBefore(cs: seq<seq<Entry>>, i: nat, j: nat): set<Entry>
      requires i <= |cs| && (i < |cs| ==> j <= |cs[i]|)
    {
      (set b, k | 0 <= b < i && 0 <= k < |cs[b]| :: cs[b][k]) +
      (if i < |cs| then set k | 0 <= k < j :: cs[i][k] else {})
    }

    static lemma NextIsNew(cs: seq<seq<Entry>>, es: set<Entry>, i: nat, j: nat)
      requires IsTable(cs, es) && i < |cs| && j < |cs[i]|
      ensures cs[i][j] !in EntriesBefore(cs, i, j)
      ensures EntriesBefore(cs, i, j + 1) == EntriesBefore(cs, i, j) + {cs[i][j]}
      ensures forall b, k :: 0 <= b < |cs| && 0 <= k < |cs[b]| && (b != i || k != j) ==> cs[b][k] != cs[i][j]
    {
      hide BucketOf;
      forall b, k | 0 <= b < |cs| && 0 <= k < |cs[b]| && (b != i || k != j)
        ensures cs[b][k] != cs[i][j]
      {
        assert BucketOf(cs[b][k].key, |cs|) == b && BucketOf(cs[i][j].key, |cs|) == i;
      }
    }

    static lemma BucketDone(cs: seq<seq<Entry>>, i: nat)
      requires i < |cs|
      ensures EntriesBefore(cs, i, |cs[i]|) == EntriesBefore(cs, i + 1, 0)
    {
    }

    /** Splices the entries of one old bucket into the new ones, front to back. */
    method MoveBucket(i: nat, newBuckets: array<Entry?>, ghost newChains: seq<seq<Entry>>, ghost moved: set<Entry>)
      returns (ghost newChains': seq<seq<Entry>>, ghost moved': set<Entry>)
      requires IsTable(chains, entries) && i < |chains| == buckets.Length
      requires IsList(buckets[i], chains[i]) && Stores(entries, contents)
      requires AreLists(newBuckets, newChains, moved) && IsTable(newChains, moved)
      requires moved == EntriesBefore(chains, i, 0)
      modifies newBuckets, chains[i]
      ensures AreLists(newBuckets, newChains', moved') && IsTable(newChains', moved') && |newChains'| == |newChains|
      ensures moved' == EntriesBefore(chains, i + 1, 0) && Stores(entries, contents)
      ensures forall e :: e in chains[i] ==> e.value == old(e.value)
    {
      hide BucketOf, IsTable, EntriesBefore, AreLists;
      newChains', moved' := newChains, moved;
      var e := buckets[i];
      ghost var j := 0;
      while e != null
        invariant AreLists(newBuckets, newChains', moved') && IsTable(newChains', moved') && |newChains'| == |newChains|
        invariant j <= |chains[i]| && e == NodeAt(chains[i], j)
        invariant moved' == EntriesBefore(chains, i, j)
        invariant LinkedFrom(chains[i], j)
        invariant forall e :: e in chains[i] ==> e.value == old(e.value)
        decreases |chains[i]| - j
      {
        var next := e.next;
        NextIsNew(chains, entries, i, j);
        newChains' := PushFront(e, newBuckets, newChains', moved');
        moved' := moved' + {e};
        e := next;
        j := j + 1;
      }
      BucketDone(chains, i);
    }

    static lemma EmptyTable(newBuckets: array<Entry?>, newChains: seq<seq<Entry>>, cs: seq<seq<Entry>>)
      requires newBuckets.Length == |newChains| > 0
      requires forall b :: 0 <= b < |newChains| ==> newChains[b] == [] && newBuckets[b] == null
      ensures AreLists(newBuckets, newChains, {}) && IsTable(newChains, {}) && EntriesBefore(cs, 0, 0) == {}
    {
    }

    lemma EveryChainIsLinked()
      requires Valid()
      ensures |chains| == buckets.Length
      ensures forall b :: 0 <= b < |chains| ==> buckets[b] == NodeAt(chains[b], 0) && LinkedFrom(chains[b], 0)
    {
      hide IsTable, Stores;
    }

    static lemma OtherChains(cs: seq<seq<Entry>>, es: set<Entry>, i: nat)
      requires IsTable(cs, es) && i < |cs|
      ensures forall b, k :: 0 <= b < |cs| && b != i && 0 <= k < |cs[b]| ==> cs[b][k] !in cs[i]
      ensures forall k :: 0 <= k < |cs[i]| ==> cs[i][k] in es
    {
      hide BucketOf;
      forall b, k | 0 <= b < |cs| && b != i && 0 <= k < |cs[b]|
        ensures cs[b][k] !in cs[i]
      {
        assert BucketOf(cs[b][k].key, |cs|) == b;
      }
    }

    static lemma AllMoved(cs: seq<seq<Entry>>, es: set<Entry>)
      requires IsTable(cs, es)
      ensures EntriesBefore(cs, |cs|, 0) == es
    {
      hide BucketOf;
      forall e | e in es
        ensures e in EntriesBefore(cs, |cs|, 0)
      {
        var b := BucketOf(e.key, |cs|);
        var k :| 0 <= k < |cs[b]| && cs[b][k] == e;
      }
    }

    method Rehash(newCount: nat)
      requires Valid() && newCount > 0
      modifies this, entries
      ensures Valid() && contents == old(contents) && entries == old(entries) && entryCount == old(entryCount)
      ensures fresh(buckets) && buckets.Length == newCount
      ensures forall e :: e in entries ==> e.value == old(e.value)
    {
      hide BucketOf, IsTable, EntriesBefore, Stores, AreLists, LinkedFrom;
      EveryChainIsLinked();
      var newBuckets := new Entry?[newCount](_ => null);
      ghost var newChains: seq<seq<Entry>> := seq(newCount, _ => []);
      ghost var moved: set<Entry> := {};
      EmptyTable(newBuckets, newChains, chains);
      for i := 0 to buckets.Length
        invariant buckets == old(buckets) && chains == old(chains) && entries == old(entries)
        invariant contents == old(contents) && entryCount == old(entryCount)
        invariant forall e :: e in entries ==> e.value == old(e.value)
        invariant Stores(entries, contents)
        invariant AreLists(newBuckets, newChains, moved) && IsTable(newChains, moved) && |newChains| == newCount
        invariant moved == EntriesBefore(chains, i, 0)
        invariant forall b :: 0 <= b < |chains| ==> buckets[b] == NodeAt(chains[b], 0)
        invariant forall b :: i <= b < |chains| ==> LinkedFrom(chains[b], 0)
      {
        OtherChains(chains, entries, i);
        newChains, moved := MoveBucket(i, newBuckets, newChains, moved);
      }
      AllMoved(chains, entries);
      buckets, chains := newBuckets, newChains;
    }

    /** Doubles the buckets when the next insert would pass the load factor. On overflow or
        failed allocation the table stays as it is; growing never changes the contents. */
    method GrowIfNeeded() returns (grown: bool)
      requires Valid()
      modifies this, entries
      ensures grown <==> old(HasRoom()) || buckets.Length > old(buckets.Length)
      ensures Valid() && contents == old(contents) && entries == old(entries)
      ensures buckets == old(buckets) || fresh(buckets)
      ensures old(HasRoom()) ==> buckets == old(buckets)
      ensures buckets.Length == old(buckets.Length) || buckets.Length == 2 * old(buckets.Length)
      ensures forall e :: e in entries ==> e.value == old(e.value)
    {
      hide Valid;
      if HasRoom() {
        return true;
      }
      var newCount := buckets.Length * 2 % 0x1_0000_0000_0000_0000;
      if newCount <= buckets.Length {
        return false;
      }
      var outOfMemory: bool := *;
      if outOfMemory {
        return false;
      }
      Rehash(newCount);
      return true;
    }

    method Overwrite(e: Entry, value: Value)
      requires Valid() && e in entries
      modifies e`value, this`contents
      ensures Valid() && contents == old(contents)[e.key := value]
    {
      hide BucketOf, IsTable;
      e.value := value;
      contents := contents[e.key := value];
    }

    static lemma StoresOneMore(es: set<Entry>, m: map<string, Value>, e: Entry)
      requires Stores(es, m) && e.key !in m
      ensures Stores(es + {e}, m[e.key := e.value])
    {
      forall k | k in m
        ensures exists f :: f in es + {e} && f.key == k
      {
        var f :| f in es && f.key == k;
        assert f in es + {e};
      }
      assert e in es + {e};
    }

    method InsertNew(key: string, value: Value)
      requires Valid() && key !in contents
      modifies this, buckets, entries
      ensures Valid() && fresh(entries - old(entries)) && (buckets == old(buckets) || fresh(buckets))
      ensures contents == old(contents)[key := value]
    {
      hide BucketOf, IsTable, Stores, AreLists;
      var added := new Entry(key, value);
      var _ := GrowIfNeeded();
      assert added !in entries;
      ghost var before, stored := entries, contents;
      chains := PushFront(added, buckets, chains, entries);
      entries := entries + {added};
      contents := contents[key := value];
      entryCount := entryCount + 1;
      StoresOneMore(before, stored, added);
    }

    /** Stores a value under a key, over the old one or in a new entry. Only the allocation of
        a new entry can be refused (`memory` false), and then nothing has changed. */
    method Put(key: string, value: Value, memory: bool) returns (ok: bool)
      requires Valid()
      modifies this, buckets, entries
      ensures Valid() && fresh(entries - old(entries)) && (buckets == old(buckets) || fresh(buckets))
      ensures ok <==> memory || key in old(contents)
      ensures contents == if ok then old(contents)[key := value] else old(contents)
    {
      hide Valid;
      var e := Find(key);
      if e != null {
        Overwrite(e, value);
        return true;
      }
      if !memory {
        return false;
      }
      InsertNew(key, value);
      return true;
    }

    /** Strings are copied before the table is touched, so a refused copy refuses the set. */
    method SetStr(key: string, text: string, memory: bool) returns (ok: bool)
      requires Valid()
      modifies this, buckets, entries
      ensures Valid() && fresh(entries - old(entries)) && (buckets == old(buckets) || fresh(buckets))
      ensures ok <==> IsKey(key) && |text| <= VALUE_MAX_LEN && NoNul(text) && IsUtf8(text) && memory
      ensures contents == if ok then old(contents)[key := Str(text)] else old(contents)
    {
      hide IsKey, IsUtf8, Valid;
      ok := ValidateKey(key);
      if !ok || |text| > VALUE_MAX_LEN {
        return false;
      }
      ok := ValidateNoEmbeddedNul(text);
      if !ok {
        return false;
      }
      ok := ValidateUtf8(text);
      if !ok || !memory {
        return false;
      }
      ok := Put(key, Str(text), memory);
    }

    method SetInt(key: string, number: int, memory: bool) returns (ok: bool)
      requires Valid()
      modifies this, buckets, entries
      ensures Valid() && fresh(entries - old(entries)) && (buckets == old(buckets) || fresh(buckets))
      ensures ok <==> IsKey(key) && (memory || key in old(contents))
      ensures contents == if ok then old(contents)[key := Int(number)] else old(contents)
    {
      hide IsKey, Valid;
      ok := ValidateKey(key);
      if ok {
        ok := Put(key, Int(number), memory);
      }
    }

    method SetBool(key: string, flag: bool, memory: bool) returns (ok: bool)
      requires Valid()
      modifies this, buckets, entries
      ensures Valid() && fresh(entries - old(entries)) && (buckets == old(buckets) || fresh(buckets))
      ensures ok <==> IsKey(key) && (memory || key in old(contents))
      ensures contents == if ok then old(contents)[key := Bool(flag)] else old(contents)
    {
      hide IsKey, Valid;
      ok := ValidateKey(key);
      if ok {
        ok := Put(key, Bool(flag), memory);
      }
    }

    method Get(key: string) returns (status: GetStatus, value: Option<Value>)
      requires Valid()
      ensures status == InvalidKey <==> !IsKey(key)
      ensures status == Found <==> IsKey(key) && key in contents
      ensures value == if status == Found then Some(contents[key]) else None
    {
      hide IsKey, Valid;
      var ok := ValidateKey(key);
      if !ok {
        return InvalidKey, None;
      }
      var e := Find(key);
      if e == null {
        return NotFound, None;
      }
      return Found, Some(e.value);
    }

    method Count() returns (n: nat)
      requires Valid()
      ensures n == |contents|
    {
      return entryCount;
    }

    /** What has been visited, entry by entry. */
    ghost predicate Visits(visited: seq<(string, Value)>, path: seq<Entry>)
      reads entries, this
    {
      && |path| == |visited| && NoDuplicates(path)
      && forall k :: 0 <= k < |path| ==> path[k] in entries && visited[k] == (path[k].key, path[k].value)
    }

    method VisitBucket(i: nat, before: seq<(string, Value)>, ghost path: seq<Entry>)
      returns (visited: seq<(string, Value)>, ghost path': seq<Entry>)
      requires Valid() && i < |chains|
      requires Visits(before, path) && forall e :: e in path <==> e in EntriesBefore(chains, i, 0)
      ensures Visits(visited, path') && forall e :: e in path' <==> e in EntriesBefore(chains, i + 1, 0)
    {
      hide BucketOf, EntriesBefore, Stores;
      visited, path' := before, path;
      var e := buckets[i];
      ghost var j := 0;
      while e != null
        invariant Visits(visited, path')
        invariant j <= |chains[i]| && e == NodeAt(chains[i], j)
        invariant forall f :: f in path' <==> f in EntriesBefore(chains, i, j)
        decreases |chains[i]| - j
      {
        NextIsNew(chains, entries, i, j);
        assert e !in path';
        visited := visited + [(e.key, e.value)];
        path' := path' + [e];
        e := e.next;
        j := j + 1;
      }
      BucketDone(chains, i);
    }

    static lemma NothingBefore(cs: seq<seq<Entry>>)
      ensures EntriesBefore(cs, 0, 0) == {}
    {
    }

    lemma EveryKeyVisited(visited: seq<(string, Value)>, path: seq<Entry>)
      requires Stores(entries, contents) && Visits(visited, path) && forall e :: e in entries ==> e in path
      ensures forall k, l :: 0 <= k < l < |visited| ==> visited[k].0 != visited[l].0
      ensures forall key :: key in contents ==> exists k :: 0 <= k < |visited| && visited[k].0 == key
    {
      forall key | key in contents
        ensures exists k :: 0 <= k < |visited| && visited[k].0 == key
      {
        var e :| e in entries && e.key == key;
        var k :| 0 <= k < |path| && path[k] == e;
        assert visited[k].0 == key;
      }
    }

    /** The (key, value) pairs in the order the callback sees them. */
    method ForEach() returns (visited: seq<(string, Value)>)
      requires Valid()
      ensures forall k :: 0 <= k < |visited| ==> visited[k].0 in contents && contents[visited[k].0] == visited[k].1
      ensures forall k, l :: 0 <= k < l < |visited| ==> visited[k].0 != visited[l].0
      ensures forall key :: key in contents ==> exists k :: 0 <= k < |visited| && visited[k].0 == key
    {
      hide BucketOf, IsTable, EntriesBefore;
      visited := [];
      ghost var path: seq<Entry> := [];
      NothingBefore(chains);
      for i := 0 to buckets.Length
        invariant Visits(visited, path)
        invariant forall e :: e in path <==> e in EntriesBefore(chains, i, 0)
      {
        visited, path := VisitBucket(i, visited, path);
      }
      AllMoved(chains, entries);
      EveryKeyVisited(visited, path);
    }
  }

  // ---- any sequence of operations ----

  /** One call; `memory` is false where every allocation it may need is refused. */
  datatype Call = Set(key: string, value: Value, memory: bool) | Ask(key: string)

  datatype Reply = Done(ok: bool) | Answer(status: GetStatus, value: Option<Value>)

  type Trace = seq<(Call, Reply)>

  /** The step set `key`, and was told that it did. */
  predicate Sets(step: (Call, Reply), key: string) {
    step.0.Set? && step.0.key == key && step.1 == Done(true)
  }

  /** The last accepted set of a key, if any. */
  function LastAccepted(trace: Trace, key: string): (r: Option<nat>)
    ensures r.Some? ==> r.value < |trace| && Sets(trace[r.value], key) &&
                        forall i :: r.value < i < |trace| ==> !Sets(trace[i], key)
    ensures r.None? ==> forall i :: 0 <= i < |trace| ==> !Sets(trace[i], key)
  {
    if trace == [] then None
    else if Sets(trace[|trace| - 1], key) then Some(|trace| - 1)
    else
      var front := trace[..|trace| - 1];
      assert forall i :: 0 <= i < |front| ==> front[i] == trace[i];
      LastAccepted(front, key)
  }

  /** What a key holds after a trace: the value last accepted, or what it held before. */
  function Held(before: map<string, Value>, trace: Trace, key: string): Option<Value> {
    var last := LastAccepted(trace, key);
    if last.Some? then Some(trace[last.value].0.value)
    else if key in before then Some(before[key])
    else None
  }

  ghost predicate IsStorable(value: Value) {
    value.Str? ==> |value.text| <= VALUE_MAX_LEN && NoNul(value.text) && IsUtf8(value.text)
  }

  /** The reply a call must get when `held` is what its key holds. A string is always copied;
      for other values only a new key needs memory. */
  ghost predicate IsRightReply(call: Call, reply: Reply, held: Option<Value>) {
    match call
    case Set(key, value, memory) =>
      reply == Done(IsKey(key) && IsStorable(value) && (memory || (!value.Str? && held.Some?)))
    case Ask(key) =>
      reply == if !IsKey(key) then Answer(InvalidKey, None)
               else if held.Some? then Answer(Found, held)
               else Answer(NotFound, None)
  }

  ghost predicate AllRight(before: map<string, Value>, trace: Trace) {
    forall i :: 0 <= i < |trace| ==>
      IsRightReply(trace[i].0, trace[i].1, Held(before, trace[..i], trace[i].0.key))
  }

  /** The table holds what the trace says it holds. */
  ghost predicate IsAfter(contents: map<string, Value>, before: map<string, Value>, trace: Trace) {
    forall key :: (if key in contents then Some(contents[key]) else None) == Held(before, trace, key)
  }

  lemma HeldAfterStep(before: map<string, Value>, trace: Trace, call: Call, reply: Reply, key: string)
    ensures Held(before, trace + [(call, reply)], key) ==
            if call.Set? && call.key == key && reply == Done(true) then Some(call.value) else Held(before, trace, key)
  {
    var longer := trace + [(call, reply)];
    assert longer[..|trace|] == trace;
    assert Sets(longer[|trace|], key) <==> call.Set? && call.key == key && reply == Done(true);
    var last := LastAccepted(trace, key);
    assert last.Some? ==> longer[last.value] == trace[last.value];
  }

  lemma AllRightOneMore(before: map<string, Value>, trace: Trace, call: Call, reply: Reply)
    requires AllRight(before, trace) && IsRightReply(call, reply, Held(before, trace, call.key))
    ensures AllRight(before, trace + [(call, reply)])
  {
    hide Held, IsRightReply;
    var longer := trace + [(call, reply)];
    assert longer[..|trace|] == trace;
    assert forall i :: 0 <= i < |trace| ==> longer[..i] == trace[..i];
  }

  lemma NothingCalled(before: map<string, Value>)
    ensures AllRight(before, []) && IsAfter(before, before, [])
  {
  }

  method Perform(kb: KnowledgeBase, call: Call, ghost held: Option<Value>) returns (reply: Reply)
    requires kb.Valid() && held == if call.key in kb.contents then Some(kb.contents[call.key]) else None
    modifies kb, kb.buckets, kb.entries
    ensures kb.Valid() && fresh(kb.entries - old(kb.entries)) && (kb.buckets == old(kb.buckets) || fresh(kb.buckets))
    ensures IsRightReply(call, reply, held)
    ensures kb.contents ==
            if call.Set? && reply == Done(true) then old(kb.contents)[call.key := call.value] else old(kb.contents)
  {
    hide KnowledgeBase.Valid, IsKey, IsUtf8, NoNul;
    match call {
      case Ask(key) =>
        var status, value := kb.Get(key);
        return Answer(status, value);
      case Set(key, value, memory) =>
        var ok;
        match value {
          case Str(text) => ok := kb.SetStr(key, text, memory);
          case Int(number) => ok := kb.SetInt(key, number, memory);
          case Bool(flag) => ok := kb.SetBool(key, flag, memory);
        }
        return Done(ok);
    }
  }

  /** Any calls in any order, with memory lasting or not at each, through any growth of the
      table: every question is answered with the value and type last accepted for its key, and
      every set is accepted exactly when it should be. */
  method Drive(kb: KnowledgeBase, calls: seq<Call>) returns (trace: Trace)
    requires kb.Valid()
    modifies kb, kb.buckets, kb.entries
    ensures kb.Valid() && fresh(kb.entries - old(kb.entries)) && (kb.buckets == old(kb.buckets) || fresh(kb.buckets))
    ensures |trace| == |calls| && forall i :: 0 <= i < |calls| ==> trace[i].0 == calls[i]
    ensures AllRight(old(kb.contents), trace) && IsAfter(kb.contents, old(kb.contents), trace)
  {
    hide KnowledgeBase.Valid, AllRight, Held, IsKey, IsUtf8, NoNul;
    trace := [];
    ghost var before := kb.contents;
    NothingCalled(before);
    for i := 0 to |calls|
      invariant kb.Valid() && fresh(kb.entries - old(kb.entries))
      invariant kb.buckets == old(kb.buckets) || fresh(kb.buckets)
      invariant |trace| == i && forall j :: 0 <= j < i ==> trace[j].0 == calls[j]
      invariant AllRight(before, trace) && IsAfter(kb.contents, before, trace)
    {
      ghost var held := Held(before, trace, calls[i].key);
      var reply := Perform(kb, calls[i], held);
      AllRightOneMore(before, trace, calls[i], reply);
      forall key {
        HeldAfterStep(before, trace, calls[i], reply, key);
      }
      trace := trace + [(calls[i], reply)];
    }
  }
}
