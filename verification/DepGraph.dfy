/** Plugin scheduling: Kahn's algorithm with lowest-index tie-breaking. */
module DepGraph {
  /** A plugin: its unique id, and the ids it depends on, in declaration order. */
  datatype Plugin = Plugin(scriptId: int, deps: seq<int>)

  datatype SortStatus = Sorted | MissingDependency | Cyclic

  ghost predicate DistinctIds(ps: seq<Plugin>) {
    forall i, j :: 0 <= i < j < |ps| ==> ps[i].scriptId != ps[j].scriptId
  }

  ghost predicate IsKnown(ps: seq<Plugin>, id: int) {
    exists j :: 0 <= j < |ps| && ps[j].scriptId == id
  }

  ghost predicate AllKnown(ps: seq<Plugin>, deps: seq<int>) {
    forall d :: 0 <= d < |deps| ==> IsKnown(ps, deps[d])
  }

  /** Node i depends on node j. */
  ghost predicate DependsOn(ps: seq<Plugin>, i: nat, j: nat) {
    i < |ps| && j < |ps| && ps[j].scriptId in ps[i].deps
  }

  // ---- walks and cycles ----

  /** A walk along dependency edges. */
  ghost predicate IsWalk(ps: seq<Plugin>, w: seq<nat>) {
    (forall k :: 0 <= k < |w| ==> w[k] < |ps|) &&
    forall k :: 0 <= k < |w| - 1 ==> DependsOn(ps, w[k], w[k + 1])
  }

  ghost predicate Repeats(w: seq<nat>) {
    exists a, b :: 0 <= a < b < |w| && w[a] == w[b]
  }

  /** Some walk from i comes back to a node it has visited. */
  ghost predicate ReachesCycle(ps: seq<Plugin>, i: nat) {
    exists w :: IsWalk(ps, w) && w != [] && w[0] == i && Repeats(w)
  }

  ghost predicate IsAcyclic(ps: seq<Plugin>) {
    forall i :: 0 <= i < |ps| ==> !ReachesCycle(ps, i)
  }

  // ---- orders ----

  /** Everything node i depends on is among `placed`. */
  ghost predicate IsMet(ps: seq<Plugin>, i: nat, placed: seq<nat>) {
    forall j :: DependsOn(ps, i, j) ==> j in placed
  }

  ghost predicate IsPartialOrder(ps: seq<Plugin>, order: seq<nat>) {
    forall q :: 0 <= q < |order| ==>
      order[q] < |ps| && order[q] !in order[..q] && IsMet(ps, order[q], order[..q])
  }

  /** A run order: every node once, every dependency before its dependents. */
  ghost predicate IsRunOrder(ps: seq<Plugin>, order: seq<nat>) {
    && |order| == |ps|
    && (forall i :: 0 <= i < |ps| ==> i in order)
    && IsPartialOrder(ps, order)
  }

  /** At every position the smallest index that was ready there has been chosen. */
  ghost predicate IsGreedy(ps: seq<Plugin>, order: seq<nat>) {
    forall q, i :: 0 <= q < |order| && 0 <= i < order[q] ==> i in order[..q] || !IsMet(ps, i, order[..q])
  }

  ghost predicate LexBefore(a: seq<nat>, b: seq<nat>) {
    exists q :: 0 <= q < |a| && q < |b| && a[..q] == b[..q] && a[q] < b[q]
  }

  /** The order is the lexicographically least of all run orders. */
  ghost predicate IsLeastRunOrder(ps: seq<Plugin>, order: seq<nat>) {
    IsRunOrder(ps, order) && forall other :: IsRunOrder(ps, other) && other != order ==> LexBefore(order, other)
  }

  // ---- counting unmet dependencies ----

  function Unmet(deps: seq<int>, placedIds: set<int>): nat {
    if deps == [] then 0
    else Unmet(deps[..|deps| - 1], placedIds) + if deps[|deps| - 1] in placedIds then 0 else 1
  }

  function Occurrences(deps: seq<int>, id: int): nat {
    if deps == [] then 0
    else Occurrences(deps[..|deps| - 1], id) + if deps[|deps| - 1] == id then 1 else 0
  }

  ghost function IdsOf(ps: seq<Plugin>, placed: seq<nat>): set<int>
    requires forall q :: 0 <= q < |placed| ==> placed[q] < |ps|
  {
    set q | 0 <= q < |placed| :: ps[placed[q]].scriptId
  }

  lemma {:induction false} UnmetOfNothing(deps: seq<int>)
    ensures Unmet(deps, {}) == |deps|
  {
    if deps != [] {
      UnmetOfNothing(deps[..|deps| - 1]);
    }
  }

  lemma {:induction false} PlacingMeetsOccurrences(deps: seq<int>, ids: set<int>, id: int)
    requires id !in ids
    ensures Unmet(deps, ids) == Unmet(deps, ids + {id}) + Occurrences(deps, id)
  {
    if deps != [] {
      PlacingMeetsOccurrences(deps[..|deps| - 1], ids, id);
    }
  }

  lemma {:induction false} NothingUnmet(deps: seq<int>, ids: set<int>)
    ensures Unmet(deps, ids) == 0 <==> forall d :: 0 <= d < |deps| ==> deps[d] in ids
  {
    if deps != [] {
      var front := deps[..|deps| - 1];
      NothingUnmet(front, ids);
      assert forall d :: 0 <= d < |front| ==> deps[d] == front[d];
    }
  }

  /** A zero counter is exactly a node whose dependencies have all been placed. */
  lemma ReadyIsMet(ps: seq<Plugin>, i: nat, placed: seq<nat>)
    requires DistinctIds(ps) && i < |ps| && AllKnown(ps, ps[i].deps)
    requires forall q :: 0 <= q < |placed| ==> placed[q] < |ps|
    ensures Unmet(ps[i].deps, IdsOf(ps, placed)) == 0 <==> IsMet(ps, i, placed)
  {
    var deps, ids := ps[i].deps, IdsOf(ps, placed);
    NothingUnmet(deps, ids);
    if Unmet(deps, ids) == 0 {
      forall j: nat | DependsOn(ps, i, j)
        ensures j in placed
      {
        assert ps[j].scriptId in ids;
        var q :| 0 <= q < |placed| && ps[placed[q]].scriptId == ps[j].scriptId;
        assert placed[q] == j;
      }
    }
    if IsMet(ps, i, placed) {
      forall d | 0 <= d < |deps|
        ensures deps[d] in ids
      {
        var j :| 0 <= j < |ps| && ps[j].scriptId == deps[d];
        assert DependsOn(ps, i, j);
        var q :| 0 <= q < |placed| && placed[q] == j;
        assert ps[placed[q]].scriptId == deps[d];
      }
    }
  }

  // ---- pigeonhole ----

  lemma {:induction false} Pigeonhole(w: seq<nat>, n: nat)
    requires forall k :: 0 <= k < |w| ==> w[k] < n
    requires |w| > n
    ensures Repeats(w)
    decreases n
  {
    var last := w[|w| - 1];
    if forall k :: 0 <= k < |w| ==> w[k] < n - 1 {
      Pigeonhole(w, n - 1);
    } else {
      var a :| 0 <= a < |w| && w[a] == n - 1;
      var rest := w[..a] + w[a + 1..];
      if exists b :: 0 <= b < |w| && b != a && w[b] == n - 1 {
        var b :| 0 <= b < |w| && b != a && w[b] == n - 1;
        assert Repeats(w);
      } else {
        Pigeonhole(rest, n - 1);
        var c, d :| 0 <= c < d < |rest| && rest[c] == rest[d];
        var c', d' := if c < a then c else c + 1, if d < a then d else d + 1;
        assert w[c'] == w[d'] && c' < d';
      }
    }
  }

  lemma DistinctCoversAll(order: seq<nat>, n: nat)
    requires |order| == n && forall q :: 0 <= q < n ==> order[q] < n && order[q] !in order[..q]
    ensures forall i :: 0 <= i < n ==> i in order
  {
    forall i | 0 <= i < n
      ensures i in order
    {
      if i !in order {
        var w := order + [i];
        forall a, b | 0 <= a < b < |w|
          ensures w[a] != w[b]
        {
          assert b < n ==> order[..b][a] == order[a];
        }
        Pigeonhole(w, n);
      }
    }
  }

  // ---- main results about greedy orders ----

  lemma FirstDifference(a: seq<nat>, b: seq<nat>) returns (q: nat)
    requires |a| == |b| && a != b
    ensures q < |a| && a[..q] == b[..q] && a[q] != b[q]
  {
    q := 0;
    while q < |a| && a[q] == b[q]
      invariant q <= |a| && a[..q] == b[..q]
    {
      q := q + 1;
    }
  }

  /** Always taking the smallest ready index yields the least of all run orders. */
  lemma GreedyIsLeast(ps: seq<Plugin>, order: seq<nat>)
    requires IsRunOrder(ps, order) && IsGreedy(ps, order)
    ensures IsLeastRunOrder(ps, order)
  {
    forall other | IsRunOrder(ps, other) && other != order
      ensures LexBefore(order, other)
    {
      var q := FirstDifference(order, other);
      assert IsMet(ps, other[q], other[..q]) && other[q] !in other[..q];
      assert order[q] < other[q];
    }
  }

  /** Along a walk from a placed node, each step goes to an earlier position. */
  lemma {:induction false} WalkDescends(ps: seq<Plugin>, order: seq<nat>, w: seq<nat>, p: nat)
    requires IsPartialOrder(ps, order) && IsWalk(ps, w) && w != []
    requires p < |order| && order[p] == w[0]
    ensures forall b :: 0 < b < |w| ==> w[b] in order[..p]
    decreases |w|
  {
    if |w| > 1 {
      assert DependsOn(ps, w[0], w[1]);
      assert w[1] in order[..p];
      var p' :| 0 <= p' < p && order[p'] == w[1];
      var rest := w[1..];
      forall k | 0 <= k < |rest| - 1
        ensures DependsOn(ps, rest[k], rest[k + 1])
      {
        assert DependsOn(ps, w[k + 1], w[k + 1 + 1]);
      }
      WalkDescends(ps, order, rest, p');
      assert forall b :: 1 < b < |w| ==> w[b] == rest[b - 1];
    }
  }

  ghost function PositionOf(s: seq<nat>, x: nat): (p: nat)
    requires x in s
    ensures p < |s| && s[p] == x
  {
    var p :| 0 <= p < |s| && s[p] == x;
    p
  }

  /** No cycle is reachable from a node that could be placed. */
  lemma PlacedReachesNoCycle(ps: seq<Plugin>, order: seq<nat>, i: nat)
    requires IsPartialOrder(ps, order) && i in order
    ensures !ReachesCycle(ps, i)
  {
    if ReachesCycle(ps, i) {
      var w :| IsWalk(ps, w) && w != [] && w[0] == i && Repeats(w);
      var a, b :| 0 <= a < b < |w| && w[a] == w[b];
      var p :| 0 <= p < |order| && order[p] == i;
      WalkDescends(ps, order, w, p);
      var p' := if a == 0 then p else PositionOf(order[..p], w[a]);
      var rest := w[a..];
      forall k | 0 <= k < |rest| - 1
        ensures DependsOn(ps, rest[k], rest[k + 1])
      {
        assert DependsOn(ps, w[a + k], w[a + k + 1]);
      }
      assert rest[b - a] == w[b];
      WalkDescends(ps, order, rest, p');
    }
  }

  /** Nothing outside `placed` is ready. */
  ghost predicate IsStalled(ps: seq<Plugin>, placed: seq<nat>) {
    forall i :: 0 <= i < |ps| && i !in placed ==> !IsMet(ps, i, placed)
  }

  lemma UnmetDependency(ps: seq<Plugin>, placed: seq<nat>, i: nat) returns (j: nat)
    requires IsStalled(ps, placed) && i < |ps| && i !in placed
    ensures j < |ps| && DependsOn(ps, i, j) && j !in placed
  {
    j :| DependsOn(ps, i, j) && j !in placed;
  }

  lemma LongerWalk(ps: seq<Plugin>, i: nat, w: seq<nat>)
    requires i < |ps| && IsWalk(ps, w) && w != [] && DependsOn(ps, i, w[0])
    ensures IsWalk(ps, [i] + w)
  {
    hide DependsOn;
    var longer := [i] + w;
    forall k | 0 <= k < |longer| - 1
      ensures DependsOn(ps, longer[k], longer[k + 1])
    {
      if k > 0 {
        assert DependsOn(ps, w[k - 1], w[k - 1 + 1]);
      }
    }
  }

  /** From an unplaced node of a stalled sort there are walks of every length. */
  lemma {:induction false} StalledWalk(ps: seq<Plugin>, placed: seq<nat>, i: nat, length: nat) returns (w: seq<nat>)
    requires IsStalled(ps, placed) && i < |ps| && i !in placed && length > 0
    ensures |w| == length && w[0] == i && IsWalk(ps, w)
    decreases length
  {
    if length == 1 {
      return [i];
    }
    hide DependsOn;
    var j := UnmetDependency(ps, placed, i);
    var rest := StalledWalk(ps, placed, j, length - 1);
    w := [i] + rest;
    LongerWalk(ps, i, rest);
  }

  /** When the sort stalls, a node is left over exactly when it reaches a cycle. */
  lemma StalledExactlyOnCycles(ps: seq<Plugin>, placed: seq<nat>, i: nat)
    requires IsPartialOrder(ps, placed) && IsStalled(ps, placed) && i < |ps|
    ensures i !in placed <==> ReachesCycle(ps, i)
  {
    if i in placed {
      PlacedReachesNoCycle(ps, placed, i);
    } else {
      var w := StalledWalk(ps, placed, i, |ps| + 1);
      Pigeonhole(w, |ps|);
    }
  }

  // ---- the sort as it runs ----

  method FindIndex(ps: seq<Plugin>, id: int) returns (found: bool, index: nat)
    ensures found <==> IsKnown(ps, id)
    ensures found ==> index < |ps| && ps[index].scriptId == id
  {
    index := 0;
    for i := 0 to |ps|
      invariant forall j :: 0 <= j < i ==> ps[j].scriptId != id
    {
      if ps[i].scriptId == id {
        return true, i;
      }
    }
    return false, 0;
  }

  /** Every dependency before `dep` of node i, in declaration order, is known; `dep` is not. */
  ghost predicate IsFirstMissing(ps: seq<Plugin>, i: nat, dep: int) {
    && i < |ps| && !IsKnown(ps, dep)
    && (forall j :: 0 <= j < i ==> AllKnown(ps, ps[j].deps))
    && exists d :: 0 <= d < |ps[i].deps| && ps[i].deps[d] == dep && AllKnown(ps, ps[i].deps[..d])
  }

  /** The first dependency that no plugin declares, scanning nodes and their lists in order. */
  method FindMissing(ps: seq<Plugin>) returns (missing: bool, badIndex: nat, badDep: int)
    ensures !missing <==> forall i :: 0 <= i < |ps| ==> AllKnown(ps, ps[i].deps)
    ensures missing ==> IsFirstMissing(ps, badIndex, badDep)
  {
    hide IsKnown;
    for i := 0 to |ps|
      invariant forall j :: 0 <= j < i ==> AllKnown(ps, ps[j].deps)
    {
      for d := 0 to |ps[i].deps|
        invariant AllKnown(ps, ps[i].deps[..d])
      {
        var found, _ := FindIndex(ps, ps[i].deps[d]);
        if !found {
          return true, i, ps[i].deps[d];
        }
      }
      assert ps[i].deps[..|ps[i].deps|] == ps[i].deps;
    }
    return false, 0, 0;
  }

  /** What the two arrays say after placing `order`. */
  ghost predicate Tracks(ps: seq<Plugin>, order: seq<nat>, inDegree: seq<nat>, placed: seq<bool>) {
    && |inDegree| == |placed| == |ps|
    && IsPartialOrder(ps, order)
    && (forall i :: 0 <= i < |ps| ==> (placed[i] <==> i in order))
    && (forall i :: 0 <= i < |ps| && !placed[i] ==> inDegree[i] == Unmet(ps[i].deps, IdsOf(ps, order)))
  }

  method ClearFlags(inCycle: array<bool>)
    modifies inCycle
    ensures forall i :: 0 <= i < inCycle.Length ==> !inCycle[i]
  {
    for i := 0 to inCycle.Length
      invariant forall j :: 0 <= j < i ==> !inCycle[j]
    {
      inCycle[i] := false;
    }
  }

  /** The lowest unplaced index whose counter is zero. */
  method FindReady(inDegree: array<nat>, placed: array<bool>) returns (found: bool, ready: nat)
    requires inDegree.Length == placed.Length
    ensures found ==> ready < placed.Length && !placed[..][ready] && inDegree[..][ready] == 0
    ensures found ==> forall i :: 0 <= i < ready ==> placed[..][i] || inDegree[..][i] != 0
    ensures !found ==> forall i :: 0 <= i < placed.Length ==> placed[..][i] || inDegree[..][i] != 0
  {
    for i := 0 to placed.Length
      invariant forall j :: 0 <= j < i ==> placed[j] || inDegree[j] != 0
    {
      if !placed[i] && inDegree[i] == 0 {
        return true, i;
      }
    }
    return false, 0;
  }

  method MarkUnplaced(placed: array<bool>, inCycle: array<bool>)
    requires placed.Length == inCycle.Length && placed != inCycle
    requires forall i :: 0 <= i < inCycle.Length ==> !inCycle[i]
    modifies inCycle
    ensures forall i :: 0 <= i < inCycle.Length ==> inCycle[i] == !placed[..][i]
  {
    for i := 0 to placed.Length
      invariant forall j :: 0 <= j < i ==> inCycle[j] == !placed[j]
      invariant forall j :: i <= j < placed.Length ==> !inCycle[j]
    {
      if !placed[i] {
        inCycle[i] := true;
      }
    }
  }

  /** The counter cannot run out while occurrences are still to come. */
  lemma {:induction false} OccurrencesGrow(deps: seq<int>, d: nat, id: int)
    requires d < |deps| && deps[d] == id
    ensures Occurrences(deps[..d], id) < Occurrences(deps, id)
  {
    var front := deps[..|deps| - 1];
    if d < |front| {
      OccurrencesGrow(front, d, id);
      assert front[..d] == deps[..d];
    }
  }

  lemma IdsOfSnoc(ps: seq<Plugin>, order: seq<nat>, i: nat)
    requires i < |ps| && forall q :: 0 <= q < |order| ==> order[q] < |ps|
    ensures IdsOf(ps, order + [i]) == IdsOf(ps, order) + {ps[i].scriptId}
  {
    var longer := order + [i];
    forall id | id in IdsOf(ps, order) + {ps[i].scriptId}
      ensures id in IdsOf(ps, longer)
    {
      if id == ps[i].scriptId {
        assert ps[longer[|order|]].scriptId == id;
      } else {
        var q :| 0 <= q < |order| && ps[order[q]].scriptId == id;
        assert ps[longer[q]].scriptId == id;
      }
    }
  }

  /** Takes every occurrence of the node just placed off the counters of the unplaced. */
  method MeetDependents(ps: seq<Plugin>, ready: nat, inDegree: array<nat>, placed: array<bool>, ghost order: seq<nat>)
    requires DistinctIds(ps) && ready < |ps| && inDegree.Length == placed.Length == |ps|
    requires ready !in order && IsPartialOrder(ps, order + [ready])
    requires forall q :: 0 <= q < |order| ==> order[q] < |ps|
    requires forall i :: 0 <= i < |ps| ==> (placed[i] <==> i in order + [ready])
    requires forall i :: 0 <= i < |ps| && !placed[i] ==> inDegree[i] == Unmet(ps[i].deps, IdsOf(ps, order))
    modifies inDegree
    ensures Tracks(ps, order + [ready], inDegree[..], placed[..])
  {
    hide IsPartialOrder;
    var id := ps[ready].scriptId;
    ghost var ids := IdsOf(ps, order);
    assert id !in ids;
    IdsOfSnoc(ps, order, ready);
    for i := 0 to |ps|
      invariant forall j :: 0 <= j < i && !placed[j] ==> inDegree[j] == Unmet(ps[j].deps, ids + {id})
      invariant forall j :: i <= j < |ps| && !placed[j] ==> inDegree[j] == Unmet(ps[j].deps, ids)
    {
      if placed[i] {
        continue;
      }
      var deps := ps[i].deps;
      PlacingMeetsOccurrences(deps, ids, id);
      for d := 0 to |deps|
        invariant inDegree[i] + Occurrences(deps[..d], id) == Unmet(deps, ids)
        invariant forall j :: 0 <= j < i && !placed[j] ==> inDegree[j] == Unmet(ps[j].deps, ids + {id})
        invariant forall j :: i < j < |ps| && !placed[j] ==> inDegree[j] == Unmet(ps[j].deps, ids)
      {
        assert deps[..d + 1][..d] == deps[..d];
        if deps[d] == id {
          OccurrencesGrow(deps, d, id);
          inDegree[i] := inDegree[i] - 1;
        }
      }
      assert deps[..|deps|] == deps;
    }
  }

  lemma NothingPlaced(ps: seq<Plugin>, inDegree: seq<nat>, placed: seq<bool>)
    requires |inDegree| == |placed| == |ps|
    requires forall i :: 0 <= i < |ps| ==> inDegree[i] == |ps[i].deps| && !placed[i]
    ensures Tracks(ps, [], inDegree, placed) && IsGreedy(ps, [])
  {
    forall i | 0 <= i < |ps| {
      UnmetOfNothing(ps[i].deps);
    }
    assert IdsOf(ps, []) == {};
  }

  lemma {:induction false} SomethingIsLeft(order: seq<nat>, n: nat)
    requires |order| < n
    ensures exists i :: 0 <= i < n && i !in order
    decreases n
  {
    if n - 1 in order {
      var p :| 0 <= p < |order| && order[p] == n - 1;
      var rest := order[..p] + order[p + 1..];
      forall q | 0 <= q < |order| && q != p
        ensures order[q] in rest
      {
        assert order[q] == rest[if q < p then q else q - 1];
      }
      SomethingIsLeft(rest, n - 1);
      var i :| 0 <= i < n - 1 && i !in rest;
      assert i !in order;
    } else {
      assert n - 1 !in order;
    }
  }

  /** Without an unplaced node of counter zero, the sort is stalled: flags are exact. */
  lemma Stalls(ps: seq<Plugin>, order: seq<nat>, inDegree: seq<nat>, placed: seq<bool>)
    requires DistinctIds(ps) && forall i :: 0 <= i < |ps| ==> AllKnown(ps, ps[i].deps)
    requires Tracks(ps, order, inDegree, placed) && |order| < |ps|
    requires forall i :: 0 <= i < |ps| ==> placed[i] || inDegree[i] != 0
    ensures forall i :: 0 <= i < |ps| ==> (!placed[i] <==> ReachesCycle(ps, i))
    ensures exists i :: 0 <= i < |ps| && ReachesCycle(ps, i)
  {
    hide AllKnown, ReachesCycle, IsMet;
    forall i | 0 <= i < |ps| && i !in order
      ensures !IsMet(ps, i, order)
    {
      ReadyIsMet(ps, i, order);
    }
    assert IsStalled(ps, order);
    forall i | 0 <= i < |ps| {
      StalledExactlyOnCycles(ps, order, i);
    }
    if forall i :: 0 <= i < |ps| ==> placed[i] {
      SomethingIsLeft(order, |ps|);
    }
  }

  lemma Extends(ps: seq<Plugin>, order: seq<nat>, inDegree: seq<nat>, placed: seq<bool>, ready: nat)
    requires DistinctIds(ps) && forall i :: 0 <= i < |ps| ==> AllKnown(ps, ps[i].deps)
    requires Tracks(ps, order, inDegree, placed) && IsGreedy(ps, order)
    requires ready < |ps| && !placed[ready] && inDegree[ready] == 0
    requires forall i :: 0 <= i < ready ==> placed[i] || inDegree[i] != 0
    ensures IsPartialOrder(ps, order + [ready]) && IsGreedy(ps, order + [ready])
    ensures ready !in order && forall q :: 0 <= q < |order| ==> order[q] < |ps|
  {
    hide AllKnown, IsMet;
    var longer := order + [ready];
    ReadyIsMet(ps, ready, order);
    assert longer[..|order|] == order;
    forall q | 0 <= q < |order|
      ensures longer[..q] == order[..q] && longer[q] == order[q]
    {
    }
    forall i | 0 <= i < ready && i !in order
      ensures !IsMet(ps, i, order)
    {
      ReadyIsMet(ps, i, order);
    }
  }

  lemma Finishes(ps: seq<Plugin>, order: seq<nat>, inDegree: seq<nat>, placed: seq<bool>)
    requires Tracks(ps, order, inDegree, placed) && IsGreedy(ps, order) && |order| == |ps|
    ensures IsLeastRunOrder(ps, order) && IsAcyclic(ps)
  {
    hide ReachesCycle, IsMet, IsGreedy;
    DistinctCoversAll(order, |ps|);
    GreedyIsLeast(ps, order);
    forall i | 0 <= i < |ps|
      ensures !ReachesCycle(ps, i)
    {
      PlacedReachesNoCycle(ps, order, i);
    }
  }

  method Toposort(ps: seq<Plugin>, outOrder: array<nat>, inCycle: array<bool>)
    returns (status: SortStatus, badIndex: nat, badDep: int)
    requires DistinctIds(ps)
    requires outOrder.Length == |ps| && inCycle.Length == |ps|
    modifies outOrder, inCycle
    ensures status == MissingDependency <==> exists i :: 0 <= i < |ps| && !AllKnown(ps, ps[i].deps)
    ensures status == MissingDependency ==> IsFirstMissing(ps, badIndex, badDep)
    ensures status == Sorted <==> (forall i :: 0 <= i < |ps| ==> AllKnown(ps, ps[i].deps)) && IsAcyclic(ps)
    ensures status == Sorted ==> IsLeastRunOrder(ps, outOrder[..])
    ensures forall i :: 0 <= i < |ps| ==> (inCycle[i] <==> status == Cyclic && ReachesCycle(ps, i))
  {
    hide AllKnown, IsPartialOrder, IsGreedy, IsMet, ReachesCycle, IsLeastRunOrder;
    ClearFlags(inCycle);
    var missing;
    missing, badIndex, badDep := FindMissing(ps);
    if missing {
      return MissingDependency, badIndex, badDep;
    }
    var inDegree := new nat[|ps|];
    var placed := new bool[|ps|];
    for i := 0 to |ps|
      invariant forall j :: 0 <= j < i ==> inDegree[j] == |ps[j].deps| && !placed[j]
      invariant forall j :: 0 <= j < inCycle.Length ==> !inCycle[j]
    {
      inDegree[i], placed[i] := |ps[i].deps|, false;
    }
    NothingPlaced(ps, inDegree[..], placed[..]);
    var placedCount := 0;
    while placedCount < |ps|
      invariant placedCount <= |ps|
      invariant Tracks(ps, outOrder[..placedCount], inDegree[..], placed[..])
      invariant IsGreedy(ps, outOrder[..placedCount])
      invariant forall j :: 0 <= j < inCycle.Length ==> !inCycle[j]
    {
      ghost var order := outOrder[..placedCount];
      var found, ready := FindReady(inDegree, placed);
      if !found {
        Stalls(ps, order, inDegree[..], placed[..]);
        MarkUnplaced(placed, inCycle);
        return Cyclic, 0, 0;
      }
      Extends(ps, order, inDegree[..], placed[..], ready);
      outOrder[placedCount] := ready;
      placedCount := placedCount + 1;
      placed[ready] := true;
      assert outOrder[..placedCount] == order + [ready];
      MeetDependents(ps, ready, inDegree, placed, order);
    }
    assert outOrder[..placedCount] == outOrder[..];
    Finishes(ps, outOrder[..], inDegree[..], placed[..]);
    return Sorted, 0, 0;
  }

  /** Some unplaced node is ready, unless a cycle is reachable. */
  lemma AcyclicIsNotStalled(ps: seq<Plugin>, order: seq<nat>) returns (i: nat)
    requires IsAcyclic(ps) && IsPartialOrder(ps, order) && |order| < |ps|
    ensures i < |ps| && i !in order && IsMet(ps, i, order)
  {
    hide ReachesCycle, IsMet;
    assert forall q :: 0 <= q < |order| ==> order[q] !in order[..q];
    SomethingIsLeft(order, |ps|);
    if IsStalled(ps, order) {
      var k :| 0 <= k < |ps| && k !in order;
      StalledExactlyOnCycles(ps, order, k);
    }
    i :| 0 <= i < |ps| && i !in order && IsMet(ps, i, order);
  }

  /** A run order exists exactly when no cycle is reachable from anywhere. */
  lemma OrderableExactlyWhenAcyclic(ps: seq<Plugin>)
    ensures (exists order :: IsRunOrder(ps, order)) <==> IsAcyclic(ps)
  {
    hide ReachesCycle, IsMet;
    if order :| IsRunOrder(ps, order) {
      forall i | 0 <= i < |ps|
        ensures !ReachesCycle(ps, i)
      {
        PlacedReachesNoCycle(ps, order, i);
      }
    }
    if IsAcyclic(ps) {
      var order: seq<nat> := [];
      while |order| < |ps|
        invariant |order| <= |ps| && IsPartialOrder(ps, order)
      {
        var i := AcyclicIsNotStalled(ps, order);
        ghost var before := order;
        order := order + [i];
        assert forall q :: 0 <= q < |before| ==> order[..q] == before[..q];
        assert order[..|before|] == before;
      }
      DistinctCoversAll(order, |ps|);
      assert IsRunOrder(ps, order);
    }
  }
}
