/** The scan worker pool as interleaved atomic steps: a parent that creates and joins threads,
    and workers that claim target indices from one shared cursor. */
module WorkerPool {
  import opened Wrappers

  const HARD_CAP_WORKERS := 1024

  /** Where a worker is in its loop: before the atomic fetch-and-add, scanning the index it
      got, about to store the return code, or out of the loop. */
  datatype Worker = NotStarted | Fetching | Scanning(index: nat) | Recording(index: nat, rc: int) | Exited

  /** Where the parent is. `created` threads exist once creation has ended. */
  datatype Parent = Creating(next: nat) | Joining(created: nat, next: nat) | Returned(created: nat, rc: int)

  /** A result slot, with how often each half has been stored and by whom. */
  datatype Slot = Slot(result: Option<int>, rc: Option<int>, resultWriters: seq<nat>, rcWriters: seq<nat>)

  /** `claimants[i]` lists the workers the cursor has handed index i to; `scan(i)` is the
      result and return code that scanning target i yields in this run. */
  datatype Pool = Pool(scan: nat -> (int, int), next: nat, parent: Parent, createFailed: bool, joinFailed: bool,
                       workers: seq<Worker>, claimants: seq<seq<nat>>, slots: seq<Slot>)

  datatype Event =
    | CreateOk
    | CreateFails
    | CreationEnds
    | Claim(worker: nat)
    | ScanEnds(worker: nat)
    | RecordRc(worker: nat)
    | Join
    | JoinFails
    | Return

  /** How many threads are asked for: clamped, and never more than there are targets. */
  function WorkerCount(targets: nat, maxWorkers: int): nat {
    var clamped := if maxWorkers < 1 then 1 else if maxWorkers > HARD_CAP_WORKERS then HARD_CAP_WORKERS else maxWorkers;
    if clamped > targets then targets else clamped
  }

  function Initial(scan: nat -> (int, int), targets: nat, maxWorkers: int): Pool {
    Pool(scan, 0, Creating(0), false, false, seq(WorkerCount(targets, maxWorkers), _ => NotStarted),
         seq(targets, _ => []), seq(targets, _ => Slot(None, None, [], [])))
  }

  // ---- steps ----

  predicate Enabled(p: Pool, e: Event) {
    match e
    case CreateOk => p.parent.Creating? && p.parent.next < |p.workers|
    case CreateFails => p.parent.Creating? && p.parent.next < |p.workers|
    case CreationEnds => p.parent.Creating? && p.parent.next == |p.workers|
    case Claim(w) => w < |p.workers| && p.workers[w].Fetching?
    case ScanEnds(w) => w < |p.workers| && p.workers[w].Scanning? && p.workers[w].index < |p.slots|
    case RecordRc(w) => w < |p.workers| && p.workers[w].Recording? && p.workers[w].index < |p.slots|
    case Join =>
      p.parent.Joining? && p.parent.next < p.parent.created <= |p.workers| && p.workers[p.parent.next].Exited?
    case JoinFails => p.parent.Joining? && p.parent.next < p.parent.created
    case Return => p.parent.Joining? && p.parent.next == p.parent.created
  }

  function Step(p: Pool, e: Event): Pool
    requires Enabled(p, e)
  {
    match e
    case CreateOk =>
      p.(workers := p.workers[p.parent.next := Fetching], parent := Creating(p.parent.next + 1))
    case CreateFails =>
      p.(createFailed := true, parent := Joining(p.parent.next, 0))
    case CreationEnds =>
      p.(parent := Joining(p.parent.next, 0))
    case Claim(w) =>
      if p.next < |p.claimants| then
        p.(next := p.next + 1, workers := p.workers[w := Scanning(p.next)],
           claimants := p.claimants[p.next := p.claimants[p.next] + [w]])
      else
        p.(next := p.next + 1, workers := p.workers[w := Exited])
    case ScanEnds(w) =>
      var i := p.workers[w].index;
      p.(workers := p.workers[w := Recording(i, p.scan(i).1)],
         slots := p.slots[i := p.slots[i].(result := Some(p.scan(i).0),
                                           resultWriters := p.slots[i].resultWriters + [w])])
    case RecordRc(w) =>
      var i := p.workers[w].index;
      p.(workers := p.workers[w := Fetching],
         slots := p.slots[i := p.slots[i].(rc := Some(p.workers[w].rc), rcWriters := p.slots[i].rcWriters + [w])])
    case Join =>
      p.(parent := p.parent.(next := p.parent.next + 1))
    case JoinFails =>
      p.(joinFailed := true, parent := p.parent.(next := p.parent.next + 1))
    case Return =>
      p.(parent := Returned(p.parent.created, if p.createFailed || p.joinFailed then -1 else 0))
  }

  function After(p: Pool, es: seq<Event>): Pool
    requires IsRun(p, es)
    decreases |es|, 1
  {
    if es == [] then p else Step(After(p, es[..|es| - 1]), es[|es| - 1])
  }

  /** Every step of the run is possible where it is taken. */
  predicate IsRun(p: Pool, es: seq<Event>)
    decreases |es|, 0
  {
    es == [] || (IsRun(p, es[..|es| - 1]) && Enabled(After(p, es[..|es| - 1]), es[|es| - 1]))
  }

  // ---- the invariant ----

  function Created(p: Pool): nat {
    match p.parent
    case Creating(next) => next
    case Joining(created, _) => created
    case Returned(created, _) => created
  }

  /** Which halves of slot i have been stored depends only on where its claimant is. */
  ghost predicate SlotMatchesClaimant(p: Pool, i: nat)
    requires i < |p.claimants| == |p.slots|
  {
    if i >= p.next then p.claimants[i] == [] && p.slots[i].resultWriters == [] && p.slots[i].rcWriters == []
    else
      |p.claimants[i]| == 1 &&
      var w := p.claimants[i][0];
      w < Created(p) && w < |p.workers| &&
      if p.workers[w] == Scanning(i) then p.slots[i].resultWriters == [] && p.slots[i].rcWriters == []
      else
        && p.slots[i].resultWriters == [w] && p.slots[i].result == Some(p.scan(i).0)
        && if p.workers[w].Recording? && p.workers[w].index == i
           then p.workers[w].rc == p.scan(i).1 && p.slots[i].rcWriters == []
           else p.slots[i].rcWriters == [w] && p.slots[i].rc == Some(p.scan(i).1)
  }

  /** A busy worker works on the index it claimed, and only that. */
  ghost predicate WorkerIsSound(p: Pool, w: nat)
    requires w < |p.workers|
  {
    match p.workers[w]
    case NotStarted => w >= Created(p)
    case Fetching => w < Created(p)
    case Scanning(i) => w < Created(p) && i < |p.claimants| && i < p.next && p.claimants[i] == [w]
    case Recording(i, _) => w < Created(p) && i < |p.claimants| && i < p.next && p.claimants[i] == [w]
    case Exited => w < Created(p) && p.next >= |p.claimants|
  }

  ghost predicate Invariant(p: Pool) {
    && |p.claimants| == |p.slots|
    && Created(p) <= |p.workers|
    && (p.parent.Joining? ==> p.parent.next <= p.parent.created)
    && (forall w :: 0 <= w < |p.workers| ==> WorkerIsSound(p, w))
    && (forall i :: 0 <= i < |p.claimants| ==> SlotMatchesClaimant(p, i))
  }

  lemma InitialIsInvariant(scan: nat -> (int, int), targets: nat, maxWorkers: int)
    ensures Invariant(Initial(scan, targets, maxWorkers))
  {
  }

  lemma UnclaimedIsEmpty(p: Pool)
    requires Invariant(p) && p.next < |p.claimants|
    ensures p.claimants[p.next] == []
  {
    assert SlotMatchesClaimant(p, p.next);
  }

  lemma StepKeepsWorkersSound(p: Pool, e: Event)
    requires Invariant(p) && Enabled(p, e)
    ensures var q := Step(p, e); forall w :: 0 <= w < |q.workers| ==> WorkerIsSound(q, w)
  {
    hide SlotMatchesClaimant;
    var q := Step(p, e);
    if e.Claim? && p.next < |p.claimants| {
      UnclaimedIsEmpty(p);
    }
    forall w | 0 <= w < |q.workers|
      ensures WorkerIsSound(q, w)
    {
      assert WorkerIsSound(p, w);
    }
  }

  lemma ClaimKeepsSlot(p: Pool, w: nat, i: nat)
    requires Enabled(p, Claim(w)) && WorkerIsSound(p, w) && i < |p.claimants| == |p.slots|
    requires SlotMatchesClaimant(p, i)
    ensures SlotMatchesClaimant(Step(p, Claim(w)), i)
  {
  }

  lemma ScanEndsKeepsSlot(p: Pool, w: nat, i: nat)
    requires Enabled(p, ScanEnds(w)) && WorkerIsSound(p, w) && i < |p.claimants| == |p.slots|
    requires SlotMatchesClaimant(p, i)
    ensures SlotMatchesClaimant(Step(p, ScanEnds(w)), i)
  {
  }

  lemma RecordRcKeepsSlot(p: Pool, w: nat, i: nat)
    requires Enabled(p, RecordRc(w)) && WorkerIsSound(p, w) && i < |p.claimants| == |p.slots|
    requires SlotMatchesClaimant(p, i)
    ensures SlotMatchesClaimant(Step(p, RecordRc(w)), i)
  {
  }

  /** The parent's own steps; the thread it creates has claimed nothing. */
  lemma ParentKeepsSlot(p: Pool, e: Event, i: nat)
    requires Enabled(p, e) && !e.Claim? && !e.ScanEnds? && !e.RecordRc? && i < |p.claimants| == |p.slots|
    requires e.CreateOk? ==> WorkerIsSound(p, p.parent.next)
    requires SlotMatchesClaimant(p, i)
    ensures SlotMatchesClaimant(Step(p, e), i)
  {
  }

  lemma StepKeepsSlot(p: Pool, e: Event, i: nat)
    requires Invariant(p) && Enabled(p, e) && i < |p.claimants|
    ensures |Step(p, e).claimants| == |Step(p, e).slots| == |p.slots|
    ensures SlotMatchesClaimant(Step(p, e), i)
  {
    hide SlotMatchesClaimant, WorkerIsSound;
    assert SlotMatchesClaimant(p, i);
    match e {
      case Claim(w) => ClaimKeepsSlot(p, w, i);
      case ScanEnds(w) => ScanEndsKeepsSlot(p, w, i);
      case RecordRc(w) => RecordRcKeepsSlot(p, w, i);
      case _ => ParentKeepsSlot(p, e, i);
    }
  }

  lemma StepKeepsInvariant(p: Pool, e: Event)
    requires Invariant(p) && Enabled(p, e)
    ensures Invariant(Step(p, e))
    ensures |Step(p, e).slots| == |p.slots| && |Step(p, e).workers| == |p.workers| && Step(p, e).scan == p.scan
  {
    hide SlotMatchesClaimant, WorkerIsSound;
    StepKeepsWorkersSound(p, e);
    forall i | 0 <= i < |p.claimants| {
      StepKeepsSlot(p, e, i);
    }
  }

  /** Whatever the interleaving, every reachable state satisfies the invariant. */
  lemma {:induction false} RunKeepsInvariant(p: Pool, es: seq<Event>)
    requires Invariant(p) && IsRun(p, es)
    ensures Invariant(After(p, es)) && After(p, es).scan == p.scan
    ensures |After(p, es).slots| == |p.slots| && |After(p, es).workers| == |p.workers|
    decreases |es|
  {
    if es != [] {
      RunKeepsInvariant(p, es[..|es| - 1]);
      StepKeepsInvariant(After(p, es[..|es| - 1]), es[|es| - 1]);
    }
  }

  // ---- main results ----

  ghost predicate AllExited(p: Pool) {
    !p.parent.Creating? && forall w :: 0 <= w < Created(p) && w < |p.workers| ==> p.workers[w].Exited?
  }

  /** Index i was handed to exactly one worker, which stored both halves of its slot once. */
  ghost predicate DoneOnce(p: Pool, i: nat)
    requires i < |p.slots| && i < |p.claimants|
  {
    && p.slots[i].result == Some(p.scan(i).0) && p.slots[i].rc == Some(p.scan(i).1)
    && exists w :: 0 <= w < Created(p) && p.claimants[i] == [w] &&
                   p.slots[i].resultWriters == [w] && p.slots[i].rcWriters == [w]
  }

  ghost predicate Untouched(p: Pool, i: nat)
    requires i < |p.slots| && i < |p.claimants|
  {
    p.claimants[i] == [] && p.slots[i].resultWriters == [] && p.slots[i].rcWriters == []
  }

  /** Under every interleaving and any failed thread creations: once the created workers have
      exited, every target has been scanned by exactly one of them and its slot, stored exactly
      once, holds what that scan returned, or, when no thread could be created, nothing has been touched. */
  lemma EveryTargetExactlyOnce(scan: nat -> (int, int), targets: nat, maxWorkers: int, es: seq<Event>)
    requires IsRun(Initial(scan, targets, maxWorkers), es)
    requires AllExited(After(Initial(scan, targets, maxWorkers), es))
    ensures var p := After(Initial(scan, targets, maxWorkers), es);
            && |p.slots| == |p.claimants| == targets && p.scan == scan
            && forall i :: 0 <= i < targets ==> if Created(p) > 0 then DoneOnce(p, i) else Untouched(p, i)
  {
    InitialIsInvariant(scan, targets, maxWorkers);
    RunKeepsInvariant(Initial(scan, targets, maxWorkers), es);
    var p := After(Initial(scan, targets, maxWorkers), es);
    forall i | 0 <= i < targets
      ensures if Created(p) > 0 then DoneOnce(p, i) else Untouched(p, i)
    {
      assert SlotMatchesClaimant(p, i);
      if Created(p) > 0 {
        assert WorkerIsSound(p, 0);
        var w := p.claimants[i][0];
        assert WorkerIsSound(p, w);
        assert p.claimants[i] == [w];
      }
    }
  }

  /** At every moment of every run no index has two claimants and no slot two writers. */
  lemma NeverTwice(scan: nat -> (int, int), targets: nat, maxWorkers: int, es: seq<Event>)
    requires IsRun(Initial(scan, targets, maxWorkers), es)
    ensures var p := After(Initial(scan, targets, maxWorkers), es);
            && |p.slots| == |p.claimants| == targets
            && forall i :: 0 <= i < targets ==>
                 && |p.claimants[i]| <= 1
                 && p.slots[i].resultWriters <= p.claimants[i] && p.slots[i].rcWriters <= p.slots[i].resultWriters
  {
    InitialIsInvariant(scan, targets, maxWorkers);
    RunKeepsInvariant(Initial(scan, targets, maxWorkers), es);
    var p := After(Initial(scan, targets, maxWorkers), es);
    forall i | 0 <= i < targets
      ensures |p.claimants[i]| <= 1
      ensures p.slots[i].resultWriters <= p.claimants[i] && p.slots[i].rcWriters <= p.slots[i].resultWriters
    {
      assert SlotMatchesClaimant(p, i);
      assert i < p.next ==> p.claimants[i] == [p.claimants[i][0]];
    }
  }

  /** The run has returned, and no join reported an error. */
  ghost predicate JoinedAll(p: Pool) {
    p.parent.Returned? && !p.joinFailed
  }

  ghost predicate JoinedSoFar(p: Pool) {
    !p.joinFailed ==>
      && (p.parent.Joining? ==> forall w :: 0 <= w < p.parent.next && w < |p.workers| ==> p.workers[w].Exited?)
      && (p.parent.Returned? ==> forall w :: 0 <= w < p.parent.created && w < |p.workers| ==> p.workers[w].Exited?)
  }

  lemma StepKeepsJoined(p: Pool, e: Event)
    requires Invariant(p) && Enabled(p, e) && JoinedSoFar(p)
    ensures JoinedSoFar(Step(p, e))
  {
    hide SlotMatchesClaimant, WorkerIsSound;
  }

  lemma {:induction false} JoinsWait(p: Pool, es: seq<Event>)
    requires Invariant(p) && p.parent.Creating? && IsRun(p, es)
    ensures JoinedSoFar(After(p, es))
    decreases |es|
  {
    hide Invariant, Step, Enabled;
    if es != [] {
      JoinsWait(p, es[..|es| - 1]);
      RunKeepsInvariant(p, es[..|es| - 1]);
      StepKeepsJoined(After(p, es[..|es| - 1]), es[|es| - 1]);
    }
  }

  /** Once the pool has returned without a join error the caller may read every slot. */
  lemma ReturnMeansDone(scan: nat -> (int, int), targets: nat, maxWorkers: int, es: seq<Event>)
    requires IsRun(Initial(scan, targets, maxWorkers), es)
    requires JoinedAll(After(Initial(scan, targets, maxWorkers), es))
    ensures AllExited(After(Initial(scan, targets, maxWorkers), es))
  {
    InitialIsInvariant(scan, targets, maxWorkers);
    JoinsWait(Initial(scan, targets, maxWorkers), es);
    RunKeepsInvariant(Initial(scan, targets, maxWorkers), es);
  }

  // ---- how many threads, and the code returned ----

  /** What the events of a run tell of its last state: the threads created and the failures. */
  ghost predicate Recounts(p: Pool, es: seq<Event>, asked: nat) {
    && |p.workers| == asked
    && Created(p) == multiset(es)[CreateOk]
    && (p.createFailed <==> CreateFails in es)
    && (p.joinFailed <==> JoinFails in es)
    && (!p.parent.Creating? && !p.createFailed ==> Created(p) == asked)
    && (p.parent.Returned? ==> p.parent.rc == if p.createFailed || p.joinFailed then -1 else 0)
  }

  lemma StepRecounts(p: Pool, es: seq<Event>, e: Event, asked: nat)
    requires Recounts(p, es, asked) && Enabled(p, e)
    ensures Recounts(Step(p, e), es + [e], asked)
  {
    assert multiset(es + [e]) == multiset(es) + multiset{e};
    assert CreateFails in es + [e] <==> CreateFails in es || e == CreateFails;
    assert JoinFails in es + [e] <==> JoinFails in es || e == JoinFails;
  }

  lemma {:induction false} RunRecounts(p: Pool, es: seq<Event>)
    requires IsRun(p, es) && p.parent == Creating(0) && !p.createFailed && !p.joinFailed
    ensures Recounts(After(p, es), es, |p.workers|)
    decreases |es|
  {
    hide Step, Enabled;
    if es == [] {
      assert multiset(es) == multiset{};
    } else {
      var front, e := es[..|es| - 1], es[|es| - 1];
      RunRecounts(p, front);
      StepRecounts(After(p, front), front, e, |p.workers|);
      assert front + [e] == es;
    }
  }

  /** The threads asked for: one for each target, but at least one when there is a target, no
      more than the setting when that is positive, and never more than 1024. */
  ghost predicate IsThreadCount(n: nat, targets: nat, maxWorkers: int) {
    && n <= targets && n <= 1024 && (maxWorkers >= 1 ==> n <= maxWorkers) && (maxWorkers < 1 ==> n <= 1)
    && (n == targets || n == 1024 || n == maxWorkers || (n == 1 && maxWorkers < 1))
  }

  lemma InitialCounts(scan: nat -> (int, int), targets: nat, maxWorkers: int)
    ensures var p := Initial(scan, targets, maxWorkers);
            && IsThreadCount(|p.workers|, targets, maxWorkers)
            && (targets > 0 ==> |p.workers| > 0)
            && p.parent == Creating(0) && !p.createFailed && !p.joinFailed
  {
  }

  /** The code returned is zero exactly when no thread creation and no join has failed. */
  lemma CodeIsExact(scan: nat -> (int, int), targets: nat, maxWorkers: int, es: seq<Event>)
    requires IsRun(Initial(scan, targets, maxWorkers), es)
    requires After(Initial(scan, targets, maxWorkers), es).parent.Returned?
    ensures After(Initial(scan, targets, maxWorkers), es).parent.rc == 0 <==>
            CreateFails !in es && JoinFails !in es
  {
    InitialCounts(scan, targets, maxWorkers);
    RunRecounts(Initial(scan, targets, maxWorkers), es);
  }

  lemma AllJoined(p: Pool)
    requires p.parent.Returned? && !p.joinFailed
    ensures JoinedAll(p)
  {
  }

  /** A run that returns zero has scanned every target exactly once, on as many threads as were
      asked for, whatever the interleaving. */
  lemma ZeroMeansAllScanned(scan: nat -> (int, int), targets: nat, maxWorkers: int, es: seq<Event>)
    requires IsRun(Initial(scan, targets, maxWorkers), es)
    requires After(Initial(scan, targets, maxWorkers), es).parent.Returned?
    requires After(Initial(scan, targets, maxWorkers), es).parent.rc == 0
    ensures var p := After(Initial(scan, targets, maxWorkers), es);
            && IsThreadCount(multiset(es)[CreateOk], targets, maxWorkers)
            && |p.slots| == |p.claimants| == targets && p.scan == scan
            && forall i :: 0 <= i < targets ==> DoneOnce(p, i)
  {
    hide DoneOnce, Untouched, AllExited, JoinedAll, IsThreadCount, Initial, IsRun, After;
    var first := Initial(scan, targets, maxWorkers);
    InitialCounts(scan, targets, maxWorkers);
    RunRecounts(first, es);
    AllJoined(After(first, es));
    ReturnMeansDone(scan, targets, maxWorkers, es);
    EveryTargetExactlyOnce(scan, targets, maxWorkers, es);
  }

  /** Even when some creations fail, one thread is enough: without a failed join every target is
      scanned exactly once if any thread was created, and none is touched otherwise. */
  lemma OneThreadIsEnough(scan: nat -> (int, int), targets: nat, maxWorkers: int, es: seq<Event>)
    requires IsRun(Initial(scan, targets, maxWorkers), es) && JoinFails !in es
    requires After(Initial(scan, targets, maxWorkers), es).parent.Returned?
    ensures var p := After(Initial(scan, targets, maxWorkers), es);
            && |p.slots| == |p.claimants| == targets && p.scan == scan
            && forall i :: 0 <= i < targets ==> if CreateOk in es then DoneOnce(p, i) else Untouched(p, i)
  {
    hide DoneOnce, Untouched, AllExited, JoinedAll, Initial, IsRun, After;
    var first := Initial(scan, targets, maxWorkers);
    InitialCounts(scan, targets, maxWorkers);
    RunRecounts(first, es);
    AllJoined(After(first, es));
    ReturnMeansDone(scan, targets, maxWorkers, es);
    EveryTargetExactlyOnce(scan, targets, maxWorkers, es);
    assert CreateOk in es <==> multiset(es)[CreateOk] > 0;
  }

  // ---- every run ends ----

  function Weight(w: Worker): nat {
    match w
    case NotStarted => 0
    case Fetching => 1
    case Scanning(_) => 3
    case Recording(_, _) => 2
    case Exited => 0
  }

  function TotalWeight(ws: seq<Worker>): nat {
    if ws == [] then 0 else TotalWeight(ws[..|ws| - 1]) + Weight(ws[|ws| - 1])
  }

  lemma {:induction false} TotalWeightOfUpdate(ws: seq<Worker>, w: nat, v: Worker)
    requires w < |ws|
    ensures TotalWeight(ws[w := v]) == TotalWeight(ws) - Weight(ws[w]) + Weight(v)
    ensures TotalWeight(ws) >= Weight(ws[w])
  {
    var front := ws[..|ws| - 1];
    if w < |front| {
      TotalWeightOfUpdate(front, w, v);
      assert ws[w := v][..|ws| - 1] == front[w := v];
    } else {
      assert ws[w := v][..|ws| - 1] == front;
    }
  }

  /** An upper bound on the steps still to come. */
  function StepsLeft(p: Pool): int {
    3 * (if p.next < |p.claimants| then |p.claimants| - p.next else 0) + TotalWeight(p.workers) +
    match p.parent
    case Creating(next) => 3 * (|p.workers| - next) + next + 2
    case Joining(created, next) => created - next + 1
    case Returned(_, _) => 0
  }

  lemma StepsLeftIsNat(p: Pool)
    requires Invariant(p)
    ensures StepsLeft(p) >= 0
  {
  }

  lemma WorkerStepsLeft(p: Pool, e: Event, w: nat)
    requires Enabled(p, e) && (e == Claim(w) || e == ScanEnds(w) || e == RecordRc(w))
    ensures StepsLeft(Step(p, e)) < StepsLeft(p)
  {
    hide TotalWeight;
    TotalWeightOfUpdate(p.workers, w, Step(p, e).workers[w]);
  }

  lemma ParentStepsLeft(p: Pool, e: Event)
    requires Invariant(p) && Enabled(p, e) && !e.Claim? && !e.ScanEnds? && !e.RecordRc?
    ensures StepsLeft(Step(p, e)) < StepsLeft(p)
  {
    hide TotalWeight, SlotMatchesClaimant;
    if e.CreateOk? {
      assert WorkerIsSound(p, p.parent.next);
      TotalWeightOfUpdate(p.workers, p.parent.next, Fetching);
    }
  }

  lemma StepsLeftDecreases(p: Pool, e: Event)
    requires Invariant(p) && Enabled(p, e)
    ensures 0 <= StepsLeft(Step(p, e)) < StepsLeft(p)
  {
    hide SlotMatchesClaimant, WorkerIsSound, StepsLeft;
    if e.Claim? || e.ScanEnds? || e.RecordRc? {
      WorkerStepsLeft(p, e, e.worker);
    } else {
      ParentStepsLeft(p, e);
    }
    StepKeepsInvariant(p, e);
    StepsLeftIsNat(Step(p, e));
  }

  /** No run is longer than the bound at its start. */
  lemma {:induction false} RunsAreBounded(p: Pool, es: seq<Event>)
    requires Invariant(p) && IsRun(p, es)
    ensures |es| + StepsLeft(After(p, es)) <= StepsLeft(p)
    ensures es != [] ==> StepsLeft(After(p, es)) >= 0
    decreases |es|
  {
    if es != [] {
      RunKeepsInvariant(p, es[..|es| - 1]);
      RunsAreBounded(p, es[..|es| - 1]);
      StepsLeftDecreases(After(p, es[..|es| - 1]), es[|es| - 1]);
    }
  }

  /** Until the parent has returned some step is possible: the pool never deadlocks. */
  lemma NeverStuck(p: Pool) returns (e: Event)
    requires Invariant(p) && !p.parent.Returned?
    ensures Enabled(p, e)
  {
    match p.parent {
      case Creating(next) =>
        e := if next < |p.workers| then CreateOk else CreationEnds;
      case Joining(created, next) =>
        if next == created {
          e := Return;
        } else {
          assert WorkerIsSound(p, next);
          match p.workers[next] {
            case Fetching => e := Claim(next);
            case Scanning(_) => e := ScanEnds(next);
            case Recording(_, _) => e := RecordRc(next);
            case Exited => e := Join;
          }
        }
    }
  }
}
