/** What ingesting records again does to the tables: exactly when a replay absorbs what earlier,
    abandoned attempts have left behind. */
module NvdReplay {
  import opened Wrappers
  import opened NvdIngest

  // ---- the match table after any elements ----

  ghost predicate MatchStores(schema: Schema, cveId: string, m: MatchEntry, key: CpeKey) {
    IsStored(schema, cveId, m) && OfferedCpe(cveId, m).value.0 == key
  }

  /** Some entry is stored under the key. */
  ghost predicate MatchesStore(schema: Schema, cveId: string, ms: seq<MatchEntry>, key: CpeKey) {
    exists i :: 0 <= i < |ms| && MatchStores(schema, cveId, ms[i], key)
  }

  lemma MatchesStoreSnoc(schema: Schema, cveId: string, ms: seq<MatchEntry>, m: MatchEntry, key: CpeKey)
    ensures MatchesStore(schema, cveId, ms + [m], key) <==>
            MatchesStore(schema, cveId, ms, key) || MatchStores(schema, cveId, m, key)
  {
    hide MatchStores;
    var longer := ms + [m];
    if MatchesStore(schema, cveId, ms, key) {
      var i :| 0 <= i < |ms| && MatchStores(schema, cveId, ms[i], key);
      assert longer[i] == ms[i];
    }
    assert longer[|ms|] == m;
    if MatchesStore(schema, cveId, longer, key) {
      var i :| 0 <= i < |longer| && MatchStores(schema, cveId, longer[i], key);
      assert i < |ms| ==> longer[i] == ms[i];
    }
  }

  /** A key holds `data` in one table exactly when it does after the other changes. */
  ghost predicate Extends(after: map<CpeKey, CpeData>, before: map<CpeKey, CpeData>, key: CpeKey, stored: bool) {
    && (key in after <==> key in before || stored)
    && (key in before ==> after[key] == before[key])
    && (key in after && key !in before ==> after[key] == DataOf(key.uri))
  }

  lemma MatchExtends(schema: Schema, cpes: map<CpeKey, CpeData>, cveId: string, m: MatchEntry, key: CpeKey)
    ensures Extends(InsertMatch(schema, cpes, cveId, m), cpes, key, MatchStores(schema, cveId, m, key))
  {
    hide OfferedCpe, DataOf;
  }

  lemma {:induction false} MatchesExtend(schema: Schema, cpes: map<CpeKey, CpeData>, cveId: string,
                                        ms: seq<MatchEntry>, key: CpeKey)
    ensures Extends(InsertMatches(schema, cpes, cveId, ms), cpes, key, MatchesStore(schema, cveId, ms, key))
  {
    hide InsertMatch, MatchStores, DataOf;
    if ms == [] {
    } else {
      var front, m := ms[..|ms| - 1], ms[|ms| - 1];
      MatchesExtend(schema, cpes, cveId, front, key);
      MatchExtends(schema, InsertMatches(schema, cpes, cveId, front), cveId, m, key);
      MatchesStoreSnoc(schema, cveId, front, m, key);
      assert front + [m] == ms;
    }
  }

  ghost predicate ElementStores(schema: Schema, e: Element, key: CpeKey) {
    IsIngested(schema, e) && MatchesStore(schema, e.id.value, BudgetedMatches(e), key)
  }

  /** Some element stores an entry under the key. */
  ghost predicate Stores(schema: Schema, es: seq<Element>, key: CpeKey) {
    es != [] && (Stores(schema, es[..|es| - 1], key) || ElementStores(schema, es[|es| - 1], key))
  }

  /** The match table after any elements: what was there, and the data of every stored key. */
  lemma {:induction false} CpesAfter(schema: Schema, t: Tables, es: seq<Element>, key: CpeKey)
    ensures Extends(ApplyElements(schema, t, es).cpes, t.cpes, key, Stores(schema, es, key))
  {
    hide MatchesStore, InsertMatches, IsIngested, BudgetedMatches, DataOf;
    if es != [] {
      var before, e := ApplyElements(schema, t, es[..|es| - 1]), es[|es| - 1];
      CpesAfter(schema, t, es[..|es| - 1], key);
      if IsIngested(schema, e) {
        MatchesExtend(schema, before.cpes, e.id.value, BudgetedMatches(e), key);
      }
    }
  }

  // ---- the CVE table after any elements ----

  ghost predicate OffersFor(schema: Schema, e: Element, id: string) {
    IsIngested(schema, e) && e.id.value == id
  }

  /** The last row offered for `id`, if any element offers one. */
  ghost function LastOffer(schema: Schema, es: seq<Element>, id: string): Option<CveRow> {
    if es == [] then None
    else if OffersFor(schema, es[|es| - 1], id) then OfferedRow(es[|es| - 1])
    else LastOffer(schema, es[..|es| - 1], id)
  }

  /** The first row offered for `id`. */
  ghost function FirstOffer(schema: Schema, es: seq<Element>, id: string): (r: Option<CveRow>)
    ensures r.Some? <==> LastOffer(schema, es, id).Some?
  {
    if es == [] then None
    else
      var front := FirstOffer(schema, es[..|es| - 1], id);
      if front.Some? then front
      else if OffersFor(schema, es[|es| - 1], id) then OfferedRow(es[|es| - 1])
      else None
  }

  /** What a row becomes: the last offer wins, except that the first `published` stays. */
  ghost function RowAfter(schema: Schema, row: Option<CveRow>, es: seq<Element>, id: string): Option<CveRow> {
    var last := LastOffer(schema, es, id);
    if last.None? then row
    else if row.Some? then Some(last.value.(published := row.value.published))
    else Some(last.value.(published := FirstOffer(schema, es, id).value.published))
  }

  function RowOf(cves: map<string, CveRow>, id: string): Option<CveRow> {
    if id in cves then Some(cves[id]) else None
  }

  lemma {:induction false} CvesAfter(schema: Schema, t: Tables, es: seq<Element>, id: string)
    ensures RowOf(ApplyElements(schema, t, es).cves, id) == RowAfter(schema, RowOf(t.cves, id), es, id)
  {
    hide IsIngested, OfferedRow, InsertMatches, BudgetedMatches;
    if es != [] {
      CvesAfter(schema, t, es[..|es| - 1], id);
    }
  }

  // ---- exactly when a replay absorbs what came before ----

  /** Every key stored by `done` was there already or is stored again by `es`. */
  ghost predicate KeysCovered(schema: Schema, t: Tables, done: seq<Element>, es: seq<Element>) {
    forall key :: Stores(schema, done, key) ==> key in t.cpes || Stores(schema, es, key)
  }

  /** Nothing of what `done` made of the row survives `es`. A row that `es` offers again keeps
      only the publication date, which matters if `done` was the first to set it; a row that
      `es` does not offer must be as it was. */
  ghost predicate RowCovered(schema: Schema, t: Tables, done: seq<Element>, es: seq<Element>, id: string) {
    var first, again := FirstOffer(schema, done, id), FirstOffer(schema, es, id);
    first.Some? ==>
      if again.Some? then id in t.cves || first.value.published == again.value.published
      else RowAfter(schema, RowOf(t.cves, id), done, id) == RowOf(t.cves, id)
  }

  lemma RowsAgreeExactly(schema: Schema, t: Tables, done: seq<Element>, es: seq<Element>, id: string)
    ensures var row := RowOf(t.cves, id);
            RowAfter(schema, RowAfter(schema, row, done, id), es, id) == RowAfter(schema, row, es, id) <==>
            RowCovered(schema, t, done, es, id)
  {
    hide LastOffer, FirstOffer;
  }

  lemma SameRowsSameMap(a: map<string, CveRow>, b: map<string, CveRow>)
    ensures a == b <==> forall id :: RowOf(a, id) == RowOf(b, id)
  {
    if forall id :: RowOf(a, id) == RowOf(b, id) {
      forall id
        ensures id in a <==> id in b
        ensures id in a ==> a[id] == b[id]
      {
        assert RowOf(a, id) == RowOf(b, id);
      }
      assert a == b;
    }
  }

  /** Ingesting `es` over whatever `done` has left gives what ingesting `es` alone gives, if and
      only if every key and every row of `done` is covered. */
  lemma ReplayAbsorbsExactly(schema: Schema, t: Tables, done: seq<Element>, es: seq<Element>)
    ensures ApplyElements(schema, ApplyElements(schema, t, done), es) == ApplyElements(schema, t, es) <==>
            KeysCovered(schema, t, done, es) && forall id :: RowCovered(schema, t, done, es, id)
  {
    hide ApplyElements, Stores, RowAfter, RowCovered, DataOf;
    var mid := ApplyElements(schema, t, done);
    var twice, once := ApplyElements(schema, mid, es), ApplyElements(schema, t, es);
    forall id
      ensures RowOf(twice.cves, id) == RowOf(once.cves, id) <==> RowCovered(schema, t, done, es, id)
    {
      CvesAfter(schema, t, done, id);
      CvesAfter(schema, mid, es, id);
      CvesAfter(schema, t, es, id);
      RowsAgreeExactly(schema, t, done, es, id);
    }
    SameRowsSameMap(twice.cves, once.cves);
    forall key
      ensures key in once.cpes ==> key in twice.cpes && twice.cpes[key] == once.cpes[key]
      ensures key in twice.cpes && key !in once.cpes <==>
              Stores(schema, done, key) && key !in t.cpes && !Stores(schema, es, key)
    {
      CpesAfter(schema, t, done, key);
      CpesAfter(schema, mid, es, key);
      CpesAfter(schema, t, es, key);
    }
    if KeysCovered(schema, t, done, es) {
      assert twice.cpes == once.cpes;
    }
  }

  // ---- what follows for replays of the same or of newer records ----

  lemma {:induction false} StoresOfConcat(schema: Schema, a: seq<Element>, b: seq<Element>, key: CpeKey)
    ensures Stores(schema, a + b, key) <==> Stores(schema, a, key) || Stores(schema, b, key)
  {
    hide ElementStores;
    if b == [] {
      assert a + b == a;
    } else {
      assert (a + b)[..|a + b| - 1] == a + b[..|b| - 1];
      StoresOfConcat(schema, a, b[..|b| - 1], key);
    }
  }

  lemma {:induction false} FirstOfferOfConcat(schema: Schema, a: seq<Element>, b: seq<Element>, id: string)
    ensures FirstOffer(schema, a + b, id) ==
            if FirstOffer(schema, a, id).Some? then FirstOffer(schema, a, id) else FirstOffer(schema, b, id)
  {
    hide OffersFor, OfferedRow;
    if b == [] {
      assert a + b == a;
    } else {
      assert (a + b)[..|a + b| - 1] == a + b[..|b| - 1];
      FirstOfferOfConcat(schema, a, b[..|b| - 1], id);
    }
  }

  /** Having ingested a front part of `es` before makes no difference. */
  lemma FrontIsAbsorbed(schema: Schema, t: Tables, done: seq<Element>, rest: seq<Element>)
    ensures ApplyElements(schema, ApplyElements(schema, t, done), done + rest) == ApplyElements(schema, t, done + rest)
  {
    hide ApplyElements, Stores, FirstOffer;
    forall key {
      StoresOfConcat(schema, done, rest, key);
    }
    forall id {
      FirstOfferOfConcat(schema, done, rest, id);
    }
    ReplayAbsorbsExactly(schema, t, done, done + rest);
  }

  /** Applying the same elements twice in a row is applying them once. */
  lemma ApplyTwice(schema: Schema, t: Tables, es: seq<Element>)
    ensures ApplyElements(schema, ApplyElements(schema, t, es), es) == ApplyElements(schema, t, es)
  {
    FrontIsAbsorbed(schema, t, es, []);
    assert es + [] == es;
  }

  /** Every record of `done` is handed over again in `es`, perhaps in a newer state: with the
      same publication date and with every match it had before. */
  ghost predicate IsSuperseded(schema: Schema, done: seq<Element>, es: seq<Element>) {
    && (forall key :: Stores(schema, done, key) ==> Stores(schema, es, key))
    && (forall id :: FirstOffer(schema, done, id).Some? ==>
          FirstOffer(schema, es, id).Some? &&
          FirstOffer(schema, done, id).value.published == FirstOffer(schema, es, id).value.published)
  }

  /** Whatever the tables held, records that are superseded leave no trace. */
  lemma SupersededIsAbsorbed(schema: Schema, t: Tables, done: seq<Element>, es: seq<Element>)
    requires IsSuperseded(schema, done, es)
    ensures ApplyElements(schema, ApplyElements(schema, t, done), es) == ApplyElements(schema, t, es)
  {
    hide ApplyElements, Stores, FirstOffer;
    ReplayAbsorbsExactly(schema, t, done, es);
  }

  lemma OneOffer(schema: Schema, e: Element)
    requires IsIngested(schema, e)
    ensures FirstOffer(schema, [e], e.id.value) == OfferedRow(e)
  {
    hide IsIngested, OfferedRow;
    assert [e][..0] == [];
  }

  /** Publication dates do matter: two records of one new id with different dates, one handed
      over by an abandoned attempt and the other by the replay, leave a trace. */
  lemma OtherPublicationSticks(schema: Schema, t: Tables, e: Element, again: Element)
    requires IsIngested(schema, e) && IsIngested(schema, again) && e.id == again.id && e.id.value !in t.cves
    requires OfferedRow(e).value.published != OfferedRow(again).value.published
    ensures ApplyElements(schema, ApplyElements(schema, t, [e]), [again]) != ApplyElements(schema, t, [again])
  {
    hide ApplyElements, IsIngested, OfferedRow, Stores;
    OneOffer(schema, e);
    OneOffer(schema, again);
    assert !RowCovered(schema, t, [e], [again], e.id.value);
    ReplayAbsorbsExactly(schema, t, [e], [again]);
  }

  /** Two ingested records of one id never differ in the publication date. */
  ghost predicate PublicationsAgree(schema: Schema, es: seq<Element>) {
    forall e, f, id :: e in es && f in es && OffersFor(schema, e, id) && OffersFor(schema, f, id) ==>
                         OfferedRow(e).value.published == OfferedRow(f).value.published
  }

  lemma {:induction false} StoringElement(schema: Schema, es: seq<Element>, key: CpeKey) returns (i: nat)
    requires Stores(schema, es, key)
    ensures i < |es| && ElementStores(schema, es[i], key)
    decreases |es|
  {
    hide ElementStores;
    if ElementStores(schema, es[|es| - 1], key) {
      return |es| - 1;
    }
    i := StoringElement(schema, es[..|es| - 1], key);
  }

  lemma {:induction false} ElementStoresFor(schema: Schema, es: seq<Element>, e: Element, key: CpeKey)
    requires e in es && ElementStores(schema, e, key)
    ensures Stores(schema, es, key)
  {
    hide ElementStores;
    if es[|es| - 1] != e {
      assert es == es[..|es| - 1] + [es[|es| - 1]];
      ElementStoresFor(schema, es[..|es| - 1], e, key);
    }
  }

  lemma {:induction false} OfferingElement(schema: Schema, es: seq<Element>, id: string) returns (i: nat)
    requires FirstOffer(schema, es, id).Some?
    ensures i < |es| && OffersFor(schema, es[i], id) && FirstOffer(schema, es, id) == OfferedRow(es[i])
    decreases |es|
  {
    hide OfferedRow, OffersFor;
    if FirstOffer(schema, es[..|es| - 1], id).Some? {
      i := OfferingElement(schema, es[..|es| - 1], id);
    } else {
      return |es| - 1;
    }
  }

  lemma {:induction false} OfferedSomewhere(schema: Schema, es: seq<Element>, e: Element, id: string)
    requires e in es && OffersFor(schema, e, id)
    ensures FirstOffer(schema, es, id).Some?
  {
    hide OfferedRow;
    if es[|es| - 1] != e {
      assert es == es[..|es| - 1] + [es[|es| - 1]];
      OfferedSomewhere(schema, es[..|es| - 1], e, id);
    }
  }

  /** In particular records that occur in `es`, in any order and number, when records of one id
      agree on the publication date. */
  lemma RepeatedAreSuperseded(schema: Schema, done: seq<Element>, es: seq<Element>)
    requires forall i :: 0 <= i < |done| ==> done[i] in es
    requires PublicationsAgree(schema, es)
    ensures IsSuperseded(schema, done, es)
  {
    hide Stores, FirstOffer, ElementStores, OfferedRow, OffersFor;
    forall key | Stores(schema, done, key)
      ensures Stores(schema, es, key)
    {
      var i := StoringElement(schema, done, key);
      ElementStoresFor(schema, es, done[i], key);
    }
    forall id | FirstOffer(schema, done, id).Some?
      ensures FirstOffer(schema, es, id).Some?
      ensures FirstOffer(schema, done, id).value.published == FirstOffer(schema, es, id).value.published
    {
      var i := OfferingElement(schema, done, id);
      OfferedSomewhere(schema, es, done[i], id);
      var j := OfferingElement(schema, es, id);
      assert done[i] in es && es[j] in es;
    }
  }

  // ---- replaying pages ----

  /** Committing a prefix of a window's pages and then ingesting the whole window is the same
      as ingesting the window once. */
  lemma ReplayAbsorbsPrefix(schema: Schema, t: Tables, pages: seq<Page>, k: nat)
    requires k <= |pages|
    ensures ApplyPages(schema, ApplyPages(schema, t, pages[..k]), pages) == ApplyPages(schema, t, pages)
  {
    hide ApplyElements;
    assert pages[..k] + pages[k..] == pages;
    ElementsOfPagesConcat(pages[..k], pages[k..]);
    FrontIsAbsorbed(schema, t, ElementsOfPages(pages[..k]), ElementsOfPages(pages[k..]));
  }

  /** The tables after several interrupted attempts, each committing some prefix. */
  ghost function AfterAttempts(schema: Schema, t: Tables, pages: seq<Page>, attempts: seq<nat>): Tables
    requires forall i :: 0 <= i < |attempts| ==> attempts[i] <= |pages|
  {
    if attempts == [] then t
    else
      ApplyPages(schema, AfterAttempts(schema, t, pages, attempts[..|attempts| - 1]), pages[..attempts[|attempts| - 1]])
  }

  /** However many attempts at a window were cut short, and wherever, a final complete pass
      leaves the tables as one uninterrupted pass would. */
  lemma {:induction false} CrashReplayConverges(schema: Schema, t: Tables, pages: seq<Page>, attempts: seq<nat>)
    requires forall i :: 0 <= i < |attempts| ==> attempts[i] <= |pages|
    ensures ApplyPages(schema, AfterAttempts(schema, t, pages, attempts), pages) == ApplyPages(schema, t, pages)
  {
    hide ApplyPages;
    if attempts != [] {
      var before := AfterAttempts(schema, t, pages, attempts[..|attempts| - 1]);
      ReplayAbsorbsPrefix(schema, before, pages, attempts[|attempts| - 1]);
      CrashReplayConverges(schema, t, pages, attempts[..|attempts| - 1]);
    }
  }

  // ---- any sequence of passes ----

  /** What one catch-up run hands to the tables: the pages of its committed windows, then what
      it committed of a window it gave up. */
  datatype Pass = Pass(committed: seq<Page>, abandoned: seq<Page>)

  ghost function AfterPasses(schema: Schema, t: Tables, passes: seq<Pass>): Tables
    decreases |passes|
  {
    if passes == [] then t
    else
      var p := passes[0];
      AfterPasses(schema, ApplyPages(schema, t, p.committed + p.abandoned), passes[1..])
  }

  /** The records of all committed windows, in order. */
  function CommittedRecords(passes: seq<Pass>): seq<Element> {
    if passes == [] then [] else ElementsOfPages(passes[0].committed) + CommittedRecords(passes[1..])
  }

  /** What is left to tell: the records of all committed windows, and those of the window the
      last pass gave up, if it did. */
  function RemainingRecords(passes: seq<Pass>): seq<Element> {
    if passes == [] then []
    else CommittedRecords(passes) + ElementsOfPages(passes[|passes| - 1].abandoned)
  }

  /** Whatever a run before the last handed over of a window it gave up is handed over again,
      perhaps in a newer state, by what remains of the runs after it. */
  ghost predicate AbandonedIsSuperseded(schema: Schema, passes: seq<Pass>) {
    |passes| > 1 ==>
      && IsSuperseded(schema, ElementsOfPages(passes[0].abandoned), RemainingRecords(passes[1..]))
      && AbandonedIsSuperseded(schema, passes[1..])
  }

  lemma NoRecords(schema: Schema, t: Tables)
    ensures ApplyElements(schema, t, []) == t
  {
  }

  lemma OneCommitted(p: Pass)
    ensures CommittedRecords([p]) == ElementsOfPages(p.committed)
  {
    hide ElementsOfPages;
    assert [p][1..] == [];
    assert CommittedRecords([p]) == ElementsOfPages(p.committed) + [];
  }

  lemma RemainingStep(passes: seq<Pass>)
    requires |passes| > 1
    ensures RemainingRecords(passes) == ElementsOfPages(passes[0].committed) + RemainingRecords(passes[1..])
  {
    hide ElementsOfPages;
    var rest := passes[1..];
    assert rest[|rest| - 1] == passes[|passes| - 1];
  }

  lemma OnePass(schema: Schema, t: Tables, pass: Pass)
    ensures AfterPasses(schema, t, [pass]) == ApplyPages(schema, t, pass.committed + pass.abandoned)
  {
    hide ApplyPages;
    assert [pass][1..] == [];
  }

  lemma EmptyPass(schema: Schema, t: Tables)
    ensures AfterPasses(schema, t, [Pass([], [])]) == t
  {
    OnePass(schema, t, Pass([], []));
  }

  /** One more window in a run that has abandoned nothing, committed or given up. */
  lemma PassGrows(schema: Schema, t: Tables, committed: seq<Page>, seen: seq<Page>)
    ensures var after := ApplyPages(schema, AfterPasses(schema, t, [Pass(committed, [])]), seen);
            && AfterPasses(schema, t, [Pass(committed + seen, [])]) == after
            && AfterPasses(schema, t, [Pass(committed, seen)]) == after
  {
    hide ApplyPages, AfterPasses;
    OnePass(schema, t, Pass(committed, []));
    OnePass(schema, t, Pass(committed + seen, []));
    OnePass(schema, t, Pass(committed, seen));
    ApplyPagesConcat(schema, t, committed, seen);
    assert committed + [] == committed && committed + seen + [] == committed + seen;
  }

  /** Over any sequence of runs, the last one possibly given up as well, the tables end as if the
      committed windows alone had been ingested, each once, and after them what the last run
      abandoned: what earlier abandoned windows left behind cannot be told. */
  lemma {:induction false} PassesConverge(schema: Schema, t: Tables, passes: seq<Pass>)
    requires AbandonedIsSuperseded(schema, passes)
    ensures AfterPasses(schema, t, passes) == ApplyElements(schema, t, RemainingRecords(passes))
    decreases |passes|
  {
    hide ApplyElements, IsSuperseded, ElementsOfPages;
    if passes == [] {
      NoRecords(schema, t);
    } else if |passes| == 1 {
      OnePass(schema, t, passes[0]);
      assert passes == [passes[0]];
      ElementsOfPagesConcat(passes[0].committed, passes[0].abandoned);
      OneCommitted(passes[0]);
    } else {
      var p, rest := passes[0], RemainingRecords(passes[1..]);
      var kept := ApplyPages(schema, t, p.committed);
      ApplyPagesConcat(schema, t, p.committed, p.abandoned);
      PassesConverge(schema, ApplyPages(schema, kept, p.abandoned), passes[1..]);
      SupersededIsAbsorbed(schema, kept, ElementsOfPages(p.abandoned), rest);
      ApplyConcat(schema, t, ElementsOfPages(p.committed), rest);
      RemainingStep(passes);
    }
  }

  /** One pass after the others. */
  lemma {:induction false} AfterOneMorePass(schema: Schema, t: Tables, passes: seq<Pass>, pass: Pass)
    ensures AfterPasses(schema, t, passes + [pass]) == AfterPasses(schema, AfterPasses(schema, t, passes), [pass])
    decreases |passes|
  {
    hide ApplyPages;
    if passes == [] {
      assert passes + [pass] == [pass];
    } else {
      assert (passes + [pass])[1..] == passes[1..] + [pass];
      AfterOneMorePass(schema, ApplyPages(schema, t, passes[0].committed + passes[0].abandoned), passes[1..], pass);
    }
  }

  lemma NoPagesNoElements()
    ensures ElementsOfPages([]) == []
  {
  }

  /** When the last run gave up nothing, the committed windows alone decide. */
  lemma PassesConvergeOnCommitted(schema: Schema, t: Tables, passes: seq<Pass>)
    requires AbandonedIsSuperseded(schema, passes)
    requires passes != [] ==> passes[|passes| - 1].abandoned == []
    ensures AfterPasses(schema, t, passes) == ApplyElements(schema, t, CommittedRecords(passes))
  {
    hide ApplyElements, AbandonedIsSuperseded, AfterPasses;
    PassesConverge(schema, t, passes);
    NoPagesNoElements();
    if passes != [] {
      assert CommittedRecords(passes) + [] == CommittedRecords(passes);
    }
  }
}
