/** What one NVD record stores, column by column, in terms of the record's own texts. */
module NvdRecords {
  import opened Wrappers
  import opened Ascii
  import opened Splitting
  import opened NvdIngest
  import opened NvdReplay

  // ---- a match entry and the row it stores ----

  /** Lower case, character by character. */
  ghost predicate IsLowerOf(t: string, s: string) {
    |t| == |s| && forall i :: 0 <= i < |s| ==>
      if 'A' <= s[i] <= 'Z' then t[i] as int == s[i] as int + 32 else t[i] == s[i]
  }

  lemma LowerIsLower(s: string)
    ensures IsLowerOf(Lower(s), s)
  {
  }

  lemma LowerIsUnique(t: string, s: string)
    requires IsLowerOf(t, s)
    ensures t == Lower(s)
  {
    forall i | 0 <= i < |s|
      ensures t[i] == Lower(s)[i]
    {
    }
  }

  ghost predicate FitsEntry(m: MatchEntry)
    requires m.MatchEntry?
  {
    |m.startIncluding| <= 128 && |m.startExcluding| <= 128 && |m.endIncluding| <= 128 && |m.endExcluding| <= 128
  }

  predicate HasBound(m: MatchEntry)
    requires m.MatchEntry?
  {
    m.startIncluding != "" || m.startExcluding != "" || m.endIncluding != "" || m.endExcluding != ""
  }

  /** The entry's criteria are these fields between colons, with nothing over its limit: fields
      2 to 5 are the part, the vendor, the product and the version. */
  ghost predicate IsSpelled(m: MatchEntry, fields: seq<string>) {
    && m.MatchEntry? && FitsEntry(m)
    && |fields| >= 6 && (forall i :: 0 <= i < |fields| ==> Lacks(fields[i], ':'))
    && m.criteria == Some(Join(fields, ':')) && |Join(fields, ':')| <= 1024
    && |fields[3]| <= 256 && |fields[4]| <= 256 && |fields[5]| <= 128
  }

  /** Whether such an entry offers a row: a known part, a vendor and a product, and not every
      version of the product without any bound. */
  predicate IsSpecific(m: MatchEntry, fields: seq<string>)
    requires m.MatchEntry? && |fields| >= 6
  {
    fields[2] in {"a", "o", "h"} && fields[3] != "" && fields[4] != "" && (fields[5] != "*" || HasBound(m))
  }

  /** The row names the entry's own vendor and product, in lower case, its own version, and its
      own bounds, each in its own column. */
  ghost predicate IsRowOfEntry(cveId: string, m: MatchEntry, fields: seq<string>, key: CpeKey, data: CpeData)
    requires m.MatchEntry? && |fields| >= 6
  {
    && key.cveId == cveId && Some(key.uri) == m.criteria && key.vulnerable == m.vulnerable
    && key.startIncluding == m.startIncluding && key.startExcluding == m.startExcluding
    && key.endIncluding == m.endIncluding && key.endExcluding == m.endExcluding
    && data.part == fields[2] && IsLowerOf(data.vendor, fields[3]) && IsLowerOf(data.product, fields[4])
    && data.version == fields[5]
  }

  lemma {:induction false} JoinIsLonger(fields: seq<string>, k: nat)
    requires k < |fields|
    ensures |Join(fields, ':')| >= |fields[k]| + |fields| - 1
  {
    if |fields| > 1 {
      JoinIsLonger(fields[1..], if k == 0 then 0 else k - 1);
    }
  }

  /** An entry offers a row exactly when it is specific, and then that of its own fields. */
  lemma EntryExactly(cveId: string, m: MatchEntry, fields: seq<string>)
    requires IsSpelled(m, fields)
    ensures OfferedCpe(cveId, m).Some? <==> IsSpecific(m, fields)
    ensures OfferedCpe(cveId, m).Some? ==>
              IsRowOfEntry(cveId, m, fields, OfferedCpe(cveId, m).value.0, OfferedCpe(cveId, m).value.1)
  {
    hide Split, Join, Lower, IsLowerOf;
    SplitOfJoin(fields, ':');
    JoinIsLonger(fields, 0);
    LowerIsLower(fields[3]);
    LowerIsLower(fields[4]);
  }

  // ---- a CVE and the row it stores ----

  /** "CVE-", four digits, a dash, at least four digits, and at most 64 characters in all. */
  ghost predicate IsIdentifier(s: string) {
    && 13 <= |s| <= 64 && s[..4] == "CVE-" && s[8] == '-'
    && forall i :: 4 <= i < |s| && i != 8 ==> '0' <= s[i] <= '9'
  }

  lemma IdentifierIsCveId(s: string)
    ensures IsIdentifier(s) <==> |s| <= 64 && IsCveId(s)
  {
    if IsCveId(s) {
      forall i | 4 <= i < |s| && i != 8
        ensures IsDigit(s[i])
      {
        assert i < 8 ==> s[4..8][i - 4] == s[i];
        assert i > 8 ==> s[9..][i - 9] == s[i];
      }
    }
  }

  /** A time stamp is kept as it is, or closed with "Z" when it does not end in one. */
  ghost predicate IsStampOf(t: string, raw: string) {
    if raw != "" && raw[|raw| - 1] in {'Z', 'z'} then t == raw else t == raw + "Z"
  }

  /** The qualitative severity scale: 0 none, 1 low, 2 medium, 3 high, 4 critical. A CVSS v2
      score never rates critical, and counts only without a v3 score. */
  ghost predicate IsSeverity(level: int, v3: Cvss, v2: Cvss) {
    && 0 <= level <= 4
    && (v3.score.None? && v2.score.None? ==> level == 0)
    && (v3.score.Some? ==>
          var score := v3.score.value;
          && (level >= 1 <==> score > 0.0) && (level >= 2 <==> score >= 4.0)
          && (level >= 3 <==> score >= 7.0) && (level == 4 <==> score >= 9.0))
    && (v3.score.None? && v2.score.Some? ==>
          var score := v2.score.value;
          && (level >= 1 <==> score > 0.0) && (level >= 2 <==> score >= 4.0)
          && (level >= 3 <==> score >= 7.0) && level != 4)
  }

  /** An element offers a row exactly with an identifier and both time stamps, and then every
      column is that of the element. */
  lemma ElementExactly(e: Element)
    requires e.published.Some? ==> |e.published.value| <= 48
    requires e.lastModified.Some? ==> |e.lastModified.value| <= 48
    ensures OfferedRow(e).Some? <==>
            && e.id.Some? && IsIdentifier(e.id.value)
            && e.published.Some? && e.published.value != "" && e.lastModified.Some? && e.lastModified.value != ""
    ensures OfferedRow(e).Some? ==>
              var row := OfferedRow(e).value;
              && IsStampOf(row.published, e.published.value) && IsStampOf(row.lastModified, e.lastModified.value)
              && row.description == e.description && row.v3 == e.v3 && row.v2 == e.v2
              && IsSeverity(row.severity, e.v3, e.v2)
  {
    hide IsCveId, IsIdentifier;
    if e.id.Some? {
      IdentifierIsCveId(e.id.value);
    }
  }

  // ---- what is in the table after any ingests ----

  lemma {:induction false} StoredByElement(schema: Schema, es: seq<Element>, i: nat, key: CpeKey)
    requires i < |es| && ElementStores(schema, es[i], key)
    ensures Stores(schema, es, key)
  {
    hide ElementStores;
    if i < |es| - 1 {
      StoredByElement(schema, es[..|es| - 1], i, key);
    }
  }

  lemma {:induction false} StoringElement(schema: Schema, es: seq<Element>, key: CpeKey) returns (i: nat)
    requires Stores(schema, es, key)
    ensures i < |es| && ElementStores(schema, es[i], key)
  {
    hide ElementStores;
    if ElementStores(schema, es[|es| - 1], key) {
      i := |es| - 1;
    } else {
      i := StoringElement(schema, es[..|es| - 1], key);
    }
  }

  /** The entry of an element that is among its first 4096. */
  ghost predicate IsEntryOf(m: MatchEntry, e: Element) {
    exists j :: 0 <= j < |MatchesOf(e)| && j < 4096 && MatchesOf(e)[j] == m
  }

  /** Element i was ingested, and one of its entries was stored as the row. */
  ghost predicate IsStoredFrom(schema: Schema, es: seq<Element>, i: nat, m: MatchEntry, key: CpeKey) {
    && i < |es| && IsIngested(schema, es[i]) && IsEntryOf(m, es[i])
    && IsStored(schema, es[i].id.value, m) && OfferedCpe(es[i].id.value, m).value.0 == key
  }

  /** A row is in a table filled by ingests exactly when it was stored from some entry of some
      element; its data are those the entry offered. */
  lemma StoredExactly(schema: Schema, es: seq<Element>, key: CpeKey)
    ensures var cpes := ApplyElements(schema, Tables(map[], map[]), es).cpes;
            && (key in cpes <==> exists i: nat, m :: IsStoredFrom(schema, es, i, m, key))
            && (forall i: nat, m :: IsStoredFrom(schema, es, i, m, key) ==>
                  key in cpes && OfferedCpe(es[i].id.value, m) == Some((key, cpes[key])))
  {
    hide ApplyElements, Stores, IsIngested, OfferedCpe, DataOf, MatchesOf;
    CpesAfter(schema, Tables(map[], map[]), es, key);
    if Stores(schema, es, key) {
      var i := StoringElement(schema, es, key);
      var j :| 0 <= j < |BudgetedMatches(es[i])| && MatchStores(schema, es[i].id.value, BudgetedMatches(es[i])[j], key);
      assert BudgetedMatches(es[i])[j] == MatchesOf(es[i])[j];
      assert IsEntryOf(MatchesOf(es[i])[j], es[i]);
      assert IsStoredFrom(schema, es, i, MatchesOf(es[i])[j], key);
    }
    forall i: nat, m | IsStoredFrom(schema, es, i, m, key)
      ensures Stores(schema, es, key)
    {
      var j :| 0 <= j < |MatchesOf(es[i])| && j < 4096 && MatchesOf(es[i])[j] == m;
      assert MatchStores(schema, es[i].id.value, BudgetedMatches(es[i])[j], key);
      StoredByElement(schema, es, i, key);
    }
  }

  lemma {:induction false} OffersOutside(schema: Schema, es: seq<Element>, id: string)
    requires forall i :: 0 <= i < |es| ==> !OffersFor(schema, es[i], id)
    ensures LastOffer(schema, es, id) == None == FirstOffer(schema, es, id)
  {
    hide OffersFor, OfferedRow;
    if es != [] {
      OffersOutside(schema, es[..|es| - 1], id);
    }
  }

  lemma {:induction false} LastOfferIs(schema: Schema, es: seq<Element>, id: string, last: nat)
    requires last < |es| && OffersFor(schema, es[last], id)
    requires forall i :: last < i < |es| ==> !OffersFor(schema, es[i], id)
    ensures LastOffer(schema, es, id) == OfferedRow(es[last])
  {
    hide OffersFor, OfferedRow;
    if last < |es| - 1 {
      LastOfferIs(schema, es[..|es| - 1], id, last);
    }
  }

  lemma {:induction false} FirstOfferIs(schema: Schema, es: seq<Element>, id: string, first: nat)
    requires first < |es| && OffersFor(schema, es[first], id)
    requires forall i :: 0 <= i < first ==> !OffersFor(schema, es[i], id)
    ensures OfferedRow(es[first]).Some? && FirstOffer(schema, es, id) == OfferedRow(es[first])
  {
    hide OfferedRow;
    if first < |es| - 1 {
      FirstOfferIs(schema, es[..|es| - 1], id, first);
    } else {
      OffersOutside(schema, es[..first], id);
    }
  }

  /** The CVE table filled by ingests: a row is that of the last element ingested for its id,
      with the publication date of the first. */
  lemma CveRowExactly(schema: Schema, es: seq<Element>, id: string, first: nat, last: nat)
    requires first < |es| && OffersFor(schema, es[first], id) && last < |es| && OffersFor(schema, es[last], id)
    requires forall i :: 0 <= i < |es| && OffersFor(schema, es[i], id) ==> first <= i <= last
    ensures var cves := ApplyElements(schema, Tables(map[], map[]), es).cves;
            id in cves && cves[id] == OfferedRow(es[last]).value.(published := OfferedRow(es[first]).value.published)
  {
    hide ApplyElements, OfferedRow, LastOffer, FirstOffer;
    CvesAfter(schema, Tables(map[], map[]), es, id);
    LastOfferIs(schema, es, id, last);
    FirstOfferIs(schema, es, id, first);
  }
}
