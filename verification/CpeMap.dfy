/** Recognising a product in a banner, writing its CPE into the knowledge base, and reading
    vendor, product and version back out. */
module CpeMap {
  import opened Wrappers
  import opened Ascii
  import opened Splitting
  import opened KbValidate
  import opened Kb

  const VERSION_MAX_LEN := 63
  const CPE_BUFFER := 175
  const KEY_BUFFER := 32
  const CPE_FIELDS := 13
  const VENDOR_PRODUCT_MAX_LEN := 256

  datatype Rule = Rule(marker: string, vendor: string, product: string)

  const OPENSSH := Rule("OpenSSH_", "openbsd", "openssh")
  const APACHE := Rule("Apache/", "apache", "http_server")
  const NGINX := Rule("nginx/", "nginx", "nginx")
  const VSFTPD := Rule("vsFTPd ", "vsftpd_project", "vsftpd")
  const PROFTPD := Rule("ProFTPD ", "proftpd", "proftpd")
  const IIS := Rule("Microsoft-IIS/", "microsoft", "iis")
  const LIGHTTPD := Rule("lighttpd/", "lighttpd", "lighttpd")
  const RULES: seq<Rule> := [OPENSSH, APACHE, NGINX, VSFTPD, PROFTPD, IIS, LIGHTTPD]

  // ---- recognising ----

  ghost predicate OccursAt(text: string, needle: string, i: nat) {
    i + |needle| <= |text| && text[i..i + |needle|] == needle
  }

  /** The first occurrence of a non-empty needle, if any. */
  method FindText(text: string, needle: string) returns (at: Option<nat>)
    ensures at.Some? ==>
              && needle != [] && OccursAt(text, needle, at.value)
              && forall j :: 0 <= j < at.value ==> !OccursAt(text, needle, j)
    ensures at.None? ==> needle == [] || forall j :: !OccursAt(text, needle, j)
  {
    if |needle| == 0 || |needle| > |text| {
      return None;
    }
    var i := 0;
    while i + |needle| <= |text|
      invariant forall j :: 0 <= j < i ==> !OccursAt(text, needle, j)
    {
      if text[i..i + |needle|] == needle {
        return Some(i);
      }
      i := i + 1;
    }
    return None;
  }

  predicate IsVersionChar(c: char) {
    ('A' <= c <= 'Z') || ('a' <= c <= 'z') || ('0' <= c <= '9') || c == '.' || c == '_' || c == '-'
  }

  /** `v` is the longest run of at most 63 version characters at `start`, in lower case. */
  ghost predicate IsVersionAt(text: string, start: nat, v: string) {
    && start + |v| <= |text| && |v| <= VERSION_MAX_LEN
    && v == Lower(text[start..start + |v|])
    && (forall k :: start <= k < start + |v| ==> IsVersionChar(text[k]))
    && (|v| < VERSION_MAX_LEN && start + |v| < |text| ==> !IsVersionChar(text[start + |v|]))
  }

  method ExtractVersion(text: string, start: nat) returns (v: string)
    requires start <= |text|
    ensures IsVersionAt(text, start, v)
  {
    v := [];
    var i := start;
    while i < |text| && |v| < VERSION_MAX_LEN
      invariant i == start + |v| <= |text| && |v| <= VERSION_MAX_LEN
      invariant v == Lower(text[start..i])
      invariant forall k :: start <= k < i ==> IsVersionChar(text[k])
      decreases |text| - i
    {
      if !IsVersionChar(text[i]) {
        break;
      }
      assert text[start..i + 1] == text[start..i] + [text[i]];
      v := v + [ToLower(text[i])];
      i := i + 1;
    }
  }

  // ---- the printed CPE ----

  const CPE_HEAD := "cpe:2.3:a:"
  const CPE_TAIL := "*:*:*:*:*:*:*"

  function CpeText(r: Rule, version: string): string {
    CPE_HEAD + (r.vendor + ([':'] + (r.product + ([':'] + (version + ([':'] + CPE_TAIL))))))
  }

  function CpeKey(port: nat): string {
    "CPE/" + Decimal(port)
  }

  /** The rule that speaks for a banner: the first whose marker occurs in it, at its first
      occurrence. */
  ghost predicate Speaks(text: string, i: nat, at: nat) {
    && i < |RULES| && OccursAt(text, RULES[i].marker, at)
    && (forall j: nat :: j < at ==> !OccursAt(text, RULES[i].marker, j))
    && (forall k: nat, j: nat :: k < i ==> !OccursAt(text, RULES[k].marker, j))
  }

  ghost predicate SpeaksVersion(text: string, i: nat, at: nat, r: Rule, version: string) {
    Speaks(text, i, at) && r == RULES[i] && version != [] && IsVersionAt(text, at + |r.marker|, version)
  }

  /** What a banner identifies: the rule that speaks for it and a non-empty version after
      the marker. */
  ghost predicate Identifies(text: string, r: Rule, version: string) {
    exists i: nat, at: nat :: SpeaksVersion(text, i, at, r, version)
  }

  lemma SpeakerIsUnique(text: string, i: nat, at: nat, k: nat, at': nat)
    requires Speaks(text, i, at) && Speaks(text, k, at')
    ensures i == k && at == at'
  {
    hide RULES;
  }

  lemma NoVersionNoCpe(text: string, i: nat, at: nat, r: Rule, v: string)
    requires Speaks(text, i, at) && IsVersionAt(text, at + |RULES[i].marker|, [])
    ensures !Identifies(text, r, v)
  {
    hide RULES;
    forall k: nat, at': nat
      ensures !SpeaksVersion(text, k, at', r, v)
    {
      if Speaks(text, k, at') {
        SpeakerIsUnique(text, i, at, k, at');
      }
    }
  }

  ghost predicate IsPlain(s: string) {
    forall i :: 0 <= i < |s| ==> 0 < s[i] as int < 0x80
  }

  ghost predicate IsField(s: string) {
    s != [] && IsPlain(s) && Lacks(s, ':')
  }

  /** What the table of rules guarantees of each of its entries. */
  ghost predicate GoodRule(r: Rule) {
    r.marker != [] && IsField(r.vendor) && |r.vendor| <= 14 && IsField(r.product) && |r.product| <= 11
  }

  lemma FirstRulesAreGood()
    ensures GoodRule(OPENSSH) && GoodRule(APACHE)
  {
  }

  lemma VsftpdVendorIsField()
    ensures IsField(VSFTPD.vendor)
  {
  }

  lemma VsftpdProductIsField()
    ensures IsField(VSFTPD.product)
  {
  }

  lemma VsftpdIsGood()
    ensures GoodRule(VSFTPD)
  {
    hide IsField;
    VsftpdVendorIsField();
    VsftpdProductIsField();
  }

  lemma ProftpdIsGood()
    ensures GoodRule(PROFTPD)
  {
  }

  lemma LastRulesAreGood()
    ensures GoodRule(NGINX) && GoodRule(IIS) && GoodRule(LIGHTTPD)
  {
  }

  lemma RulesAreGood()
    ensures forall i :: 0 <= i < |RULES| ==> GoodRule(RULES[i])
  {
    hide GoodRule, OPENSSH, APACHE, NGINX, VSFTPD, PROFTPD, IIS, LIGHTTPD;
    FirstRulesAreGood();
    VsftpdIsGood();
    ProftpdIsGood();
    LastRulesAreGood();
  }

  method Identify(text: string) returns (found: Option<(Rule, string)>)
    ensures found.Some? ==> Identifies(text, found.value.0, found.value.1)
    ensures found.None? ==> forall r, v :: !Identifies(text, r, v)
  {
    hide IsVersionAt;
    RulesAreGood();
    for i := 0 to |RULES|
      invariant forall k: nat, j: nat :: k < i ==> !OccursAt(text, RULES[k].marker, j)
    {
      var marker := RULES[i].marker;
      assert GoodRule(RULES[i]);
      var at := FindText(text, marker);
      if at.Some? {
        var version := ExtractVersion(text, at.value + |marker|);
        assert Speaks(text, i, at.value);
        if |version| == 0 {
          forall r, v
            ensures !Identifies(text, r, v)
          {
            NoVersionNoCpe(text, i, at.value, r, v);
          }
          return None;
        }
        assert SpeaksVersion(text, i, at.value, RULES[i], version);
        return Some((RULES[i], version));
      }
    }
    return None;
  }

  lemma VersionIsLongest(text: string, start: nat, v: string, v': string)
    requires IsVersionAt(text, start, v) && IsVersionAt(text, start, v')
    ensures |v'| <= |v|
  {
  }

  lemma VersionIsUnique(text: string, start: nat, v: string, v': string)
    requires IsVersionAt(text, start, v) && IsVersionAt(text, start, v')
    ensures v == v'
  {
    VersionIsLongest(text, start, v, v');
    VersionIsLongest(text, start, v', v);
  }

  /** The names under which the recognised products are known to the feed. */
  ghost predicate IsKnownProduct(marker: string, vendor: string, product: string) {
    || (marker == "OpenSSH_" && vendor == "openbsd" && product == "openssh")
    || (marker == "Apache/" && vendor == "apache" && product == "http_server")
    || (marker == "nginx/" && vendor == "nginx" && product == "nginx")
    || (marker == "vsFTPd " && vendor == "vsftpd_project" && product == "vsftpd")
    || (marker == "ProFTPD " && vendor == "proftpd" && product == "proftpd")
    || (marker == "Microsoft-IIS/" && vendor == "microsoft" && product == "iis")
    || (marker == "lighttpd/" && vendor == "lighttpd" && product == "lighttpd")
  }

  lemma RuleIsKnown(i: nat)
    requires i < |RULES|
    ensures IsKnownProduct(RULES[i].marker, RULES[i].vendor, RULES[i].product)
  {
  }

  /** What is identified occurs in the banner, goes by its feed names, and is followed there by
      its version, up to the case of letters. */
  lemma IdentifiedByName(text: string, r: Rule, v: string)
    requires Identifies(text, r, v)
    ensures IsKnownProduct(r.marker, r.vendor, r.product)
    ensures exists at: nat :: OccursAt(text, r.marker, at) && at + |r.marker| + |v| <= |text| &&
              v == Lower(text[at + |r.marker|..at + |r.marker| + |v|])
  {
    hide IsKnownProduct, IsVersionChar, Lower;
    var i: nat, at: nat :| SpeaksVersion(text, i, at, r, v);
    RuleIsKnown(i);
    assert OccursAt(text, r.marker, at);
  }

  /** A banner identifies at most one rule and one version. */
  lemma IdentificationIsUnique(text: string, r: Rule, v: string, r': Rule, v': string)
    requires Identifies(text, r, v) && Identifies(text, r', v')
    ensures r == r' && v == v'
  {
    hide RULES, IsVersionAt;
    var i: nat, at: nat :| SpeaksVersion(text, i, at, r, v);
    var k: nat, at': nat :| SpeaksVersion(text, k, at', r', v');
    SpeakerIsUnique(text, i, at, k, at');
    VersionIsUnique(text, at + |r.marker|, v, v');
  }

  lemma {:induction false} PlainIsUtf8(s: string)
    requires IsPlain(s)
    ensures IsUtf8(s) && NoNul(s)
    decreases |s|
  {
    hide IsUtf8;
    if s == [] {
      EmptyIsUtf8();
    } else {
      PlainIsUtf8(s[1..]);
      Utf8AfterStart(s, 1);
    }
  }

  lemma VersionIsField(text: string, start: nat, v: string)
    requires IsVersionAt(text, start, v) && v != []
    ensures IsField(v) && |v| <= VERSION_MAX_LEN
  {
    forall k | 0 <= k < |v|
      ensures 0 < v[k] as int < 0x80 && v[k] != ':'
    {
      assert IsVersionChar(text[start + k]);
      assert v[k] == ToLower(text[start..start + |v|][k]);
    }
  }

  lemma IdentifiedIsGood(text: string, r: Rule, v: string)
    requires Identifies(text, r, v)
    ensures GoodRule(r) && IsField(v) && |v| <= VERSION_MAX_LEN
  {
    hide RULES, IsVersionAt, GoodRule;
    var i: nat, at: nat :| SpeaksVersion(text, i, at, r, v);
    RulesAreGood();
    VersionIsField(text, at + |r.marker|, v);
  }

  lemma CpeIsShortAndPlain(r: Rule, v: string)
    requires GoodRule(r) && IsField(v) && |v| <= VERSION_MAX_LEN
    ensures IsPlain(CpeText(r, v)) && |CpeText(r, v)| <= 114
  {
    hide RULES;
  }

  lemma CpeIsStorable(text: string, r: Rule, v: string)
    requires Identifies(text, r, v)
    ensures |CpeText(r, v)| < CPE_BUFFER && |CpeText(r, v)| <= VALUE_MAX_LEN
    ensures NoNul(CpeText(r, v)) && IsUtf8(CpeText(r, v))
  {
    IdentifiedIsGood(text, r, v);
    CpeIsShortAndPlain(r, v);
    PlainIsUtf8(CpeText(r, v));
  }

  lemma KeyIsValid(port: nat)
    requires port <= 65535
    ensures IsKey(CpeKey(port)) && |CpeKey(port)| <= 9
  {
    DecimalIsValue(port);
    assert Pow10(5) == 100000 by { assert Pow10(3) == 1000; }
    DecimalLength(port, 5);
    var d := Decimal(port);
    SplitOfField(d, '/');
    SplitOfCons("CPE", d, '/');
    assert "CPE" + (['/'] + d) == CpeKey(port);
    assert Split(CpeKey(port), '/') == ["CPE", d];
    assert forall k :: 0 <= k < |d| ==> IsDigit(d[k]);
  }

  datatype Service = Service(vendor: string, product: string, version: string)

  /** The service a stored value names, or None when it is not a usable CPE 2.3 URI. */
  function Resolve(text: string): Option<Service> {
    var fs := Split(text, ':');
    if |fs| > CPE_FIELDS || |fs| < 6 || fs[0] != "cpe" || fs[1] != "2.3" then None
    else if !(0 < |fs[3]| <= VENDOR_PRODUCT_MAX_LEN) || !(0 < |fs[4]| <= VENDOR_PRODUCT_MAX_LEN) then None
    else if fs[5] == [] then None
    else Some(Service(fs[3], fs[4], fs[5]))
  }

  /** Which texts name a service: "cpe", "2.3" and four to eleven more fields, of which the
      fourth, fifth and sixth in all are vendor, product and version, none of them empty and the
      first two within 256 characters. */
  lemma ResolveExactly(fields: seq<string>)
    requires fields != [] && forall i :: 0 <= i < |fields| ==> Lacks(fields[i], ':')
    ensures var r := Resolve(Join(fields, ':'));
            && (r.Some? <==> 6 <= |fields| <= 13 && fields[0] == "cpe" && fields[1] == "2.3" &&
                             1 <= |fields[3]| <= 256 && 1 <= |fields[4]| <= 256 && fields[5] != "")
            && (r.Some? ==> r.value.vendor == fields[3] && r.value.product == fields[4] && r.value.version == fields[5])
  {
    hide Split, Join;
    SplitOfJoin(fields, ':');
  }

  function ClipValue(s: string): string {
    if |s| <= VALUE_MAX_LEN then s else s[..VALUE_MAX_LEN]
  }

  /** The service the knowledge base reports for a port. */
  function ServiceAt(contents: map<string, Value>, port: nat): Option<Service> {
    var key := CpeKey(port);
    if key in contents && contents[key].Str? then Resolve(ClipValue(contents[key].text)) else None
  }

  lemma HeadSplits(s: string)
    ensures Split(CPE_HEAD + s, ':') == ["cpe", "2.3", "a"] + Split(s, ':')
  {
    hide Split;
    var s1 := "a" + ([':'] + s);
    var s2 := "2.3" + ([':'] + s1);
    SplitOfCons("a", s, ':');
    SplitOfCons("2.3", s1, ':');
    SplitOfCons("cpe", s2, ':');
    assert "cpe" + ([':'] + s2) == CPE_HEAD + s;
  }

  lemma StarSplits(s: string, longer: string)
    requires longer == "*:" + s
    ensures |Split(longer, ':')| == 1 + |Split(s, ':')|
  {
    hide Split;
    SplitOfCons("*", s, ':');
    assert "*" + ([':'] + s) == longer;
  }

  lemma TailSplits()
    ensures |Split(CPE_TAIL, ':')| == 7
  {
    hide Split;
    SplitOfField("*", ':');
    StarSplits("*", "*:*");
    StarSplits("*:*", "*:*:*");
    StarSplits("*:*:*", "*:*:*:*");
    StarSplits("*:*:*:*", "*:*:*:*:*");
    StarSplits("*:*:*:*:*", "*:*:*:*:*:*");
    StarSplits("*:*:*:*:*:*", CPE_TAIL);
  }

  lemma CpeTextSplits(r: Rule, v: string)
    requires Lacks(r.vendor, ':') && Lacks(r.product, ':') && Lacks(v, ':')
    ensures var fs := Split(CpeText(r, v), ':');
            && |fs| == CPE_FIELDS && fs[0] == "cpe" && fs[1] == "2.3"
            && fs[3] == r.vendor && fs[4] == r.product && fs[5] == v
  {
    hide Split, Lacks;
    var s1 := v + ([':'] + CPE_TAIL);
    var s2 := r.product + ([':'] + s1);
    var s3 := r.vendor + ([':'] + s2);
    TailSplits();
    SplitOfCons(v, CPE_TAIL, ':');
    SplitOfCons(r.product, s1, ':');
    SplitOfCons(r.vendor, s2, ':');
    HeadSplits(s3);
  }

  /** Whatever the printer stored, the reader returns that rule's vendor and product and the
      extracted version, exactly. */
  lemma StoredCpeResolves(text: string, r: Rule, v: string)
    requires Identifies(text, r, v)
    ensures Resolve(ClipValue(CpeText(r, v))) == Some(Service(r.vendor, r.product, v))
  {
    hide Split, CpeText, Identifies, RULES;
    IdentifiedIsGood(text, r, v);
    CpeIsShortAndPlain(r, v);
    CpeTextSplits(r, v);
  }

  /** Writes the CPE of a banner, or leaves the knowledge base alone. The length checks on the
      two fixed buffers can never refuse. */
  method MapAndWrite(kb: KnowledgeBase, port: nat, text: string, memory: bool) returns (stored: bool)
    requires kb.Valid() && port <= 65535
    modifies kb, kb.buckets, kb.entries
    ensures kb.Valid()
    ensures stored <==> memory && exists r, v :: Identifies(text, r, v)
    ensures stored ==> exists r, v :: Identifies(text, r, v) &&
                         kb.contents == old(kb.contents)[CpeKey(port) := Str(CpeText(r, v))] &&
                         ServiceAt(kb.contents, port) == Some(Service(r.vendor, r.product, v))
    ensures !stored ==> kb.contents == old(kb.contents)
  {
    hide Identifies, KnowledgeBase.Valid, IsKey, IsUtf8, NoNul, CpeText, CpeKey, Resolve;
    var found := Identify(text);
    if found.None? {
      return false;
    }
    var (rule, version) := found.value;
    CpeIsStorable(text, rule, version);
    StoredCpeResolves(text, rule, version);
    KeyIsValid(port);
    var cpe := CpeText(rule, version);
    if |cpe| >= CPE_BUFFER {
      assert false;
    }
    var key := CpeKey(port);
    if |key| >= KEY_BUFFER {
      assert false;
    }
    stored := kb.SetStr(key, cpe, memory);
  }

  // ---- the printer's output is always acceptable ----

  /** Different ports never share a key. */
  lemma KeysAreDistinct(p: nat, q: nat)
    requires p != q
    ensures CpeKey(p) != CpeKey(q)
  {
    DecimalIsValue(p);
    DecimalIsValue(q);
    assert CpeKey(p)[4..] == Decimal(p) && CpeKey(q)[4..] == Decimal(q);
  }

  /** Writing one port's CPE changes what no other port reports. */
  lemma OtherPortsAreUntouched(contents: map<string, Value>, p: nat, q: nat, text: string)
    requires p != q
    ensures ServiceAt(contents[CpeKey(p) := Str(text)], q) == ServiceAt(contents, q)
  {
    hide Resolve, CpeKey;
    KeysAreDistinct(p, q);
  }

  // ---- reading it back ----

  /** Splits into at most `fields.Length` fields, failing rather than dropping a tail. */
  method SplitCpe(text: string, fields: array<string>) returns (count: Option<nat>)
    modifies fields
    ensures count.None? <==> |Split(text, ':')| > fields.Length
    ensures count.Some? ==> count.value == |Split(text, ':')| && fields[..count.value] == Split(text, ':')
  {
    hide Split;
    var n, start := 0, 0;
    assert text[0..] == text;
    for i := 0 to |text| + 1
      invariant n <= fields.Length && start <= i
      invariant i <= |text| ==>
                  Lacks(text[start..i], ':') && Split(text, ':') == fields[..n] + Split(text[start..], ':')
      invariant i == |text| + 1 ==> Split(text, ':') == fields[..n]
    {
      if i == |text| || text[i] == ':' {
        NextField(text, ':', fields[..n], start, i);
        if n >= fields.Length {
          return None;
        }
        ghost var before := fields[..n];
        fields[n] := text[start..i];
        n := n + 1;
        assert fields[..n] == before + [text[start..i]];
        start := i + 1;
      } else {
        assert text[start..i + 1] == text[start..i] + [text[i]];
      }
    }
    return Some(n);
  }

  method ResolvePort(kb: KnowledgeBase, port: nat) returns (r: Option<Service>)
    requires kb.Valid() && port <= 65535
    ensures r == ServiceAt(kb.contents, port)
  {
    hide KnowledgeBase.Valid, IsKey, Split;
    KeyIsValid(port);
    var status, value := kb.Get(CpeKey(port));
    if status != Found || !value.value.Str? {
      return None;
    }
    var text := ClipValue(value.value.text);
    var fields := new string[CPE_FIELDS](_ => []);
    var count := SplitCpe(text, fields);
    if count.None? || count.value < 6 {
      return None;
    }
    ghost var fs := Split(text, ':');
    assert forall k :: 0 <= k < |fs| ==> fields[k] == fs[k];
    if fields[0] != "cpe" || fields[1] != "2.3" {
      return None;
    }
    var vendor, product, version := fields[3], fields[4], fields[5];
    if |vendor| == 0 || |vendor| > VENDOR_PRODUCT_MAX_LEN || |product| == 0 || |product| > VENDOR_PRODUCT_MAX_LEN ||
       |version| == 0 {
      return None;
    }
    return Some(Service(vendor, product, version));
  }
}
