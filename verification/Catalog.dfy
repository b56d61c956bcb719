/** Text sanitizing and URN minting shared by the published catalog and the
    Finder's projection (internal/ard and the two sanitizers). */
module Ard {
  import opened Prelude
  import opened Text

  /** Unicode categories Cc and Cf, and the URL policy (parsing, scheme, host). */
  datatype Env = Env(disallowed: char -> bool, urlAllowed: (string, string, bool) -> bool)

  /** Removes control and format characters. */
  function Sanitize(e: Env, s: string): string {
    if s == "" then "" else
      (if e.disallowed(s[0]) then "" else [s[0]]) + Sanitize(e, s[1..])
  }

  /** No control and no format character. */
  predicate Clean(e: Env, s: string) {
    forall x :: x in s ==> !e.disallowed(x)
  }

  /** Printable ASCII is neither control nor format. */
  ghost predicate Lawful(e: Env) {
    forall x :: ' ' <= x <= '~' ==> !e.disallowed(x)
  }

  lemma {:induction false} SanitizeKeepsClean(e: Env, s: string)
    requires Clean(e, s)
    ensures Sanitize(e, s) == s
  {
    if s != "" {
      assert s[0] in s;
      SanitizeKeepsClean(e, s[1..]);
      assert s == [s[0]] + s[1..];
    }
  }

  lemma {:induction false} SanitizeIsClean(e: Env, s: string)
    ensures Clean(e, Sanitize(e, s))
  {
    if s != "" { SanitizeIsClean(e, s[1..]); }
  }

  /** First-seen order, sanitized, without blanks and duplicates. */
  function Deduplicated(e: Env, xs: seq<string>): seq<string> {
    if xs == [] then [] else
      var front, s := Deduplicated(e, xs[..|xs| - 1]), Sanitize(e, xs[|xs| - 1]);
      if s == "" || s in front then front else front + [s]
  }

  lemma {:induction false} DeduplicatedIsClean(e: Env, xs: seq<string>)
    ensures forall x :: x in Deduplicated(e, xs) ==> Clean(e, x) && x != ""
  {
    hide Clean, Sanitize;
    if xs != [] {
      DeduplicatedIsClean(e, xs[..|xs| - 1]);
      SanitizeIsClean(e, xs[|xs| - 1]);
    }
  }

  function Labelize(s: string): string {
    Join(Fields(s), '-')
  }

  /** urn:air:<host>:agents:<label>, or nothing without a label. */
  function MintUrn(host: string, displayName: string): Option<string> {
    if Labelize(displayName) == "" then None
    else Some("urn:air:" + ToLower(host) + ":agents:" + Labelize(displayName))
  }

  /** A URN identifies the host and the label: hosts without a colon never share one. */
  lemma UrnsSeparateAgents(h: string, d: string, h': string, d': string)
    requires Free(ToLower(h), ':') && Free(ToLower(h'), ':')
    requires MintUrn(h, d).Some? && MintUrn(h', d').Some?
    ensures MintUrn(h, d) == MintUrn(h', d') <==> ToLower(h) == ToLower(h') && Labelize(d) == Labelize(d')
  {
    hide Labelize, Split, ToLower;
    UrnText(h, d);
    UrnText(h', d');
    var rest, rest' := "agents:" + Labelize(d), "agents:" + Labelize(d');
    SplitStep(ToLower(h), ':', rest);
    SplitStep(ToLower(h'), ':', rest');
    if MintUrn(h, d) == MintUrn(h', d') {
      var u := MintUrn(h, d).value[8..];
      assert u == ToLower(h) + [':'] + rest == ToLower(h') + [':'] + rest';
      assert Split(u, ':')[0] == ToLower(h) == ToLower(h');
      assert u[|ToLower(h)| + 1..] == rest == rest';
      assert rest[7..] == Labelize(d) && rest'[7..] == Labelize(d');
    }
  }

  lemma UrnText(h: string, d: string)
    requires MintUrn(h, d).Some?
    ensures MintUrn(h, d).value == "urn:air:" + (ToLower(h) + [':'] + ("agents:" + Labelize(d)))
    ensures |"urn:air:"| == 8
  {
    hide Labelize, ToLower;
  }

  /** The label is the words of the display name, joined by hyphens; white space around
      and between them does not count. */
  lemma LabelOfWords(words: seq<string>)
    requires forall i :: 0 <= i < |words| ==> words[i] != [] && SpaceFree(words[i])
    ensures Labelize(Join(words, ' ')) == Join(words, '-')
  {
    hide Fields, Join;
    FieldsOfJoin(words);
  }

  lemma LabelIsClean(e: Env, s: string)
    requires Lawful(e) && Clean(e, s)
    ensures Clean(e, Labelize(s))
  {
    hide Fields, Join;
    forall x | x in Labelize(s) ensures !e.disallowed(x) {
      var i :| 0 <= i < |Labelize(s)| && Labelize(s)[i] == x;
      JoinChars(Fields(s), '-', i);
      if x != '-' {
        var k, j :| 0 <= k < |Fields(s)| && 0 <= j < |Fields(s)[k]| && x == Fields(s)[k][j];
        FieldsChars(s, Fields(s)[k], x);
      }
    }
  }

  /** A URN minted from clean text is clean. */
  lemma UrnIsClean(e: Env, host: string, displayName: string)
    requires Lawful(e) && Clean(e, ToLower(host)) && Clean(e, displayName) && MintUrn(host, displayName).Some?
    ensures Clean(e, MintUrn(host, displayName).value)
  {
    hide Labelize;
    LabelIsClean(e, displayName);
  }

  /** A URL reaches an entry verbatim or not at all. */
  predicate UrlPasses(e: Env, raw: string, host: string, allowHttp: bool) {
    raw != "" && Clean(e, raw) && e.urlAllowed(raw, host, allowHttp)
  }
}

/** BuildEntry and BuildHostDocument: the published AI Catalog. */
module Catalog {
  import opened Prelude
  import opened Text
  import opened Sequences
  import opened Sorting
  import opened AnsName
  import opened Ard

  datatype Protocol = A2A | MCP | HttpApi

  datatype Endpoint = Endpoint(protocol: Protocol, metadataUrl: string, tags: seq<string>)

  /** The registration fields an entry is derived from. */
  datatype AgentRecord = AgentRecord(
    name: Name, active: bool, agentId: string, displayName: string, description: string,
    updatedAt: string, endpoints: seq<Endpoint>)

  datatype Options = Options(tlBaseUrl: string, allowInsecureUrls: bool)

  datatype Child = Child(identifier: string, displayName: string, mediaType: string, url: string)

  datatype Entry = Entry(
    identifier: string, displayName: string, description: string, version: string, updatedAt: string,
    mediaType: string, url: string, data: seq<Child>, tags: seq<string>,
    ansName: string, agentHost: string, badgeUrl: string, trustIdentity: string, receiptUri: string)

  datatype Document = Document(host: string, entries: seq<Entry>)

  function MediaType(p: Protocol): Option<string> {
    match p
    case A2A => Some("application/a2a-agent-card+json")
    case MCP => Some("application/mcp-server-card+json")
    case HttpApi => None
  }

  function ProtocolSuffix(p: Protocol): string {
    match p case A2A => "a2a" case MCP => "mcp" case HttpApi => "http_api"
  }

  predicate Eligible(e: Env, o: Options, host: string, ep: Endpoint) {
    MediaType(ep.protocol).Some? && UrlPasses(e, ep.metadataUrl, host, o.allowInsecureUrls)
  }

  /** collectEligibleEndpoints: registration order is kept. */
  function EligibleEndpoints(e: Env, o: Options, host: string, eps: seq<Endpoint>): (r: seq<Endpoint>)
    ensures forall i :: 0 <= i < |r| ==> Eligible(e, o, host, r[i])
  {
    if eps == [] then [] else
      var last := eps[|eps| - 1];
      EligibleEndpoints(e, o, host, eps[..|eps| - 1]) + (if Eligible(e, o, host, last) then [last] else [])
  }

  method CollectEligible(e: Env, o: Options, host: string, eps: seq<Endpoint>) returns (out: seq<Endpoint>)
    ensures out == EligibleEndpoints(e, o, host, eps)
  {
    out := [];
    for i := 0 to |eps|
      invariant out == EligibleEndpoints(e, o, host, eps[..i])
    {
      assert eps[..i + 1][..i] == eps[..i];
      if MediaType(eps[i].protocol).None? {
        continue;
      }
      if !UrlPasses(e, eps[i].metadataUrl, host, o.allowInsecureUrls) {
        continue;
      }
      out := out + [eps[i]];
    }
    assert eps[..|eps|] == eps;
  }

  function TrimSlashes(s: string): string {
    if s != "" && s[|s| - 1] == '/' then TrimSlashes(s[..|s| - 1]) else s
  }

  function BadgeUrl(o: Options, agentId: string): string {
    if o.tlBaseUrl == "" then "" else TrimSlashes(o.tlBaseUrl) + "/v1/agents/" + agentId
  }

  function BuildEntry(e: Env, o: Options, r: AgentRecord): Result<Entry> {
    if r.name.version.IsZero() then Err("NO_VERSION")
    else if !r.active then Err("AGENT_NOT_ACTIVE")
    else match MintUrn(r.name.host, Sanitize(e, r.displayName))
      case None => Err("NO_LABEL")
      case Some(minted) =>
        var eligible := EligibleEndpoints(e, o, r.name.host, r.endpoints);
        if eligible == [] then Err("NO_ELIGIBLE_ENDPOINT")
        else Ok(MakeEntry(e, o, r, Sanitize(e, minted), eligible))
  }

  /** One lean child per eligible endpoint. */
  function Children(urn: string, name: string, eligible: seq<Endpoint>): (cs: seq<Child>)
    requires forall i :: 0 <= i < |eligible| ==> MediaType(eligible[i].protocol).Some?
    ensures |cs| == |eligible|
    ensures forall i :: 0 <= i < |cs| ==> cs[i].url == eligible[i].metadataUrl
  {
    seq(|eligible|, i requires 0 <= i < |eligible| =>
      Child(urn + ":" + ProtocolSuffix(eligible[i].protocol), name,
            MediaType(eligible[i].protocol).value, eligible[i].metadataUrl))
  }

  /** One eligible endpoint is pointed at; several become a nested catalog. */
  function MakeEntry(e: Env, o: Options, r: AgentRecord, urn: string, eligible: seq<Endpoint>): Entry
    requires eligible != [] && forall i :: 0 <= i < |eligible| ==> MediaType(eligible[i].protocol).Some?
  {
    var name, badge := Sanitize(e, r.displayName), BadgeUrl(o, r.agentId);
    var single := |eligible| == 1;
    Entry(
      urn, name, Sanitize(e, r.description), Sanitize(e, VersionText(r.name.version)), r.updatedAt,
      if single then MediaType(eligible[0].protocol).value else "application/ai-catalog+json",
      if single then eligible[0].metadataUrl else "",
      if single then [] else Children(urn, name, eligible),
      if single then Deduplicated(e, eligible[0].tags) else [],
      Sanitize(e, NameText(r.name)), Sanitize(e, r.name.host), badge, urn,
      if badge == "" then "" else badge + "/receipt")
  }

  /** Identifier, then version, both as text. */
  predicate EntryLe(a: Entry, b: Entry) {
    if a.identifier != b.identifier then StringLe(a.identifier, b.identifier) else StringLe(a.version, b.version)
  }

  function Builder(e: Env, o: Options): Option<AgentRecord> -> Option<Entry> {
    (r: Option<AgentRecord>) =>
      if r.Some? && BuildEntry(e, o, r.value).Ok? then Some(BuildEntry(e, o, r.value).value) else None
  }

  function BuildHostDocument(e: Env, o: Options, host: string, regs: seq<Option<AgentRecord>>): Document {
    Document(Sanitize(e, host), Sort(FilterMap(Builder(e, o), regs), EntryLe))
  }

  method BuildHostDocumentLoop(e: Env, o: Options, host: string, regs: seq<Option<AgentRecord>>) returns (d: Document)
    ensures d == BuildHostDocument(e, o, host, regs)
  {
    var entries := KeepAccepted(Builder(e, o), regs);
    d := Document(Sanitize(e, host), Sort(entries, EntryLe));
  }

  // ---- what an entry promises ----------------------------------------------

  lemma {:induction false} EligibleAreChecked(e: Env, o: Options, host: string, eps: seq<Endpoint>, ep: Endpoint)
    ensures ep in EligibleEndpoints(e, o, host, eps) <==> ep in eps && Eligible(e, o, host, ep)
  {
    if eps != [] {
      EligibleAreChecked(e, o, host, eps[..|eps| - 1], ep);
      assert eps == eps[..|eps| - 1] + [eps[|eps| - 1]];
    }
  }

  /** Exactly one of URL and nested data is set; every URL passed the policy
      for the agent's own host; the trust manifest names the entry itself. */
  lemma EntryIsWellFormed(e: Env, o: Options, r: AgentRecord)
    requires BuildEntry(e, o, r).Ok?
    ensures var entry := BuildEntry(e, o, r).value;
            && (entry.url != "" <==> entry.data == []) && |entry.data| != 1
            && (entry.url != "" ==> e.urlAllowed(entry.url, r.name.host, o.allowInsecureUrls))
            && (forall i :: 0 <= i < |entry.data| ==>
                  e.urlAllowed(entry.data[i].url, r.name.host, o.allowInsecureUrls))
            && entry.trustIdentity == entry.identifier
            && r.active && !r.name.version.IsZero()
  {
    hide Sanitize, MintUrn, VersionText, NameText, Deduplicated, BadgeUrl;
  }

  /** Media type and URL of each artifact an entry points at, directly or through its
      children. */
  function Artifacts(entry: Entry): seq<(string, string)> {
    if entry.data == [] then [(entry.mediaType, entry.url)]
    else seq(|entry.data|, i requires 0 <= i < |entry.data| => (entry.data[i].mediaType, entry.data[i].url))
  }

  function ArtifactOf(ep: Endpoint): (string, string) {
    (if ep.protocol.A2A? then "application/a2a-agent-card+json" else "application/mcp-server-card+json", ep.metadataUrl)
  }

  /** Which registrations get an entry, and why the others do not. */
  lemma EntryExactly(e: Env, o: Options, r: AgentRecord)
    ensures BuildEntry(e, o, r).Ok? <==>
              && r.name.version != SemVer(0, 0, 0) && r.active && Labelize(Sanitize(e, r.displayName)) != ""
              && exists ep :: ep in r.endpoints && Eligible(e, o, r.name.host, ep)
    ensures BuildEntry(e, o, r).Err? ==>
              BuildEntry(e, o, r).error ==
                if r.name.version == SemVer(0, 0, 0) then "NO_VERSION" else if !r.active then "AGENT_NOT_ACTIVE"
                else if Labelize(Sanitize(e, r.displayName)) == "" then "NO_LABEL" else "NO_ELIGIBLE_ENDPOINT"
  {
    hide Sanitize, Labelize, Eligible;
    var eligible := EligibleEndpoints(e, o, r.name.host, r.endpoints);
    forall ep ensures ep in eligible <==> ep in r.endpoints && Eligible(e, o, r.name.host, ep) {
      EligibleAreChecked(e, o, r.name.host, r.endpoints, ep);
    }
    assert eligible != [] ==> eligible[0] in eligible;
  }

  /** What an entry carries: the sanitized texts of the registration, one artifact per
      eligible endpoint in registration order, children named after the entry and
      their protocol, and the log's links exactly when a log is configured. */
  lemma EntryCarries(e: Env, o: Options, r: AgentRecord)
    requires BuildEntry(e, o, r).Ok?
    ensures var entry := BuildEntry(e, o, r).value;
            var eligible := EligibleEndpoints(e, o, r.name.host, r.endpoints);
            && entry.displayName == Sanitize(e, r.displayName) && entry.description == Sanitize(e, r.description)
            && entry.version == Sanitize(e, VersionText(r.name.version)) && entry.updatedAt == r.updatedAt
            && entry.ansName == Sanitize(e, NameText(r.name)) && entry.agentHost == Sanitize(e, r.name.host)
            && |Artifacts(entry)| == |eligible|
            && (forall i :: 0 <= i < |eligible| ==> Artifacts(entry)[i] == ArtifactOf(eligible[i]))
            && (|eligible| == 1 ==> entry.tags == Deduplicated(e, eligible[0].tags))
            && (|eligible| > 1 ==>
                  && entry.mediaType == "application/ai-catalog+json" && entry.tags == []
                  && forall i :: 0 <= i < |eligible| ==>
                       && entry.data[i].displayName == entry.displayName
                       && entry.data[i].identifier ==
                            entry.identifier + if eligible[i].protocol.A2A? then ":a2a" else ":mcp")
            && (if o.tlBaseUrl == "" then entry.badgeUrl == "" && entry.receiptUri == ""
                else && entry.badgeUrl == TrimSlashes(o.tlBaseUrl) + "/v1/agents/" + r.agentId
                     && entry.receiptUri == entry.badgeUrl + "/receipt")
  {
    hide Sanitize, MintUrn, VersionText, NameText, Deduplicated, TrimSlashes, UrlPasses;
    var eligible := EligibleEndpoints(e, o, r.name.host, r.endpoints);
    var urn := BuildEntry(e, o, r).value.identifier;
    forall i | 0 <= i < |eligible| ensures eligible[i].protocol.A2A? || eligible[i].protocol.MCP? {
      assert Eligible(e, o, r.name.host, eligible[i]);
    }
    AppendAssoc(urn, ":", "a2a");
    AppendAssoc(urn, ":", "mcp");
  }

  /** Nothing an agent wrote reaches the catalog with a control or format character
      in it: no text, no tag, no artifact URL, in the entry or in its children. The
      log's own URLs are as clean as the configured base and the agent id. */
  lemma EntryIsClean(e: Env, o: Options, r: AgentRecord)
    requires Lawful(e) && BuildEntry(e, o, r).Ok?
    ensures var entry := BuildEntry(e, o, r).value;
            && Clean(e, entry.identifier) && Clean(e, entry.displayName) && Clean(e, entry.description)
            && Clean(e, entry.version) && Clean(e, entry.ansName) && Clean(e, entry.agentHost)
            && Clean(e, entry.trustIdentity) && Clean(e, entry.url)
            && (forall t :: t in entry.tags ==> Clean(e, t))
            && (forall i :: 0 <= i < |entry.data| ==>
                  && Clean(e, entry.data[i].identifier) && Clean(e, entry.data[i].displayName)
                  && Clean(e, entry.data[i].url))
            && (Clean(e, o.tlBaseUrl) && Clean(e, r.agentId) ==> Clean(e, entry.badgeUrl) && Clean(e, entry.receiptUri))
  {
    hide Sanitize, MintUrn, VersionText, NameText, Deduplicated, BadgeUrl, Clean, Children, EligibleEndpoints;
    var eligible := EligibleEndpoints(e, o, r.name.host, r.endpoints);
    var urn := Sanitize(e, MintUrn(r.name.host, Sanitize(e, r.displayName)).value);
    SanitizeIsClean(e, MintUrn(r.name.host, Sanitize(e, r.displayName)).value);
    SanitizeIsClean(e, r.displayName);
    SanitizeIsClean(e, r.description);
    SanitizeIsClean(e, VersionText(r.name.version));
    SanitizeIsClean(e, NameText(r.name));
    SanitizeIsClean(e, r.name.host);
    DeduplicatedIsClean(e, eligible[0].tags);
    BadgeIsClean(e, o, r.agentId);
    ChildrenAreClean(e, urn, Sanitize(e, r.displayName), eligible);
    EmptyIsClean(e);
  }

  lemma {:induction false} TrimmedSlashesAreClean(e: Env, s: string)
    requires Clean(e, s)
    ensures Clean(e, TrimSlashes(s))
  {
    if s != "" && s[|s| - 1] == '/' {
      TrimmedSlashesAreClean(e, s[..|s| - 1]);
    }
  }

  lemma BadgeIsClean(e: Env, o: Options, agentId: string)
    requires Lawful(e)
    ensures Clean(e, o.tlBaseUrl) && Clean(e, agentId) ==>
              Clean(e, BadgeUrl(o, agentId)) && Clean(e, BadgeUrl(o, agentId) + "/receipt")
  {
    hide TrimSlashes;
    if Clean(e, o.tlBaseUrl) {
      TrimmedSlashesAreClean(e, o.tlBaseUrl);
    }
  }

  lemma EmptyIsClean(e: Env)
    ensures Clean(e, "")
  {
  }

  lemma ChildrenAreClean(e: Env, urn: string, name: string, eligible: seq<Endpoint>)
    requires Lawful(e) && Clean(e, urn) && Clean(e, name)
    requires forall i :: 0 <= i < |eligible| ==>
               MediaType(eligible[i].protocol).Some? && Clean(e, eligible[i].metadataUrl)
    ensures var cs := Children(urn, name, eligible);
            forall i :: 0 <= i < |cs| ==>
              Clean(e, cs[i].identifier) && Clean(e, cs[i].displayName) && Clean(e, cs[i].url)
  {
  }

  // ---- one document per set of registrations -------------------------------

  lemma EntryLeIsTotal()
    ensures TotalPreorder(EntryLe)
  {
    forall a, b ensures EntryLe(a, b) || EntryLe(b, a) {
      StringLeTotal(a.identifier, b.identifier);
      StringLeTotal(a.version, b.version);
    }
    forall a, b, c | EntryLe(a, b) && EntryLe(b, c) ensures EntryLe(a, c) {
      EntryLeTransitive(a, b, c);
    }
  }

  lemma EntryLeTransitive(a: Entry, b: Entry, c: Entry)
    requires EntryLe(a, b) && EntryLe(b, c)
    ensures EntryLe(a, c)
  {
    hide StringLe;
    if a.identifier == b.identifier && b.identifier == c.identifier {
      StringLeTransitive(a.version, b.version, c.version);
    } else if a.identifier != b.identifier && b.identifier != c.identifier {
      StringLeTransitive(a.identifier, b.identifier, c.identifier);
      StringLeTotal(a.identifier, b.identifier);
    }
  }

  /** The entries of a document are in order of identifier, then of version. */
  lemma DocumentIsSorted(e: Env, o: Options, host: string, regs: seq<Option<AgentRecord>>, i: nat, j: nat)
    requires i < j < |BuildHostDocument(e, o, host, regs).entries|
    ensures var es := BuildHostDocument(e, o, host, regs).entries;
            || (es[i].identifier != es[j].identifier && StringLe(es[i].identifier, es[j].identifier))
            || (es[i].identifier == es[j].identifier && StringLe(es[i].version, es[j].version))
  {
    hide StringLe, Sort, FilterMap;
    EntryLeIsTotal();
    SortSorts(FilterMap(Builder(e, o), regs), EntryLe);
  }

  lemma EntryTie(a: Entry, b: Entry)
    ensures EntryLe(a, b) && EntryLe(b, a) <==> a.identifier == b.identifier && a.version == b.version
  {
    hide StringLe;
    StringLeTotal(a.identifier, b.identifier);
    StringLeTotal(a.version, b.version);
  }

  lemma VersionSurvives(e: Env, v: SemVer)
    requires Lawful(e)
    ensures Sanitize(e, VersionText(v)) == VersionText(v)
  {
    DecimalIsClean(e, Itoa(v.major));
    DecimalIsClean(e, Itoa(v.minor));
    DecimalIsClean(e, Itoa(v.patch));
    hide Itoa, Sanitize;
    SanitizeKeepsClean(e, VersionText(v));
  }

  lemma DecimalIsClean(e: Env, s: string)
    requires Lawful(e) && CanonicalDecimal(s)
    ensures Clean(e, s)
  {
  }

  /** Registrations of one host with distinct names. */
  ghost predicate OneHost(host: string, regs: seq<Option<AgentRecord>>) {
    && (forall i :: 0 <= i < |regs| && regs[i].Some? ==> regs[i].value.name.host == host)
    && (forall i, j :: 0 <= i < j < |regs| && regs[i].Some? && regs[j].Some? ==>
          regs[i].value.name != regs[j].value.name)
  }

  lemma EntryVersion(e: Env, o: Options, r: AgentRecord)
    requires Lawful(e) && BuildEntry(e, o, r).Ok?
    ensures BuildEntry(e, o, r).value.version == VersionText(r.name.version)
  {
    hide VersionText, Sanitize;
    VersionSurvives(e, r.name.version);
  }

  /** Entries of distinct names never tie: their version texts differ. */
  lemma NoTies(e: Env, o: Options, host: string, regs: seq<Option<AgentRecord>>)
    requires Lawful(e) && OneHost(host, regs)
    ensures TieFree(FilterMap(Builder(e, o), regs), EntryLe)
  {
    hide BuildEntry, VersionText, EntryLe;
    var build := Builder(e, o);
    var entries := FilterMap(build, regs);
    forall x, y | x in entries && y in entries && EntryLe(x, y) && EntryLe(y, x) ensures x == y {
      FilterMapMember(build, regs, x);
      FilterMapMember(build, regs, y);
      var i :| 0 <= i < |regs| && build(regs[i]) == Some(x);
      var j :| 0 <= j < |regs| && build(regs[j]) == Some(y);
      EntryTie(x, y);
      EntryVersion(e, o, regs[i].value);
      EntryVersion(e, o, regs[j].value);
      VersionsPrintUniquely(regs[i].value.name.version, regs[j].value.name.version);
    }
  }

  /** The host document, and so its ETag, does not depend on the order the
      registrations come in. */
  lemma DocumentForgetsOrder(e: Env, o: Options, host: string,
                             regs: seq<Option<AgentRecord>>, regs': seq<Option<AgentRecord>>)
    requires Lawful(e) && OneHost(host, regs) && multiset(regs) == multiset(regs')
    ensures BuildHostDocument(e, o, host, regs) == BuildHostDocument(e, o, host, regs')
  {
    hide BuildEntry, EntryLe, Builder, Sort, FilterMap;
    NoTies(e, o, host, regs);
    FilterMapRearranged(Builder(e, o), regs, regs');
    EntryLeIsTotal();
    SortForgetsOrder(FilterMap(Builder(e, o), regs), FilterMap(Builder(e, o), regs'), EntryLe);
  }

  /** Order is forgotten for no more than that: a list of entries sorts alike in all
      its orders exactly when no two different entries share identifier and version. */
  lemma TiesKeepInputOrder(entries: seq<Entry>)
    ensures OrderFree(entries, EntryLe) <==>
              forall a, b :: a in entries && b in entries && a.identifier == b.identifier && a.version == b.version ==>
                a == b
  {
    hide EntryLe;
    EntryLeIsTotal();
    SortForgetsOrderExactly(entries, EntryLe);
    forall a, b ensures EntryLe(a, b) && EntryLe(b, a) <==> a.identifier == b.identifier && a.version == b.version {
      EntryTie(a, b);
    }
  }
}
