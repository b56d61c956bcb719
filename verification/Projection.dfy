/** The Finder's projection of one feed event into catalog entries. */
module Projection {
  import opened Prelude
  import opened Text
  import opened Sequences
  import opened Sorting
  import opened AnsName
  import opened Ard

  datatype Function = Function(name: string, tags: seq<string>)

  datatype Endpoint = Endpoint(agentUrl: string, metaDataUrl: string, protocol: string, functions: seq<Function>)

  datatype EventItem = EventItem(
    logId: string, eventType: string, createdAt: string, expiresAt: string, agentId: string,
    ansName: string, agentHost: string, displayName: string, description: string, version: string,
    endpoints: seq<Endpoint>)

  /** Projection settings; isRfc3339 stands for time.Parse(time.RFC3339, ...). */
  datatype Config = Config(env: Env, allowHttp: bool, isRfc3339: string -> bool)

  datatype Lifecycle = LifecycleActive | LifecycleRevoked | LifecycleDeprecated

  datatype Entry = Entry(
    identifier: string, displayName: string, mediaType: string, url: string, description: string,
    capabilities: seq<string>, tags: seq<string>, version: string)

  datatype ProjectedEntry = ProjectedEntry(
    entry: Entry, lifecycle: Lifecycle, agentId: string, ansName: string, logId: string,
    createdAt: string, expiresAt: string)

  datatype SkipKind = UnknownEventType | MissingLabel | UnknownProtocol | InvalidUrl

  datatype Projected = Projected(entries: seq<ProjectedEntry>, skipped: seq<SkipKind>)

  // ---- validation ----------------------------------------------------------

  predicate IsHexDigit(c: char) {
    '0' <= c <= '9' || 'a' <= c <= 'f' || 'A' <= c <= 'F'
  }

  /** 8-4-4-4-12 hex digits. */
  predicate IsUuid(s: string) {
    |s| == 36 && forall i :: 0 <= i < 36 ==> if i in {8, 13, 18, 23} then s[i] == '-' else IsHexDigit(s[i])
  }

  predicate Blank(s: string) {
    TrimSpace(s) == ""
  }

  /** The tombstone keys: all a revocation needs to be recorded. */
  predicate IdentityKeysValid(c: Config, item: EventItem) {
    && !Blank(item.logId) && IsUuid(item.agentId) && c.isRfc3339(item.createdAt)
    && ParseName(item.ansName).Ok? && ParseName(item.ansName).value.host == ToLower(item.agentHost)
  }

  predicate FullyValid(c: Config, item: EventItem) {
    !Blank(item.eventType) && !Blank(item.agentHost) && !Blank(item.version) && IdentityKeysValid(c, item)
  }

  // ---- capability and tag lists --------------------------------------------

  function Cleaned(e: Env, xs: seq<string>): set<string> {
    set x | x in xs && Sanitize(e, x) != "" :: Sanitize(e, x)
  }

  predicate StringLt(a: string, b: string) {
    StringLe(a, b) && a != b
  }

  /** r lists the `limit` least members of S, or all of them, in ascending order. */
  ghost predicate LeastOf(r: seq<string>, S: set<string>, limit: nat) {
    && (forall i, j :: 0 <= i < j < |r| ==> StringLt(r[i], r[j]))
    && (forall x :: x in r ==> x in S)
    && |r| == (if |S| <= limit then |S| else limit)
    && (forall x, y :: x in S && x !in r && y in r ==> StringLt(y, x))
  }

  lemma StringLeIsTotal()
    ensures TotalPreorder(StringLe)
  {
    forall a, b ensures StringLe(a, b) || StringLe(b, a) { StringLeTotal(a, b); }
    forall a, b, c | StringLe(a, b) && StringLe(b, c) ensures StringLe(a, c) { StringLeTransitive(a, b, c); }
  }

  lemma AscendingHasNoDuplicates(r: seq<string>)
    requires forall i, j :: 0 <= i < j < |r| ==> StringLt(r[i], r[j])
    ensures NoDuplicates(r) && |Members(r)| == |r| && Sorted(r, StringLe)
  {
    MembersCount(r);
  }

  /** Two such lists have the same members: one of them cannot miss a member of the
      other without holding something else, which then would come first. */
  lemma LeastMembers(r: seq<string>, r': seq<string>, S: set<string>, limit: nat)
    requires LeastOf(r, S, limit) && LeastOf(r', S, limit)
    ensures Members(r) == Members(r')
  {
    hide StringLe;
    AscendingHasNoDuplicates(r);
    AscendingHasNoDuplicates(r');
    var m, m' := Members(r), Members(r');
    if x :| x in m && x !in m' {
      assert x in m - m';
      OneMissesOneExtra(m, m');
      var y :| y in m' - m;
      StringLeTotal(x, y);
      assert false;
    }
    SubsetSameSize(m, m');
  }

  lemma OneMissesOneExtra<T>(m: set<T>, m': set<T>)
    requires |m| == |m'| && m - m' != {}
    ensures m' - m != {}
  {
    if m' - m == {} {
      assert forall y :: y in m' && y !in m ==> y in m' - m;
      SubsetSameSize(m', m);
    }
  }

  /** There is only one such list, so it depends on the set of clean values alone. */
  lemma LeastOfUnique(r: seq<string>, r': seq<string>, S: set<string>, limit: nat)
    requires LeastOf(r, S, limit) && LeastOf(r', S, limit)
    ensures r == r'
  {
    LeastMembers(r, r', S, limit);
    AscendingHasNoDuplicates(r);
    AscendingHasNoDuplicates(r');
    hide LeastOf, StringLe;
    forall x ensures x in r <==> x in r' {
      assert x in Members(r) <==> x in Members(r');
    }
    SameMembersRearrange(r, r');
    forall x, y | x in r && y in r && StringLe(x, y) && StringLe(y, x) ensures x == y { StringLeTotal(x, y); }
    SortedUnique(r, r', StringLe);
  }

  method DedupSortCap(e: Env, xs: seq<string>, limit: nat) returns (r: seq<string>)
    ensures r == LeastList(e, xs, limit)
  {
    var seen: set<string> := {};
    var out: seq<string> := [];
    for i := 0 to |xs|
      invariant seen == Cleaned(e, xs[..i]) == Members(out) && NoDuplicates(out)
    {
      CleanedStep(e, xs[..i], xs[i]);
      assert xs[..i + 1] == xs[..i] + [xs[i]];
      var s := Sanitize(e, xs[i]);
      if s == "" || s in seen {
        continue;
      }
      seen := seen + {s};
      out := out + [s];
    }
    assert xs[..|xs|] == xs;
    MembersCount(out);
    StringLeIsTotal();
    ghost var before := out;
    out := SortSlice(out, StringLe);
    CapIsLeast(before, out, limit);
    r := if |out| > limit then out[..limit] else out;
    LeastListIsLeastOf(e, xs, limit);
    LeastOfUnique(r, LeastList(e, xs, limit), Cleaned(e, xs), limit);
  }

  lemma CleanedStep(e: Env, xs: seq<string>, x: string)
    ensures Cleaned(e, xs + [x]) == Cleaned(e, xs) + (if Sanitize(e, x) == "" then {} else {Sanitize(e, x)})
  {
    hide Sanitize;
    assert forall y :: y in xs + [x] <==> y in xs || y == x;
  }

  /** The front of a sorted duplicate-free list is its least part. */
  lemma CapIsLeast(before: seq<string>, sorted: seq<string>, limit: nat)
    requires NoDuplicates(before) && Sorted(sorted, StringLe) && multiset(sorted) == multiset(before)
    ensures LeastOf(if |sorted| > limit then sorted[..limit] else sorted, Members(before), limit)
  {
    hide StringLe;
    SameMembers(sorted, before);
    MembersCount(before);
    RearrangedNoDuplicates(before, sorted);
    var r := if |sorted| > limit then sorted[..limit] else sorted;
    SameLength(sorted, before);
    forall x, y | x in Members(before) && x !in r && y in r ensures StringLt(y, x) {
      var k :| 0 <= k < |sorted| && sorted[k] == x;
      var j :| 0 <= j < |r| && r[j] == y;
      assert j < k && sorted[j] == y;
    }
  }

  /** dedupSortCap as a value. */
  function LeastList(e: Env, xs: seq<string>, limit: nat): seq<string> {
    var sorted := Sort(Deduplicated(e, xs), StringLe);
    if |sorted| > limit then sorted[..limit] else sorted
  }

  lemma {:induction false} DeduplicatedMembers(e: Env, xs: seq<string>)
    ensures NoDuplicates(Deduplicated(e, xs)) && Members(Deduplicated(e, xs)) == Cleaned(e, xs)
  {
    hide Sanitize;
    if xs != [] {
      DeduplicatedMembers(e, xs[..|xs| - 1]);
      CleanedStep(e, xs[..|xs| - 1], xs[|xs| - 1]);
      assert xs == xs[..|xs| - 1] + [xs[|xs| - 1]];
    }
  }

  /** Capability and tag lists are the `limit` least distinct non-empty sanitized
      values, and depend on nothing but that set of values. */
  lemma LeastListIsLeast(e: Env, xs: seq<string>, limit: nat)
    ensures LeastOf(LeastList(e, xs, limit), Cleaned(e, xs), limit)
    ensures forall ys :: Cleaned(e, ys) == Cleaned(e, xs) ==> LeastList(e, ys, limit) == LeastList(e, xs, limit)
  {
    LeastListIsLeastOf(e, xs, limit);
    forall ys | Cleaned(e, ys) == Cleaned(e, xs) ensures LeastList(e, ys, limit) == LeastList(e, xs, limit) {
      LeastListIsLeastOf(e, ys, limit);
      LeastOfUnique(LeastList(e, ys, limit), LeastList(e, xs, limit), Cleaned(e, xs), limit);
    }
  }

  lemma LeastListIsLeastOf(e: Env, xs: seq<string>, limit: nat)
    ensures LeastOf(LeastList(e, xs, limit), Cleaned(e, xs), limit)
  {
    hide StringLe, Sanitize, Deduplicated, Sort, LeastOf;
    DeduplicatedMembers(e, xs);
    StringLeIsTotal();
    SortSorts(Deduplicated(e, xs), StringLe);
    CapIsLeast(Deduplicated(e, xs), Sort(Deduplicated(e, xs), StringLe), limit);
  }

  // ---- projecting one endpoint ---------------------------------------------

  /** Media type and well-known file of a discoverable protocol. */
  function ProtocolArtifact(protocol: string): Option<(string, string)> {
    if protocol == "A2A" then Some(("application/a2a-agent-card+json", "/.well-known/agent-card.json"))
    else if protocol == "MCP" then Some(("application/mcp-server-card+json", "/.well-known/mcp.json"))
    else None
  }

  predicate Discoverable(protocol: string) {
    protocol == "A2A" || protocol == "MCP"
  }

  /** A declared metadata URL is used or nothing is; only an absent one falls
      back to the well-known location. */
  function CandidateUrl(ep: Endpoint, host: string): string
    requires Discoverable(ep.protocol)
  {
    if !Blank(ep.metaDataUrl) then ep.metaDataUrl else "https://" + host + ProtocolArtifact(ep.protocol).value.1
  }

  predicate UrlValid(c: Config, url: string, host: string) {
    !Blank(url) && UrlPasses(c.env, url, host, c.allowHttp)
  }

  function AllTags(fns: seq<Function>): seq<string> {
    if fns == [] then [] else AllTags(fns[..|fns| - 1]) + fns[|fns| - 1].tags
  }

  function Names(fns: seq<Function>): seq<string> {
    seq(|fns|, i requires 0 <= i < |fns| => fns[i].name)
  }

  /** selectURL. */
  function SelectUrl(c: Config, ep: Endpoint, host: string): Result<string>
    requires Discoverable(ep.protocol)
  {
    if UrlValid(c, CandidateUrl(ep, host), host) then Ok(CandidateUrl(ep, host)) else Err("policy")
  }

  /** projectEndpoint: the source's pair of pointers. */
  function ProjectEndpoint(c: Config, item: EventItem, urn: string, ep: Endpoint)
    : (Option<ProjectedEntry>, Option<SkipKind>)
  {
    match ProtocolArtifact(ep.protocol)
    case None => if ep.protocol == "HTTP-API" then (None, None) else (None, Some(UnknownProtocol))
    case Some((mediaType, _)) =>
      match SelectUrl(c, ep, ToLower(item.agentHost))
      case Err(_) => (None, Some(InvalidUrl))
      case Ok(url) =>
        (Some(Wrap(item, LifecycleActive, Entry(
          urn, Sanitize(c.env, item.displayName), mediaType, url, Sanitize(c.env, item.description),
          LeastList(c.env, Names(ep.functions), 50), LeastList(c.env, AllTags(ep.functions), 10),
          Sanitize(c.env, item.version)))), None)
  }

  /** The index-side keys, copied from the event. */
  function Wrap(item: EventItem, lifecycle: Lifecycle, entry: Entry): ProjectedEntry {
    ProjectedEntry(entry, lifecycle, item.agentId, item.ansName, item.logId, item.createdAt, item.expiresAt)
  }

  // ---- projecting one event ------------------------------------------------

  function UrnOf(c: Config, item: EventItem): Option<string> {
    MintUrn(ToLower(item.agentHost), Sanitize(c.env, item.displayName))
  }

  function Tombstone(c: Config, item: EventItem, lifecycle: Lifecycle): ProjectedEntry {
    var urn := UrnOf(c, item);
    Wrap(item, lifecycle, Entry(if urn.Some? then urn.value else "", "", "", "", "", [], [], ""))
  }

  /** Identifier, media type, URL. */
  predicate ProjectedLe(a: ProjectedEntry, b: ProjectedEntry) {
    var x, y := a.entry, b.entry;
    if x.identifier != y.identifier then StringLe(x.identifier, y.identifier)
    else if x.mediaType != y.mediaType then StringLe(x.mediaType, y.mediaType)
    else StringLe(x.url, y.url)
  }

  function EntryOf(c: Config, item: EventItem, urn: string): Endpoint -> Option<ProjectedEntry> {
    (ep: Endpoint) => ProjectEndpoint(c, item, urn, ep).0
  }

  function SkipOf(c: Config, item: EventItem, urn: string): Endpoint -> Option<SkipKind> {
    (ep: Endpoint) => ProjectEndpoint(c, item, urn, ep).1
  }

  function ProjectActive(c: Config, item: EventItem): Projected {
    match UrnOf(c, item)
    case None => Projected([], [MissingLabel])
    case Some(urn) =>
      Projected(Sort(FilterMap(EntryOf(c, item, urn), item.endpoints), ProjectedLe),
                FilterMap(SkipOf(c, item, urn), item.endpoints))
  }

  function FromEvent(c: Config, item: EventItem): Result<Projected> {
    if !IdentityKeysValid(c, item) then Err("identity keys")
    else if item.eventType == "AGENT_REVOKED" then Ok(Projected([Tombstone(c, item, LifecycleRevoked)], []))
    else if item.eventType == "AGENT_DEPRECATED" then Ok(Projected([Tombstone(c, item, LifecycleDeprecated)], []))
    else if item.eventType == "AGENT_REGISTERED" || item.eventType == "AGENT_RENEWED" then
      if !FullyValid(c, item) then Err("feed contract") else Ok(ProjectActive(c, item))
    else Ok(Projected([], [UnknownEventType]))
  }

  /** The endpoint loop of projectActive. */
  method ProjectEndpoints(c: Config, item: EventItem, urn: string)
    returns (entries: seq<ProjectedEntry>, skips: seq<SkipKind>)
    ensures entries == FilterMap(EntryOf(c, item, urn), item.endpoints)
    ensures skips == FilterMap(SkipOf(c, item, urn), item.endpoints)
  {
    hide ProjectEndpoint, FilterMap;
    var eps := item.endpoints;
    entries, skips := [], [];
    NothingKept(EntryOf(c, item, urn));
    NothingKept(SkipOf(c, item, urn));
    for i := 0 to |eps|
      invariant entries == FilterMap(EntryOf(c, item, urn), eps[..i])
      invariant skips == FilterMap(SkipOf(c, item, urn), eps[..i])
    {
      var (entry, skip) := ProjectEndpoint(c, item, urn, eps[i]);
      assert eps[..i + 1] == eps[..i] + [eps[i]];
      FilterMapSnoc(EntryOf(c, item, urn), eps[..i], eps[i]);
      FilterMapSnoc(SkipOf(c, item, urn), eps[..i], eps[i]);
      EndpointCases(c, item, urn, eps[i]);
      if skip.Some? {
        skips := skips + [skip.value];
        continue;
      }
      if entry.Some? {
        entries := entries + [entry.value];
      }
    }
    assert eps[..|eps|] == eps;
  }

  // ---- the lifecycle split -------------------------------------------------

  /** The event's keys and its lifecycle, and nothing else but the identifier where
      the label mints. */
  ghost predicate IsTombstoneFor(c: Config, p: ProjectedEntry, item: EventItem) {
    && p.lifecycle == (if item.eventType == "AGENT_REVOKED" then LifecycleRevoked else LifecycleDeprecated)
    && p.agentId == item.agentId && p.ansName == item.ansName && p.logId == item.logId
    && p.createdAt == item.createdAt && p.expiresAt == item.expiresAt
    && (UrnOf(c, item).Some? ==> p.entry.identifier == UrnOf(c, item).value)
    && p.entry == Entry(p.entry.identifier, "", "", "", "", [], [], "")
  }

  ghost predicate IsRetirement(item: EventItem) {
    item.eventType == "AGENT_REVOKED" || item.eventType == "AGENT_DEPRECATED"
  }

  /** A revocation or deprecation is never lost: whatever its display, version and
      endpoint fields hold, valid identity keys make it exactly one tombstone for
      the agent; invalid keys are the only way it fails. */
  lemma RetirementAlwaysTombstones(c: Config, item: EventItem)
    requires IsRetirement(item)
    ensures FromEvent(c, item).Ok? <==> IdentityKeysValid(c, item)
    ensures FromEvent(c, item).Ok? ==>
              var p := FromEvent(c, item).value;
              |p.entries| == 1 && p.skipped == [] && IsTombstoneFor(c, p.entries[0], item)
  {
    hide IdentityKeysValid, UrnOf;
  }

  /** Which events stop ingestion: a bad tombstone key, or an Active event without a
      version. A missing host needs no check of its own. */
  lemma EventErrorsExactly(c: Config, item: EventItem)
    ensures FromEvent(c, item).Err? <==>
              !IdentityKeysValid(c, item) || (IsActive(item) && Blank(item.version))
  {
    hide IdentityKeysValid, ProjectActive, Tombstone, Blank, ValidHost;
    EventTypesAreNotBlank();
    if IdentityKeysValid(c, item) {
      HostOfValidKeys(c, item);
    }
  }

  ghost predicate IsActive(item: EventItem) {
    item.eventType == "AGENT_REGISTERED" || item.eventType == "AGENT_RENEWED"
  }

  /** Valid keys bind the host to a well-formed name. */
  lemma HostOfValidKeys(c: Config, item: EventItem)
    requires IdentityKeysValid(c, item)
    ensures ValidHost(ToLower(item.agentHost)) && !Blank(item.agentHost)
  {
    hide ValidHost, NewName, TrimSpace;
    var w := ParsedPieces(item.ansName);
    NewNameIsFixed(w.Read(), w.host);
    var host := ToLower(item.agentHost);
    HostNotEmpty(host);
    if Blank(item.agentHost) {
      BlankStaysBlank(item.agentHost);
    }
  }

  lemma BlankStaysBlank(s: string)
    requires Blank(s) && s != ""
    ensures !SpaceFree(ToLower(s))
  {
    hide TrimSpace;
    BlankIsSpace(s);
    assert IsSpace(s[0]) && IsSpace(ToLower(s)[0]);
  }

  lemma EventTypesAreNotBlank()
    ensures !Blank("AGENT_REGISTERED") && !Blank("AGENT_RENEWED")
  {
    assert Trimmed("AGENT_REGISTERED") && Trimmed("AGENT_RENEWED");
  }

  ghost predicate HexGroup(s: string, n: nat) {
    |s| == n && forall i :: 0 <= i < n ==> '0' <= s[i] <= '9' || 'a' <= s[i] <= 'f' || 'A' <= s[i] <= 'F'
  }

  ghost predicate GroupsOf(s: string, g: seq<string>) {
    && |g| == 5 && s == g[0] + "-" + g[1] + "-" + g[2] + "-" + g[3] + "-" + g[4]
    && HexGroup(g[0], 8) && HexGroup(g[1], 4) && HexGroup(g[2], 4) && HexGroup(g[3], 4) && HexGroup(g[4], 12)
  }

  lemma UuidExactly(s: string)
    ensures IsUuid(s) <==> exists g :: GroupsOf(s, g)
  {
    if IsUuid(s) {
      assert GroupsOf(s, [s[..8], s[9..13], s[14..18], s[19..23], s[24..]]);
    }
  }

  ghost predicate HasText(s: string) {
    exists i :: 0 <= i < |s| && !IsSpace(s[i])
  }

  lemma BlankExactly(s: string)
    ensures Blank(s) <==> !HasText(s)
  {
    hide TrimSpace;
    if Blank(s) {
      BlankIsSpace(s);
    } else {
      TextHasCharacter(s);
    }
  }

  /** The tombstone keys: a log id, a UUID, a timestamp, and a name that names the
      event's host. */
  ghost predicate KeyFields(c: Config, item: EventItem) {
    && HasText(item.logId) && (exists g :: GroupsOf(item.agentId, g)) && c.isRfc3339(item.createdAt)
    && exists v :: ParseName(item.ansName) == Ok(Name(v, ToLower(item.agentHost)))
  }

  /** Which events are projected: those with tombstone keys, and a version as well if
      they publish. A missing host needs no check of its own. */
  lemma EventsAcceptedExactly(c: Config, item: EventItem)
    ensures FromEvent(c, item).Ok? <==> KeyFields(c, item) && (IsActive(item) ==> HasText(item.version))
  {
    EventErrorsExactly(c, item);
    BlankExactly(item.logId);
    BlankExactly(item.version);
    UuidExactly(item.agentId);
    hide FromEvent, ParseName, GroupsOf, IsUuid, HasText, Blank, ToLower;
    if ParseName(item.ansName).Ok? {
      var n := ParseName(item.ansName).value;
      assert n == Name(n.version, n.host);
    }
  }

  lemma ProjectedLeIsTotal()
    ensures TotalPreorder(ProjectedLe)
  {
    hide StringLe;
    forall a, b ensures ProjectedLe(a, b) || ProjectedLe(b, a) {
      StringLeTotal(a.entry.identifier, b.entry.identifier);
      StringLeTotal(a.entry.mediaType, b.entry.mediaType);
      StringLeTotal(a.entry.url, b.entry.url);
    }
    forall a, b, c | ProjectedLe(a, b) && ProjectedLe(b, c) ensures ProjectedLe(a, c) {
      ProjectedLeTransitive(a, b, c);
    }
  }

  lemma ProjectedLeTransitive(a: ProjectedEntry, b: ProjectedEntry, c: ProjectedEntry)
    requires ProjectedLe(a, b) && ProjectedLe(b, c)
    ensures ProjectedLe(a, c)
  {
    hide StringLe;
    var x, y, z := a.entry, b.entry, c.entry;
    if x.identifier != y.identifier && y.identifier != z.identifier {
      StringLeTransitive(x.identifier, y.identifier, z.identifier);
      StringLeTotal(x.identifier, y.identifier);
    } else if x.identifier == y.identifier == z.identifier {
      if x.mediaType != y.mediaType && y.mediaType != z.mediaType {
        StringLeTransitive(x.mediaType, y.mediaType, z.mediaType);
        StringLeTotal(x.mediaType, y.mediaType);
      } else if x.mediaType == y.mediaType == z.mediaType {
        StringLeTransitive(x.url, y.url, z.url);
      }
    }
  }

  /** The endpoint has an artifact at a URL the policy allows for the host. */
  ghost predicate Publishable(c: Config, item: EventItem, ep: Endpoint) {
    var host := ToLower(item.agentHost);
    Discoverable(ep.protocol) && UrlValid(c, CandidateUrl(ep, host), host)
  }

  /** The sanitized function names that are not empty. */
  ghost function NameSet(e: Env, fns: seq<Function>): set<string> {
    set f | f in fns && Sanitize(e, f.name) != "" :: Sanitize(e, f.name)
  }

  /** The sanitized tags of all functions that are not empty. */
  ghost function TagSet(e: Env, fns: seq<Function>): set<string> {
    set f, t | f in fns && t in f.tags && Sanitize(e, t) != "" :: Sanitize(e, t)
  }

  lemma NamesAreCleaned(e: Env, fns: seq<Function>)
    ensures Cleaned(e, Names(fns)) == NameSet(e, fns)
  {
    hide Sanitize;
    forall x ensures x in Cleaned(e, Names(fns)) <==> x in NameSet(e, fns) {
      if x in NameSet(e, fns) {
        var f :| f in fns && Sanitize(e, f.name) == x;
        var i :| 0 <= i < |fns| && fns[i] == f;
        assert Names(fns)[i] in Names(fns);
      }
    }
  }

  lemma {:induction false} TagMembers(fns: seq<Function>, t: string)
    ensures t in AllTags(fns) <==> exists f :: f in fns && t in f.tags
  {
    if fns != [] {
      TagMembers(fns[..|fns| - 1], t);
      assert fns == fns[..|fns| - 1] + [fns[|fns| - 1]];
    }
  }

  lemma TagsAreCleaned(e: Env, fns: seq<Function>)
    ensures Cleaned(e, AllTags(fns)) == TagSet(e, fns)
  {
    hide Sanitize, AllTags;
    forall t ensures t in AllTags(fns) <==> exists f :: f in fns && t in f.tags { TagMembers(fns, t); }
  }

  /** p is the entry of ep: its own URL and protocol, the event's keys and sanitized
      texts, the least capabilities and tags. */
  ghost predicate EntryFor(c: Config, item: EventItem, urn: string, ep: Endpoint, p: ProjectedEntry) {
    var host := ToLower(item.agentHost);
    && Publishable(c, item, ep) && p.lifecycle.LifecycleActive?
    && p.entry.identifier == urn
    && p.entry.url == (if !Blank(ep.metaDataUrl) then ep.metaDataUrl
                       else if ep.protocol == "A2A" then "https://" + host + "/.well-known/agent-card.json"
                       else "https://" + host + "/.well-known/mcp.json")
    && c.env.urlAllowed(p.entry.url, host, c.allowHttp)
    && p.entry.mediaType == (if ep.protocol == "A2A" then "application/a2a-agent-card+json"
                             else "application/mcp-server-card+json")
    && p.entry.displayName == Sanitize(c.env, item.displayName)
    && p.entry.description == Sanitize(c.env, item.description)
    && p.entry.version == Sanitize(c.env, item.version)
    && LeastOf(p.entry.capabilities, NameSet(c.env, ep.functions), 50)
    && LeastOf(p.entry.tags, TagSet(c.env, ep.functions), 10)
    && p.agentId == item.agentId && p.ansName == item.ansName && p.logId == item.logId
    && p.createdAt == item.createdAt && p.expiresAt == item.expiresAt
  }

  /** How an endpoint is classified: an entry exactly with a discoverable protocol
      and a valid candidate URL, a skip exactly with an unknown protocol or an
      invalid one, nothing exactly for HTTP-API; never an entry and a skip. */
  lemma EndpointCases(c: Config, item: EventItem, urn: string, ep: Endpoint)
    ensures var (entry, skip) := ProjectEndpoint(c, item, urn, ep);
            && (entry.Some? <==> Publishable(c, item, ep))
            && (entry.Some? ==> EntryFor(c, item, urn, ep, entry.value))
            && (skip == Some(InvalidUrl) <==> Discoverable(ep.protocol) && !Publishable(c, item, ep))
            && (skip == Some(UnknownProtocol) <==> !Discoverable(ep.protocol) && ep.protocol != "HTTP-API")
            && (skip.Some? ==> skip.value.InvalidUrl? || skip.value.UnknownProtocol?)
            && (entry.None? && skip.None? <==> ep.protocol == "HTTP-API")
            && !(entry.Some? && skip.Some?)
  {
    hide LeastList, Sanitize, TrimSpace, Clean, LeastOf, Cleaned;
    LeastListIsLeast(c.env, Names(ep.functions), 50);
    LeastListIsLeast(c.env, AllTags(ep.functions), 10);
    NamesAreCleaned(c.env, ep.functions);
    TagsAreCleaned(c.env, ep.functions);
  }

  /** One of the event's entries before another: by media type, then by URL. */
  ghost predicate InOrder(a: ProjectedEntry, b: ProjectedEntry) {
    || StringLt(a.entry.mediaType, b.entry.mediaType)
    || (a.entry.mediaType == b.entry.mediaType && StringLe(a.entry.url, b.entry.url))
  }

  lemma OrderOfEntries(entries: seq<ProjectedEntry>, urn: string)
    requires Sorted(entries, ProjectedLe)
    requires forall k :: 0 <= k < |entries| ==> entries[k].entry.identifier == urn
    ensures forall k, l :: 0 <= k < l < |entries| ==> InOrder(entries[k], entries[l])
  {
    hide StringLe;
  }

  /** Every valid Active event whose label mints: the entries are, one for one, those
      of the publishable endpoints, in sorted order; the skips are, one for one and
      in order, the endpoints with a bad URL or an unknown protocol; what remains is
      HTTP-API. */
  lemma ActivePartitionsEndpoints(c: Config, item: EventItem) returns (entryFrom: seq<nat>, skipFrom: seq<nat>)
    requires IsActive(item) && FullyValid(c, item) && UrnOf(c, item).Some?
    ensures FromEvent(c, item).Ok?
    ensures var p, urn, eps := FromEvent(c, item).value, UrnOf(c, item).value, item.endpoints;
            && |entryFrom| == |p.entries| && NoDuplicates(entryFrom)
            && (forall k, l :: 0 <= k < l < |p.entries| ==> InOrder(p.entries[k], p.entries[l]))
            && (forall k :: 0 <= k < |entryFrom| ==>
                  entryFrom[k] < |eps| && EntryFor(c, item, urn, eps[entryFrom[k]], p.entries[k]))
            && |skipFrom| == |p.skipped| && (forall k, l :: 0 <= k < l < |skipFrom| ==> skipFrom[k] < skipFrom[l])
            && (forall k :: 0 <= k < |skipFrom| ==>
                  && skipFrom[k] < |eps|
                  && p.skipped[k] == if Discoverable(eps[skipFrom[k]].protocol) then InvalidUrl else UnknownProtocol)
            && (forall i :: 0 <= i < |eps| ==>
                  && (i in entryFrom <==> Publishable(c, item, eps[i]))
                  && (i in skipFrom <==> !Publishable(c, item, eps[i]) && eps[i].protocol != "HTTP-API")
                  && (i !in entryFrom && i !in skipFrom <==> eps[i].protocol == "HTTP-API"))
  {
    hide IdentityKeysValid, UrnOf, FilterMap, Sort, Tombstone, TrimSpace, ProjectedLe, ProjectEndpoint, EntryFor,
      Publishable, Discoverable;
    var urn, eps, p := UrnOf(c, item).value, item.endpoints, FromEvent(c, item).value;
    entryFrom := EntryOrigins(c, item, urn, p.entries);
    skipFrom := SkipOrigins(c, item, urn);
    forall i | 0 <= i < |eps| ensures EndpointFacts(c, item, urn, eps[i]) {
      FactsHold(c, item, urn, eps[i]);
    }
    forall k | 0 <= k < |p.entries| ensures p.entries[k].entry.identifier == urn {
      EntryNamesUrn(c, item, urn, eps[entryFrom[k]], p.entries[k]);
    }
    OrderOfEntries(p.entries, urn);
  }

  lemma EntryNamesUrn(c: Config, item: EventItem, urn: string, ep: Endpoint, p: ProjectedEntry)
    requires EntryFor(c, item, urn, ep, p)
    ensures p.entry.identifier == urn
  {
  }

  /** Valid events that leave nothing in the index: an unknown type and a label that
      does not mint, each with its own single skip. */
  lemma WholeEventSkips(c: Config, item: EventItem)
    requires IdentityKeysValid(c, item)
    ensures !IsRetirement(item) && !IsActive(item) ==> FromEvent(c, item) == Ok(Projected([], [UnknownEventType]))
    ensures IsActive(item) && !Blank(item.version) && UrnOf(c, item).None? ==>
              FromEvent(c, item) == Ok(Projected([], [MissingLabel]))
  {
    EventErrorsExactly(c, item);
    hide IdentityKeysValid, FullyValid, UrnOf, Blank;
  }

  /** The endpoints the entries come from, in the entries' order. */
  lemma EntryOrigins(c: Config, item: EventItem, urn: string, entries: seq<ProjectedEntry>)
    returns (from: seq<nat>)
    requires entries == Sort(FilterMap(EntryOf(c, item, urn), item.endpoints), ProjectedLe)
    ensures |from| == |entries| && NoDuplicates(from) && Sorted(entries, ProjectedLe)
    ensures forall k :: 0 <= k < |from| ==>
              from[k] < |item.endpoints| && EntryFor(c, item, urn, item.endpoints[from[k]], entries[k])
    ensures forall i :: 0 <= i < |item.endpoints| ==> (i in from <==> Publishable(c, item, item.endpoints[i]))
  {
    hide FilterMap, Sort, ProjectedLe, ProjectEndpoint, EntryFor, Publishable, Discoverable;
    var eps, unsorted := item.endpoints, FilterMap(EntryOf(c, item, urn), item.endpoints);
    SortedEntries(unsorted);
    var origins := FilterMapOrigins(EntryOf(c, item, urn), eps);
    from := TagsFollow(unsorted, origins, entries);
    RearrangedNoDuplicates(origins, from);
    SameMembers(origins, from);
    forall k | 0 <= k < |from| ensures from[k] < |eps| && EntryFor(c, item, urn, eps[from[k]], entries[k]) {
      var j :| 0 <= j < |unsorted| && unsorted[j] == entries[k] && origins[j] == from[k];
      FactsHold(c, item, urn, eps[origins[j]]);
    }
    forall i | 0 <= i < |eps| ensures i in from <==> Publishable(c, item, eps[i]) {
      FactsHold(c, item, urn, eps[i]);
    }
  }

  /** The endpoints the skips come from, in order. */
  lemma SkipOrigins(c: Config, item: EventItem, urn: string) returns (from: seq<nat>)
    ensures var skipped, eps := FilterMap(SkipOf(c, item, urn), item.endpoints), item.endpoints;
            && |from| == |skipped| && (forall k, l :: 0 <= k < l < |from| ==> from[k] < from[l])
            && (forall k :: 0 <= k < |from| ==>
                  && from[k] < |eps|
                  && skipped[k] == if Discoverable(eps[from[k]].protocol) then InvalidUrl else UnknownProtocol)
            && (forall i :: 0 <= i < |eps| ==>
                  (i in from <==> !Publishable(c, item, eps[i]) && eps[i].protocol != "HTTP-API"))
  {
    hide FilterMap, ProjectEndpoint, EntryFor, Publishable, Discoverable;
    var eps := item.endpoints;
    from := FilterMapOrigins(SkipOf(c, item, urn), eps);
    forall i | 0 <= i < |eps| ensures EndpointFacts(c, item, urn, eps[i]) {
      FactsHold(c, item, urn, eps[i]);
    }
  }

  lemma FactsHold(c: Config, item: EventItem, urn: string, ep: Endpoint)
    ensures EndpointFacts(c, item, urn, ep)
  {
    hide ProjectEndpoint, EntryFor, UrlValid, CandidateUrl;
    EndpointCases(c, item, urn, ep);
  }

  ghost predicate EndpointFacts(c: Config, item: EventItem, urn: string, ep: Endpoint) {
    var (entry, skip) := ProjectEndpoint(c, item, urn, ep);
    && (entry.Some? <==> Publishable(c, item, ep))
    && (entry.Some? ==> EntryFor(c, item, urn, ep, entry.value))
    && (skip.Some? <==> !Publishable(c, item, ep) && ep.protocol != "HTTP-API")
    && (skip.Some? ==> skip.value == if Discoverable(ep.protocol) then InvalidUrl else UnknownProtocol)
    && (entry.None? && skip.None? <==> ep.protocol == "HTTP-API")
  }

  lemma SortedEntries(entries: seq<ProjectedEntry>)
    ensures Sorted(Sort(entries, ProjectedLe), ProjectedLe)
    ensures multiset(Sort(entries, ProjectedLe)) == multiset(entries) && |Sort(entries, ProjectedLe)| == |entries|
  {
    hide ProjectedLe;
    ProjectedLeIsTotal();
    SortSorts(entries, ProjectedLe);
    SameLength(Sort(entries, ProjectedLe), entries);
  }

  // ---- what leaves is clean ------------------------------------------------

  lemma HostIsCleanText(e: Env, host: string)
    requires Lawful(e) && ValidHost(host)
    ensures Clean(e, host)
  {
    hide ValidHost;
    forall x | x in host ensures !e.disallowed(x) {
      var i :| 0 <= i < |host| && host[i] == x;
      HostChars(host, i);
    }
  }

  ghost predicate CleanEntry(e: Env, entry: Entry) {
    && Clean(e, entry.identifier) && Clean(e, entry.displayName) && Clean(e, entry.description)
    && Clean(e, entry.version) && Clean(e, entry.url)
    && (forall x :: x in entry.capabilities ==> Clean(e, x)) && (forall x :: x in entry.tags ==> Clean(e, x))
  }

  lemma LeastListIsClean(e: Env, xs: seq<string>, limit: nat)
    ensures forall x :: x in LeastList(e, xs, limit) ==> Clean(e, x)
  {
    hide Clean, Sanitize, LeastList;
    LeastListIsLeast(e, xs, limit);
    forall x | x in LeastList(e, xs, limit) ensures Clean(e, x) {
      var y :| y in xs && Sanitize(e, y) == x;
      SanitizeIsClean(e, y);
    }
  }

  lemma UrnOfEventIsClean(c: Config, item: EventItem)
    requires Lawful(c.env) && IdentityKeysValid(c, item) && UrnOf(c, item).Some?
    ensures Clean(c.env, UrnOf(c, item).value)
  {
    hide IdentityKeysValid, ValidHost, Clean, MintUrn, Sanitize;
    HostOfValidKeys(c, item);
    HostIsCleanText(c.env, ToLower(item.agentHost));
    ToLowerIdempotent(item.agentHost);
    SanitizeIsClean(c.env, item.displayName);
    UrnIsClean(c.env, ToLower(item.agentHost), Sanitize(c.env, item.displayName));
  }

  lemma EndpointEntryIsClean(c: Config, item: EventItem, urn: string, ep: Endpoint)
    requires Clean(c.env, urn) && ProjectEndpoint(c, item, urn, ep).0.Some?
    ensures CleanEntry(c.env, ProjectEndpoint(c, item, urn, ep).0.value.entry)
  {
    hide Sanitize, LeastList, TrimSpace;
    SanitizeIsClean(c.env, item.displayName);
    SanitizeIsClean(c.env, item.description);
    SanitizeIsClean(c.env, item.version);
    LeastListIsClean(c.env, Names(ep.functions), 50);
    LeastListIsClean(c.env, AllTags(ep.functions), 10);
  }

  /** No projected entry, tombstones included, carries a control or format character
      in its identifier, texts, URL, capabilities or tags. */
  lemma ProjectionIsClean(c: Config, item: EventItem, p: ProjectedEntry)
    requires Lawful(c.env) && FromEvent(c, item).Ok? && p in FromEvent(c, item).value.entries
    ensures CleanEntry(c.env, p.entry)
  {
    hide IdentityKeysValid, UrnOf, FilterMap, Sort, Clean, CleanEntry, ProjectedLe, ProjectEndpoint, FullyValid;
    if UrnOf(c, item).Some? {
      var urn := UrnOf(c, item).value;
      UrnOfEventIsClean(c, item);
      if IsActive(item) {
        var entries := FilterMap(EntryOf(c, item, urn), item.endpoints);
        SortedEntries(entries);
        SameMembers(entries, Sort(entries, ProjectedLe));
        FilterMapMember(EntryOf(c, item, urn), item.endpoints, p);
        var i :| 0 <= i < |item.endpoints| && EntryOf(c, item, urn)(item.endpoints[i]) == Some(p);
        EndpointEntryIsClean(c, item, urn, item.endpoints[i]);
      } else {
        TombstoneIsClean(c.env, p.entry);
      }
    } else {
      TombstoneIsClean(c.env, p.entry);
    }
  }

  lemma TombstoneIsClean(e: Env, entry: Entry)
    requires Clean(e, entry.identifier) || entry.identifier == ""
    requires entry == Entry(entry.identifier, "", "", "", "", [], [], "")
    ensures CleanEntry(e, entry)
  {
  }
}
