/** The published catalog and the Finder hand out one identifier per agent. */
module Lineage {
  import opened Prelude
  import opened Text
  import opened Sequences
  import opened Sorting
  import opened AnsName
  import opened Ard
  import Catalog
  import Projection

  /** The event and the registration are about one agent: same host, same display
      name. */
  ghost predicate SameAgent(r: Catalog.AgentRecord, item: Projection.EventItem) {
    ToLower(item.agentHost) == r.name.host && item.displayName == r.displayName
  }

  /** The catalog sanitizes the minted URN once more; on a well-formed host that
      changes nothing. */
  lemma UrnSurvives(e: Env, host: string, displayName: string)
    requires Lawful(e) && ValidHost(host) && ToLower(host) == host && MintUrn(host, Sanitize(e, displayName)).Some?
    ensures Sanitize(e, MintUrn(host, Sanitize(e, displayName)).value) == MintUrn(host, Sanitize(e, displayName)).value
  {
    hide ValidHost, Sanitize, MintUrn, Clean;
    Projection.HostIsCleanText(e, host);
    SanitizeIsClean(e, displayName);
    UrnIsClean(e, host, Sanitize(e, displayName));
    SanitizeKeepsClean(e, MintUrn(host, Sanitize(e, displayName)).value);
  }

  /** Whatever the Finder projects from an event of the agent, entries of its
      endpoints or a tombstone, carries the identifier of its catalog entry. */
  lemma OneIdentifier(c: Projection.Config, o: Catalog.Options, r: Catalog.AgentRecord,
                      item: Projection.EventItem, p: Projection.ProjectedEntry)
    requires Lawful(c.env) && Catalog.BuildEntry(c.env, o, r).Ok? && SameAgent(r, item)
    requires Projection.FromEvent(c, item).Ok? && p in Projection.FromEvent(c, item).value.entries
    ensures p.entry.identifier == Catalog.BuildEntry(c.env, o, r).value.identifier
  {
    Projection.HostOfValidKeys(c, item);
    ToLowerIdempotent(item.agentHost);
    EntryIdentifier(c, item, p);
    CatalogIdentifier(c.env, o, r);
  }

  lemma CatalogIdentifier(e: Env, o: Catalog.Options, r: Catalog.AgentRecord)
    requires Lawful(e) && Catalog.BuildEntry(e, o, r).Ok?
    requires ValidHost(r.name.host) && ToLower(r.name.host) == r.name.host
    ensures MintUrn(r.name.host, Sanitize(e, r.displayName)) == Some(Catalog.BuildEntry(e, o, r).value.identifier)
  {
    hide ValidHost, Sanitize, MintUrn, Catalog.EligibleEndpoints;
    UrnSurvives(e, r.name.host, r.displayName);
  }

  lemma EntryIdentifier(c: Projection.Config, item: Projection.EventItem, p: Projection.ProjectedEntry)
    requires Projection.FromEvent(c, item).Ok? && p in Projection.FromEvent(c, item).value.entries
    ensures Projection.UrnOf(c, item).Some? ==> p.entry.identifier == Projection.UrnOf(c, item).value
  {
    hide Projection.IdentityKeysValid, Projection.UrnOf, Projection.FullyValid, Projection.ProjectEndpoint;
    hide FilterMap, Sort, Projection.ProjectedLe, Projection.EntryFor, Projection.Publishable;
    if Projection.UrnOf(c, item).Some? && Projection.IsActive(item) {
      var urn := Projection.UrnOf(c, item).value;
      var f := Projection.EntryOf(c, item, urn);
      Projection.SortedEntries(FilterMap(f, item.endpoints));
      SameMembers(FilterMap(f, item.endpoints), Sort(FilterMap(f, item.endpoints), Projection.ProjectedLe));
      FilterMapMember(f, item.endpoints, p);
      var i :| 0 <= i < |item.endpoints| && f(item.endpoints[i]) == Some(p);
      IdentifierOfEndpoint(c, item, urn, item.endpoints[i]);
    }
  }

  lemma IdentifierOfEndpoint(c: Projection.Config, item: Projection.EventItem, urn: string, ep: Projection.Endpoint)
    requires Projection.ProjectEndpoint(c, item, urn, ep).0.Some?
    ensures Projection.ProjectEndpoint(c, item, urn, ep).0.value.entry.identifier == urn
  {
    hide Projection.ProjectEndpoint;
    Projection.EndpointCases(c, item, urn, ep);
  }
}
