/** The whole run: the credential check, the address check, the pass, and
    the decision to write the configuration back. */
module Script {
  import opened Wrappers
  import opened Store
  import opened Provider
  import opened Reconcile

  /** How a run ends. The first two stop before any request to the provider;
      a crash ends the script after the updates already sent, without
      writing anything. */
  datatype Outcome =
    | MissingCredentials
    | NoAddress
    | Crash(kind: CrashKind, issued: seq<UpsertRequest>)
    | Completed(config: Config, updated: bool, issued: seq<UpsertRequest>)

  /** An empty email or API key ends the run. */
  predicate CredentialsMissing(u: User)
  {
    u.email == "" || u.apiKey == ""
  }

  /** The address test as the script writes it: both operands test the IPv4
      probe, so the IPv6 probe plays no part. */
  predicate NoAddressAsWritten(p: Probe)
  {
    p.ipv4.None? && p.ipv4.None?
  }

  /** The address test the script's own message describes: no address of
      either family. */
  predicate NoAddressIntended(p: Probe)
  {
    p.ipv4.None? && p.ipv6.None?
  }

  /** The domain loop over the configuration, once both checks have passed. */
  function Pass(c: Config, p: Probe, zones: Listing, records: string -> Listing, upsert: Oracle): (r: Outcome)
    ensures r.Crash? || r.Completed?
    ensures r.Completed? ==> r.updated == AnySucceeded(r.issued, upsert)
    ensures r.Completed? ==> ConfigChange(c, r.config, zones, records, p, r.issued, upsert)
    // every domain gets its own step, whatever the domains before it did
    ensures r.Completed? <==> forall i :: 0 <= i < |c.domains| ==> ReconcileDomain(c.domains[i], zones, records, p, upsert).Done?
    ensures r.Completed? ==> forall i :: 0 <= i < |c.domains| ==>
              r.config.domains[i] == ReconcileDomain(c.domains[i], zones, records, p, upsert).value
    // the requests sent and the updated flag are exactly those of the domain steps
    ensures r.Completed? ==> forall q :: q in r.issued <==>
              exists i :: 0 <= i < |c.domains| && q in ReconcileDomain(c.domains[i], zones, records, p, upsert).issued
    ensures r.Completed? ==> (r.updated <==>
              exists i :: 0 <= i < |c.domains| && ReconcileDomain(c.domains[i], zones, records, p, upsert).Done? &&
                          ReconcileDomain(c.domains[i], zones, records, p, upsert).updated)
    // a crash is the first crashing domain step's, after the requests of the
    // domain steps before it and of the crashing step itself
    ensures r.Crash? ==> exists i :: CrashesAt(DomainSteps(c.domains, zones, records, p, upsert), i, r.kind, r.issued)
  {
    match ReconcileDomains(c.domains, zones, records, p, upsert)
    case Crashed(k, iss) => Crash(k, iss)
    case Done(ds, u, iss) => Completed(c.(domains := ds), u, iss)
  }

  /** The run as the script performs it. */
  function Run(c: Config, p: Probe, zones: Listing, records: string -> Listing, upsert: Oracle): (r: Outcome)
    ensures r == MissingCredentials <==> CredentialsMissing(c.user)
    ensures r == NoAddress <==> !CredentialsMissing(c.user) && p.ipv4.None?
    ensures r.Completed? ==> r.updated == AnySucceeded(r.issued, upsert)
    ensures r.Completed? ==> ConfigChange(c, r.config, zones, records, p, r.issued, upsert)
    ensures !CredentialsMissing(c.user) && p.ipv4.Some? ==> r == Pass(c, p, zones, records, upsert)
  {
    if CredentialsMissing(c.user) then MissingCredentials
    else if NoAddressAsWritten(p) then NoAddress
    else Pass(c, p, zones, records, upsert)
  }

  /** The run with the address test corrected to look at both families. */
  function RunIntended(c: Config, p: Probe, zones: Listing, records: string -> Listing, upsert: Oracle): (r: Outcome)
    ensures r == MissingCredentials <==> CredentialsMissing(c.user)
    ensures r == NoAddress <==> !CredentialsMissing(c.user) && p.ipv4.None? && p.ipv6.None?
    ensures r.Completed? ==> r.updated == AnySucceeded(r.issued, upsert)
    ensures r.Completed? ==> ConfigChange(c, r.config, zones, records, p, r.issued, upsert)
    ensures !CredentialsMissing(c.user) && (p.ipv4.Some? || p.ipv6.Some?) ==> r == Pass(c, p, zones, records, upsert)
  {
    if CredentialsMissing(c.user) then MissingCredentials
    else if NoAddressIntended(p) then NoAddress
    else Pass(c, p, zones, records, upsert)
  }

  /** The configuration written back at the end of a run, if any: one write
      when the pass completed with at least one confirmed update, none
      otherwise. */
  function Persisted(o: Outcome): Option<Config>
  {
    if o.Completed? && o.updated then Some(o.config) else None
  }

  lemma ConfigChangeKeepsShape(c: Config, c': Config, zones: Listing, records: string -> Listing,
                               p: Probe, issued: seq<UpsertRequest>, upsert: Oracle)
    requires ConfigChange(c, c', zones, records, p, issued, upsert)
    ensures SameShape(c, c')
  {
    forall i | 0 <= i < |c.domains|
      ensures SameDomainShape(c.domains[i], c'.domains[i])
    {
      assert DomainChange(c.domains[i], c'.domains[i], zones, records, p, issued, upsert);
    }
  }

  /** The persistence gate: the run writes the configuration exactly when
      the pass completed and the provider confirmed at least one update; the
      configuration written differs from the one read only in ids and
      addresses. Ids filled in by a run whose updates all failed are lost. */
  lemma PersistGate(c: Config, p: Probe, zones: Listing, records: string -> Listing, upsert: Oracle)
    ensures var o := Run(c, p, zones, records, upsert);
            Persisted(o).Some? <==> o.Completed? && AnySucceeded(o.issued, upsert)
    ensures var o := Run(c, p, zones, records, upsert);
            Persisted(o).Some? ==> SameShape(c, Persisted(o).value)
  {
    var o := Run(c, p, zones, records, upsert);
    if o.Completed? {
      ConfigChangeKeepsShape(c, o.config, zones, records, p, o.issued, upsert);
    }
  }

  /** The corrected address test only differs from the written one when the
      IPv4 probe failed: with an IPv4 address both runs are the same run. */
  lemma IntendedAgreesWithIpv4(c: Config, p: Probe, zones: Listing, records: string -> Listing, upsert: Oracle)
    requires p.ipv4.Some?
    ensures RunIntended(c, p, zones, records, upsert) == Run(c, p, zones, records, upsert)
  {
  }
}
