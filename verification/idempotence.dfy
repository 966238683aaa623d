/** A second run with the same probed addresses and the same provider, after
    a run whose updates were all confirmed, sends no update, changes nothing
    and writes nothing. */
module Idempotence {
  import opened Wrappers
  import opened Store
  import opened Provider
  import opened Reconcile
  import opened Script

  /** Every type in `ts` that would be reconciled already holds its probed
      address in `h`. */
  predicate Settled(h: Host, ts: seq<string>, p: Probe)
  {
    forall i :: 0 <= i < |ts| && Target(ts[i], p).Some? ==>
      Stored(h, Target(ts[i], p).value) == Probed(p, Target(ts[i], p).value)
  }

  /** A settled host is left alone: no type sends an update. */
  lemma {:induction false} TypesFixpoint(zone: Option<string>, h: Host, ts: seq<string>, p: Probe, upsert: Oracle)
    requires Settled(h, ts, p)
    ensures ReconcileTypes(zone, h, ts, p, upsert) == Done(h, false, [])
    decreases |ts|
  {
    if |ts| > 0 {
      assert ReconcileType(zone, h, ts[0], p, upsert) == Done(h, false, []) by {
        assert 0 < |ts|;
      }
      assert Settled(h, ts[1..], p) by {
        forall i | 0 <= i < |ts[1..]| && Target(ts[1..][i], p).Some?
          ensures Stored(h, Target(ts[1..][i], p).value) == Probed(p, Target(ts[1..][i], p).value)
        {
          assert ts[1..][i] == ts[i + 1];
        }
      }
      TypesFixpoint(zone, h, ts[1..], p, upsert);
    }
  }

  /** When every update the types loop sent was confirmed, the host it leaves
      behind is settled. */
  lemma {:induction false} TypesSettle(zone: Option<string>, h: Host, ts: seq<string>, p: Probe, upsert: Oracle)
    requires AllSucceeded(ReconcileTypes(zone, h, ts, p, upsert).issued, upsert)
    ensures Settled(ReconcileTypes(zone, h, ts, p, upsert).value, ts, p)
    decreases |ts|
  {
    if |ts| > 0 {
      var s := ReconcileType(zone, h, ts[0], p, upsert);
      var rest := ReconcileTypes(zone, s.value, ts[1..], p, upsert);
      var r := ReconcileTypes(zone, h, ts, p, upsert);
      assert r.value == rest.value && r.issued == s.issued + rest.issued;
      TypesSettle(zone, s.value, ts[1..], p, upsert);
      forall i | 0 <= i < |ts| && Target(ts[i], p).Some?
        ensures Stored(r.value, Target(ts[i], p).value) == Probed(p, Target(ts[i], p).value)
      {
        if i == 0 {
          var f := Target(ts[0], p).value;
          if Stored(h, f) != Probed(p, f) {
            assert s.issued[0] in r.issued;
          }
          assert Stored(s.value, f) == Probed(p, f);
        } else {
          assert ts[i] == ts[1..][i - 1];
        }
      }
    }
  }

  /** Repeating one host after a fully confirmed pass over it changes nothing. */
  lemma HostFixpoint(zone: Option<string>, domain: string, h: Host, records: string -> Listing,
                     p: Probe, upsert: Oracle)
    requires ReconcileHost(zone, domain, h, records, p, upsert).Done?
    requires AllSucceeded(ReconcileHost(zone, domain, h, records, p, upsert).issued, upsert)
    ensures var h' := ReconcileHost(zone, domain, h, records, p, upsert).value;
            ReconcileHost(zone, domain, h', records, p, upsert) == Done(h', false, [])
  {
    if h.name != "" {
      var h1 := ResolveHostId(zone, domain, h, records).value;
      var h' := ReconcileTypes(zone, h1, h1.types, p, upsert).value;
      if !Present(h1.id) {
        ResolveIdIdempotent(h.id, records(zone.value).entries, Fqdn(h.name, domain));
      }
      assert ResolveHostId(zone, domain, h', records) == Success(h');
      TypesSettle(zone, h1, h1.types, p, upsert);
      TypesFixpoint(zone, h', h'.types, p, upsert);
    }
  }

  lemma {:induction false} HostsFixpoint(zone: Option<string>, domain: string, hs: seq<Host>,
                                         records: string -> Listing, p: Probe, upsert: Oracle)
    requires ReconcileHosts(zone, domain, hs, records, p, upsert).Done?
    requires AllSucceeded(ReconcileHosts(zone, domain, hs, records, p, upsert).issued, upsert)
    ensures var hs' := ReconcileHosts(zone, domain, hs, records, p, upsert).value;
            ReconcileHosts(zone, domain, hs', records, p, upsert) == Done(hs', false, [])
    decreases |hs|
  {
    if |hs| > 0 {
      var first := ReconcileHost(zone, domain, hs[0], records, p, upsert);
      var rest := ReconcileHosts(zone, domain, hs[1..], records, p, upsert);
      var hs' := ReconcileHosts(zone, domain, hs, records, p, upsert).value;
      HostFixpoint(zone, domain, hs[0], records, p, upsert);
      HostsFixpoint(zone, domain, hs[1..], records, p, upsert);
      assert hs' == [first.value] + rest.value;
      assert hs'[1..] == rest.value;
    }
  }

  lemma ZoneFixpoint(d: Domain, records: string -> Listing, p: Probe, upsert: Oracle)
    requires ReconcileZone(d, records, p, upsert).Done?
    requires AllSucceeded(ReconcileZone(d, records, p, upsert).issued, upsert)
    ensures var d' := ReconcileZone(d, records, p, upsert).value;
            ReconcileZone(d', records, p, upsert) == Done(d', false, [])
  {
    HostsFixpoint(d.id, d.name, d.hosts, records, p, upsert);
  }

  lemma DomainFixpoint(d: Domain, zones: Listing, records: string -> Listing, p: Probe, upsert: Oracle)
    requires ReconcileDomain(d, zones, records, p, upsert).Done?
    requires AllSucceeded(ReconcileDomain(d, zones, records, p, upsert).issued, upsert)
    ensures var d' := ReconcileDomain(d, zones, records, p, upsert).value;
            ReconcileDomain(d', zones, records, p, upsert) == Done(d', false, [])
  {
    if d.name != "" {
      if Present(d.id) {
        ZoneFixpoint(d, records, p, upsert);
      } else if zones.Listed? {
        var d1 := d.(id := ResolveId(d.id, zones.entries, d.name));
        ZoneFixpoint(d1, records, p, upsert);
        ResolveIdIdempotent(d.id, zones.entries, d.name);
      }
    }
  }

  lemma {:induction false} DomainsFixpoint(ds: seq<Domain>, zones: Listing, records: string -> Listing,
                                           p: Probe, upsert: Oracle)
    requires ReconcileDomains(ds, zones, records, p, upsert).Done?
    requires AllSucceeded(ReconcileDomains(ds, zones, records, p, upsert).issued, upsert)
    ensures var ds' := ReconcileDomains(ds, zones, records, p, upsert).value;
            ReconcileDomains(ds', zones, records, p, upsert) == Done(ds', false, [])
    decreases |ds|
  {
    if |ds| > 0 {
      var first := ReconcileDomain(ds[0], zones, records, p, upsert);
      var rest := ReconcileDomains(ds[1..], zones, records, p, upsert);
      var ds' := ReconcileDomains(ds, zones, records, p, upsert).value;
      DomainFixpoint(ds[0], zones, records, p, upsert);
      DomainsFixpoint(ds[1..], zones, records, p, upsert);
      assert ds' == [first.value] + rest.value;
      assert ds'[1..] == rest.value;
    }
  }

  /** Idempotence of a run: after a run that completed with every update
      confirmed, a run over the configuration it produced, with the same
      probed addresses and provider, sends no update, reports nothing
      updated, and so writes nothing. */
  lemma RunIdempotent(c: Config, p: Probe, zones: Listing, records: string -> Listing, upsert: Oracle)
    requires Run(c, p, zones, records, upsert).Completed?
    requires AllSucceeded(Run(c, p, zones, records, upsert).issued, upsert)
    ensures var c' := Run(c, p, zones, records, upsert).config;
            && Run(c', p, zones, records, upsert) == Completed(c', false, [])
            && Persisted(Run(c', p, zones, records, upsert)) == None
  {
    DomainsFixpoint(c.domains, zones, records, p, upsert);
  }

  /** The same for two consecutive runs of the script: the second reads what
      the first wrote, or the old configuration when the first wrote nothing
      (then it sent nothing either). It sends no update and writes nothing. */
  lemma ConsecutiveRunsIdempotent(c: Config, p: Probe, zones: Listing, records: string -> Listing, upsert: Oracle)
    requires Run(c, p, zones, records, upsert).Completed?
    requires AllSucceeded(Run(c, p, zones, records, upsert).issued, upsert)
    ensures var o := Run(c, p, zones, records, upsert);
            var next := if Persisted(o).Some? then Persisted(o).value else c;
            var o2 := Run(next, p, zones, records, upsert);
            o2.Completed? && o2.issued == [] && !o2.updated && Persisted(o2) == None
  {
    var o := Run(c, p, zones, records, upsert);
    RunIdempotent(c, p, zones, records, upsert);
    if o.issued != [] {
      // a confirmed update was sent, so the first run wrote its result
      assert o.issued[0] in o.issued;
    }
  }

  /** A host whose stored addresses already match the probe for all its
      requested types sends no update, whatever the provider would answer. */
  lemma SettledHostSendsNothing(zone: Option<string>, domain: string, h: Host, records: string -> Listing,
                                p: Probe, upsert: Oracle)
    requires Present(h.id)
    requires Settled(h, h.types, p)
    ensures ReconcileHost(zone, domain, h, records, p, upsert) == Done(h, false, [])
  {
    if h.name != "" {
      TypesFixpoint(zone, h, h.types, p, upsert);
    }
  }
}
