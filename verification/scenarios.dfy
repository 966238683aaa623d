/** Concrete runs: a fresh host, a rejected update, an unchanged address,
    the last-match rule, failure isolation, a crash after an update was sent,
    a null zone id, and the address-test discrepancy. */
module Scenarios {
  import opened Wrappers
  import opened Store
  import opened Provider
  import opened Reconcile
  import opened Script

  const user := User("admin@example.com", "key")
  const www := Host("www", None, ["A"], None, None)
  const example := Domain("example.com", None, [www])
  const zones := Listed([Entry("z1", "example.com")])
  const v4only := Probe(Some("1.2.3.4"), None)
  const request := UpsertRequest(Some("z1"), Some("r1"), "A", "www", "1.2.3.4")

  function Records(zone: string): Listing
  {
    if zone == "z1" then Listed([Entry("r1", "www.example.com")]) else HttpFailure
  }

  /** Provider answers: always `success: true`, always `success: false`,
      always an exception. */
  function Accept(q: UpsertRequest): UpsertOutcome { Succeeded }
  function Reject(q: UpsertRequest): UpsertOutcome { Rejected }
  function Fail(q: UpsertRequest): UpsertOutcome { Failed }

  /** The zone and record listings of the example resolve `www.example.com`
      to zone z1 and record r1. */
  lemma ResolvesExample()
    ensures ResolveId(None, zones.entries, "example.com") == Some("z1")
    ensures ResolveHostId(Some("z1"), "example.com", www, Records) == Success(www.(id := Some("r1")))
  {
    assert Fqdn("www", "example.com") == "www.example.com";
  }

  /** A one-host loop is that host's step. */
  lemma OneHost(zone: Option<string>, domain: string, h: Host, records: string -> Listing, p: Probe, upsert: Oracle)
    ensures var r := ReconcileHost(zone, domain, h, records, p, upsert);
            ReconcileHosts(zone, domain, [h], records, p, upsert)
            == if r.Done? then Done([r.value], r.updated, r.issued) else Crashed(r.kind, r.issued)
  {
    assert [h][1..] == [];
    var e := ReconcileHosts(zone, domain, [], records, p, upsert);
    assert e == Done([], false, []);
    var r := ReconcileHost(zone, domain, h, records, p, upsert);
    assert r.issued + [] == r.issued;
    if r.Done? {
      assert [r.value] + [] == [r.value];
    }
  }

  /** A one-domain loop is that domain's step. */
  lemma OneDomain(d: Domain, zones: Listing, records: string -> Listing, p: Probe, upsert: Oracle)
    ensures var r := ReconcileDomain(d, zones, records, p, upsert);
            ReconcileDomains([d], zones, records, p, upsert)
            == if r.Done? then Done([r.value], r.updated, r.issued) else Crashed(r.kind, r.issued)
  {
    assert [d][1..] == [];
    var e := ReconcileDomains([], zones, records, p, upsert);
    assert e == Done([], false, []);
    var r := ReconcileDomain(d, zones, records, p, upsert);
    assert r.issued + [] == r.issued;
    if r.Done? {
      assert [r.value] + [] == [r.value];
    }
  }

  /** The example pass, given what its single host becomes. */
  lemma ExamplePass(upsert: Oracle, h': Host, u: bool, issued: seq<UpsertRequest>)
    requires ReconcileTypes(Some("z1"), www.(id := Some("r1")), ["A"], v4only, upsert) == Done(h', u, issued)
    ensures Run(Config(user, [example]), v4only, zones, Records, upsert)
            == Completed(Config(user, [Domain("example.com", Some("z1"), [h'])]), u, issued)
  {
    ResolvesExample();
    assert ReconcileHost(Some("z1"), "example.com", www, Records, v4only, upsert) == Done(h', u, issued);
    OneHost(Some("z1"), "example.com", www, Records, v4only, upsert);
    var d' := Domain("example.com", Some("z1"), [h']);
    assert ReconcileDomain(example, zones, Records, v4only, upsert) == Done(d', u, issued);
    OneDomain(example, zones, Records, v4only, upsert);
  }

  /** Ids resolved, one update sent with the host label and the probed
      address, stored address set, configuration written. */
  lemma FreshHostIsCreated()
    ensures var o := Run(Config(user, [example]), v4only, zones, Records, Accept);
            && o == Completed(
                 Config(user, [Domain("example.com", Some("z1"),
                   [Host("www", Some("r1"), ["A"], Some("1.2.3.4"), None)])]),
                 true, [request])
            && Persisted(o) == Some(o.config)
  {
    var h1 := www.(id := Some("r1"));
    var h2 := h1.(ipv4 := Some("1.2.3.4"));
    assert ReconcileType(Some("z1"), h1, "A", v4only, Accept) == Done(h2, true, [request]);
    assert ReconcileTypes(Some("z1"), h1, ["A"], v4only, Accept) == Done(h2, true, [request]);
    ExamplePass(Accept, h2, true, [request]);
  }

  /** The same run with the provider answering `success: false`: the address
      stays null and nothing is written, so the resolved ids are lost too. */
  lemma RejectedUpdateWritesNothing()
    ensures var o := Run(Config(user, [example]), v4only, zones, Records, Reject);
            && o.Completed? && o.issued == [request] && !o.updated
            && o.config.domains[0].hosts[0].ipv4 == None
            && o.config.domains[0].hosts[0].id == Some("r1")
            && Persisted(o) == None
  {
    var h1 := www.(id := Some("r1"));
    assert ReconcileType(Some("z1"), h1, "A", v4only, Reject) == Done(h1, false, [request]);
    assert ReconcileTypes(Some("z1"), h1, ["A"], v4only, Reject) == Done(h1, false, [request]);
    ExamplePass(Reject, h1, false, [request]);
  }

  /** A host already holding the probed address sends nothing. */
  lemma UnchangedAddressSendsNothing()
    ensures var c := Config(user, [Domain("example.com", Some("z1"),
                       [Host("www", Some("r1"), ["A"], Some("1.2.3.4"), None)])]);
            Run(c, v4only, zones, Records, Fail) == Completed(c, false, [])
  {
    var h := Host("www", Some("r1"), ["A"], Some("1.2.3.4"), None);
    var d := Domain("example.com", Some("z1"), [h]);
    assert ReconcileTypes(Some("z1"), h, ["A"], v4only, Fail) == Done(h, false, []);
    OneHost(Some("z1"), "example.com", h, Records, v4only, Fail);
    OneDomain(d, zones, Records, v4only, Fail);
  }

  /** Two zones with the same name: the later row's id is taken. */
  lemma LastZoneMatchWins()
    ensures ResolveId(None, [Entry("z0", "example.com"), Entry("z1", "example.com")], "example.com") == Some("z1")
  {
    var es := [Entry("z0", "example.com"), Entry("z1", "example.com")];
    assert es[1..] == [Entry("z1", "example.com")];
    assert es[1..][1..] == [];
  }

  /** A failed update of one host does not stop the next host's update. */
  lemma FailureIsIsolated()
    ensures var a := Host("a", Some("ra"), ["A"], None, None);
            var b := Host("b", Some("rb"), ["A"], None, None);
            ReconcileHosts(Some("z1"), "example.com", [a, b], Records, v4only, FailFirstHost)
            == Done([a, b.(ipv4 := Some("1.2.3.4"))], true,
                    [UpsertRequest(Some("z1"), Some("ra"), "A", "a", "1.2.3.4"),
                     UpsertRequest(Some("z1"), Some("rb"), "A", "b", "1.2.3.4")])
  {
    var a := Host("a", Some("ra"), ["A"], None, None);
    var b := Host("b", Some("rb"), ["A"], None, None);
    var qa := UpsertRequest(Some("z1"), Some("ra"), "A", "a", "1.2.3.4");
    var qb := UpsertRequest(Some("z1"), Some("rb"), "A", "b", "1.2.3.4");
    assert ReconcileTypes(Some("z1"), a, ["A"], v4only, FailFirstHost) == Done(a, false, [qa]);
    assert ReconcileTypes(Some("z1"), b, ["A"], v4only, FailFirstHost) == Done(b.(ipv4 := Some("1.2.3.4")), true, [qb]);
    var b' := b.(ipv4 := Some("1.2.3.4"));
    assert ReconcileHost(Some("z1"), "example.com", a, Records, v4only, FailFirstHost) == Done(a, false, [qa]);
    assert ReconcileHost(Some("z1"), "example.com", b, Records, v4only, FailFirstHost) == Done(b', true, [qb]);
    assert [a, b][1..] == [b];
    OneHost(Some("z1"), "example.com", b, Records, v4only, FailFirstHost);
    assert [a] + [b'] == [a, b'];
    assert [qa] + [qb] == [qa, qb];
  }

  /** A failing record listing at the second host ends the loop; the update
      the first host already sent stays among the requests of the crash. */
  lemma CrashKeepsSentUpdates()
    ensures var a := Host("a", Some("ra"), ["A"], None, None);
            var b := Host("b", None, ["A"], None, None);
            ReconcileHosts(Some("z2"), "example.com", [a, b], Records, v4only, Accept)
            == Crashed(RecordListingFailed, [UpsertRequest(Some("z2"), Some("ra"), "A", "a", "1.2.3.4")])
  {
    var a := Host("a", Some("ra"), ["A"], None, None);
    var b := Host("b", None, ["A"], None, None);
    var qa := UpsertRequest(Some("z2"), Some("ra"), "A", "a", "1.2.3.4");
    assert ReconcileTypes(Some("z2"), a, ["A"], v4only, Accept) == Done(a.(ipv4 := Some("1.2.3.4")), true, [qa]);
    assert ReconcileHost(Some("z2"), "example.com", a, Records, v4only, Accept)
           == Done(a.(ipv4 := Some("1.2.3.4")), true, [qa]);
    assert ReconcileHost(Some("z2"), "example.com", b, Records, v4only, Accept) == Crashed(RecordListingFailed, []);
    assert [a, b][1..] == [b];
    OneHost(Some("z2"), "example.com", b, Records, v4only, Accept);
    assert [qa] + [] == [qa];
  }

  /** Fails the update of host `a`, confirms every other. */
  function FailFirstHost(q: UpsertRequest): UpsertOutcome
  {
    if q.name == "a" then Failed else Succeeded
  }

  /** A host with a missing record id in a domain whose zone id stayed null
      ends the run before anything is written. */
  lemma NullZoneIdCrashes()
    ensures Run(Config(user, [example]), v4only, Listed([]), Records, Accept) == Crash(NullZoneId, [])
  {
    assert ReconcileHosts(None, "example.com", [www], Records, v4only, Accept) == Crashed(NullZoneId, []);
  }

  /** The pass over one `AAAA` host with only an IPv6 address probed. */
  lemma Ipv6OnlyPass(c: Config, v6only: Probe, q: UpsertRequest)
    requires c == Config(user, [Domain("example.com", Some("z1"), [Host("www", Some("r1"), ["AAAA"], None, None)])])
    requires v6only == Probe(None, Some("2001:db8::1"))
    requires q == UpsertRequest(Some("z1"), Some("r1"), "AAAA", "www", "2001:db8::1")
    ensures Pass(c, v6only, zones, Records, Accept).Completed?
    ensures Pass(c, v6only, zones, Records, Accept).issued == [q]
  {
    var h := c.domains[0].hosts[0];
    var h' := h.(ipv6 := Some("2001:db8::1"));
    var d' := c.domains[0].(hosts := [h']);
    assert ReconcileTypes(Some("z1"), h, ["AAAA"], v6only, Accept) == Done(h', true, [q]);
    assert ReconcileHost(Some("z1"), "example.com", h, Records, v6only, Accept) == Done(h', true, [q]);
    OneHost(Some("z1"), "example.com", h, Records, v6only, Accept);
    assert ReconcileDomain(c.domains[0], zones, Records, v6only, Accept) == Done(d', true, [q]);
    OneDomain(c.domains[0], zones, Records, v6only, Accept);
  }

  /** The address test as written: with no IPv4 but a usable IPv6 address the
      run stops, although an AAAA record is due; the corrected test lets the
      run update it. */
  lemma Ipv6OnlyAborts()
    ensures var c := Config(user, [Domain("example.com", Some("z1"),
                       [Host("www", Some("r1"), ["AAAA"], None, None)])]);
            var v6only := Probe(None, Some("2001:db8::1"));
            && Run(c, v6only, zones, Records, Accept) == NoAddress
            && RunIntended(c, v6only, zones, Records, Accept).Completed?
            && RunIntended(c, v6only, zones, Records, Accept).issued
               == [UpsertRequest(Some("z1"), Some("r1"), "AAAA", "www", "2001:db8::1")]
  {
    var c := Config(user, [Domain("example.com", Some("z1"), [Host("www", Some("r1"), ["AAAA"], None, None)])]);
    var v6only := Probe(None, Some("2001:db8::1"));
    Ipv6OnlyPass(c, v6only, UpsertRequest(Some("z1"), Some("r1"), "AAAA", "www", "2001:db8::1"));
    assert RunIntended(c, v6only, zones, Records, Accept) == Pass(c, v6only, zones, Records, Accept);
  }
}
