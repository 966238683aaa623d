/** The reconciliation pass over domains, hosts and record types. Network
    answers are inputs: the probed addresses, the zone listing, the record
    listing of each zone id, and the provider's answer to each update request. */
module Reconcile {
  import opened Wrappers
  import opened Store
  import opened Provider

  /** The address family a record type selects. */
  datatype Family = V4 | V6

  /** The public addresses the echo service returned, if any. */
  datatype Probe = Probe(ipv4: Option<string>, ipv6: Option<string>)

  /** Uncaught errors that end the script before the configuration is written:
      a zone id still null when a record listing URL is built (a TypeError),
      a record listing that fails, or a zone listing that fails below HTTP. */
  datatype CrashKind = NullZoneId | RecordListingFailed | ZoneListingUnreachable

  /** The state of the pass after a unit: its new value, whether any update was
      confirmed, and the update requests sent so far. A crash keeps the
      requests already sent, since the provider has already acted on them. */
  datatype Progress<T> =
    | Done(value: T, updated: bool, issued: seq<UpsertRequest>)
    | Crashed(kind: CrashKind, issued: seq<UpsertRequest>)

  /** Step `j` of a loop is the first to crash, with kind `kind`, and the
      requests `issued` are exactly those of steps `0` to `j`: the steps
      before the crash and the crashing step itself. */
  ghost predicate CrashesAt<T>(steps: seq<Progress<T>>, j: int, kind: CrashKind, issued: seq<UpsertRequest>)
  {
    && 0 <= j < |steps|
    && steps[j].Crashed? && steps[j].kind == kind
    && (forall k :: 0 <= k < j ==> steps[k].Done?)
    && (forall q :: q in issued <==> exists k :: 0 <= k <= j && q in steps[k].issued)
  }

  /** A loop crashes at its first step, or, when that step completed, where
      the rest of the loop crashes, one step later and with the first step's
      requests in front. */
  lemma CrashesAtCons<T>(head: Progress<T>, tail: seq<Progress<T>>, kind: CrashKind, iss2: seq<UpsertRequest>)
    requires head.Crashed? ==> kind == head.kind
    requires head.Done? ==> exists j :: CrashesAt(tail, j, kind, iss2)
    ensures var iss := if head.Crashed? then head.issued else head.issued + iss2;
            exists j :: CrashesAt([head] + tail, j, kind, iss)
    ensures exists j :: 0 <= j <= |tail| && !([head] + tail)[j].Done?
  {
    var steps := [head] + tail;
    if head.Crashed? {
      assert steps[0] == head;
      assert CrashesAt(steps, 0, kind, head.issued);
    } else {
      var j :| CrashesAt(tail, j, kind, iss2);
      forall k | 1 <= k <= j + 1
        ensures steps[k] == tail[k - 1]
      {
      }
      forall q | q in head.issued + iss2
        ensures exists k :: 0 <= k <= j + 1 && q in steps[k].issued
      {
        if q in head.issued {
          assert steps[0] == head;
        } else {
          var k :| 0 <= k <= j && q in tail[k].issued;
          assert steps[k + 1] == tail[k];
        }
      }
      forall q, k | 0 <= k <= j + 1 && q in steps[k].issued
        ensures q in head.issued + iss2
      {
        if k > 0 {
          assert steps[k] == tail[k - 1];
        }
      }
      assert CrashesAt(steps, j + 1, kind, head.issued + iss2);
    }
  }

  function FamilyOf(t: string): Option<Family>
  {
    if t == "A" then Some(V4) else if t == "AAAA" then Some(V6) else None
  }

  function Probed(p: Probe, f: Family): Option<string>
  {
    match f
    case V4 => p.ipv4
    case V6 => p.ipv6
  }

  /** The probe of family `f` returned a non-empty address. */
  predicate Usable(p: Probe, f: Family)
  {
    Present(Probed(p, f))
  }

  /** The family a record type will be reconciled against, or None when the
      type is unknown or its family has no usable address. */
  function Target(t: string, p: Probe): (r: Option<Family>)
    ensures r.Some? ==> FamilyOf(t) == r && Usable(p, r.value)
    ensures r.None? ==> FamilyOf(t).None? || !Usable(p, FamilyOf(t).value)
  {
    match FamilyOf(t)
    case None => None
    case Some(f) => if Usable(p, f) then Some(f) else None
  }

  /** The address last applied for family `f`. */
  function Stored(h: Host, f: Family): Option<string>
  {
    match f
    case V4 => h.ipv4
    case V6 => h.ipv6
  }

  function WithStored(h: Host, f: Family, addr: string): (h': Host)
    ensures Stored(h', f) == Some(addr)
    ensures forall g :: g != f ==> Stored(h', g) == Stored(h, g)
    ensures SameHostShape(h, h') && h'.id == h.id
  {
    match f
    case V4 => h.(ipv4 := Some(addr))
    case V6 => h.(ipv6 := Some(addr))
  }

  /** An update of host `h` in zone `zone`: addressed to the zone id and the
      host's record id, named by the host label (not the FQDN), carrying the
      probed address of the family its type selects. */
  predicate RequestFor(q: UpsertRequest, zone: Option<string>, h: Host, p: Probe)
  {
    && q.zone == zone
    && q.record == h.id
    && q.name == h.name
    && Target(q.rtype, p).Some?
    && Some(q.content) == Probed(p, Target(q.rtype, p).value)
  }

  /** The provider confirmed an update of family `f` carrying its probed address. */
  predicate Confirmed(issued: seq<UpsertRequest>, f: Family, p: Probe, upsert: Oracle)
  {
    exists q :: q in issued && FamilyOf(q.rtype) == Some(f) && Some(q.content) == Probed(p, f)
                && upsert(q) == Succeeded
  }

  /** Every address field of `h'` that differs from `h` now holds the usable
      probed address of its family, and an update carrying it was confirmed. */
  predicate AddressesMoved(h: Host, h': Host, p: Probe, issued: seq<UpsertRequest>, upsert: Oracle)
  {
    forall f :: Stored(h', f) != Stored(h, f) ==>
      Usable(p, f) && Stored(h', f) == Probed(p, f) && Confirmed(issued, f, p, upsert)
  }

  /** A host's record id changes only when it was missing, and then to the
      id the record listing of its zone gives for its FQDN. */
  predicate HostIdFilled(h: Host, h': Host, zone: Option<string>, domain: string, records: string -> Listing)
  {
    h'.id != h.id ==>
      && !Present(h.id)
      && zone.Some?
      && records(zone.value).Listed?
      && h'.id == ResolveId(h.id, records(zone.value).entries, Fqdn(h.name, domain))
  }

  /** Update `q` is due for `h`: the address stored for the family its type
      selects differs from the one it carries. */
  predicate Due(h: Host, q: UpsertRequest, p: Probe)
  {
    Target(q.rtype, p).Some? && Stored(h, Target(q.rtype, p).value) != Some(q.content)
  }

  /** Some update of record type `t` was sent and not confirmed. */
  predicate Refused(issued: seq<UpsertRequest>, t: string, upsert: Oracle)
  {
    exists q :: q in issued && q.rtype == t && upsert(q) != Succeeded
  }

  /** Every confirmed update is reflected in `h'`: its family holds the
      probed address. */
  predicate ConfirmedStored(h': Host, p: Probe, issued: seq<UpsertRequest>, upsert: Oracle)
  {
    forall f :: Confirmed(issued, f, p, upsert) ==> Stored(h', f) == Probed(p, f)
  }

  /** Every type of `ts` that is reconciled holds its probed address in `h'`,
      unless an update of that type was sent and not confirmed. */
  predicate Reconciled(h': Host, ts: seq<string>, p: Probe, issued: seq<UpsertRequest>, upsert: Oracle)
  {
    forall i :: 0 <= i < |ts| && Target(ts[i], p).Some? ==>
      Stored(h', Target(ts[i], p).value) == Probed(p, Target(ts[i], p).value) || Refused(issued, ts[i], upsert)
  }

  /** Everything the pass may do to one host. */
  predicate HostChange(h: Host, h': Host, zone: Option<string>, domain: string, records: string -> Listing,
                       p: Probe, issued: seq<UpsertRequest>, upsert: Oracle)
  {
    && SameHostShape(h, h')
    && HostIdFilled(h, h', zone, domain, records)
    && AddressesMoved(h, h', p, issued, upsert)
  }

  /** Everything the pass may do to one domain: fill in a missing zone id
      from the zone listing, and change its hosts as HostChange allows, with
      the zone id it ends up with. */
  predicate DomainChange(d: Domain, d': Domain, zones: Listing, records: string -> Listing,
                         p: Probe, issued: seq<UpsertRequest>, upsert: Oracle)
  {
    && d'.name == d.name
    && (d'.id != d.id ==> !Present(d.id) && zones.Listed? && d'.id == ResolveId(d.id, zones.entries, d.name))
    && |d'.hosts| == |d.hosts|
    && forall j :: 0 <= j < |d.hosts| ==>
         HostChange(d.hosts[j], d'.hosts[j], d'.id, d.name, records, p, issued, upsert)
  }

  /** Everything the pass may do to a configuration. */
  predicate ConfigChange(c: Config, c': Config, zones: Listing, records: string -> Listing,
                         p: Probe, issued: seq<UpsertRequest>, upsert: Oracle)
  {
    && c'.user == c.user
    && |c'.domains| == |c.domains|
    && forall i :: 0 <= i < |c.domains| ==>
         DomainChange(c.domains[i], c'.domains[i], zones, records, p, issued, upsert)
  }

  lemma ConfirmedMono(a: seq<UpsertRequest>, b: seq<UpsertRequest>, f: Family, p: Probe, upsert: Oracle)
    requires Confirmed(a, f, p, upsert)
    requires forall q :: q in a ==> q in b
    ensures Confirmed(b, f, p, upsert)
  {
    var q :| q in a && FamilyOf(q.rtype) == Some(f) && Some(q.content) == Probed(p, f) && upsert(q) == Succeeded;
    assert q in b;
  }

  lemma HostChangeMono(h: Host, h': Host, zone: Option<string>, domain: string, records: string -> Listing,
                       p: Probe, a: seq<UpsertRequest>, b: seq<UpsertRequest>, upsert: Oracle)
    requires HostChange(h, h', zone, domain, records, p, a, upsert)
    requires forall q :: q in a ==> q in b
    ensures HostChange(h, h', zone, domain, records, p, b, upsert)
  {
    forall f | Stored(h', f) != Stored(h, f)
      ensures Confirmed(b, f, p, upsert)
    {
      ConfirmedMono(a, b, f, p, upsert);
    }
  }

  lemma DomainChangeMono(d: Domain, d': Domain, zones: Listing, records: string -> Listing,
                         p: Probe, a: seq<UpsertRequest>, b: seq<UpsertRequest>, upsert: Oracle)
    requires DomainChange(d, d', zones, records, p, a, upsert)
    requires forall q :: q in a ==> q in b
    ensures DomainChange(d, d', zones, records, p, b, upsert)
  {
    forall j | 0 <= j < |d.hosts|
      ensures HostChange(d.hosts[j], d'.hosts[j], d'.id, d.name, records, p, b, upsert)
    {
      HostChangeMono(d.hosts[j], d'.hosts[j], d'.id, d.name, records, p, a, b, upsert);
    }
  }

  /** One record type of one host (the body of the innermost loop). */
  function ReconcileType(zone: Option<string>, h: Host, t: string, p: Probe, upsert: Oracle): (r: Progress<Host>)
    ensures r.Done? && SameHostShape(h, r.value) && r.value.id == h.id
    ensures r.updated == AnySucceeded(r.issued, upsert)
    // an unknown type, or a family without a usable address, is skipped
    ensures Target(t, p).None? ==> r == Done(h, false, [])
    ensures Target(t, p).Some? ==>
              var f := Target(t, p).value;
              var addr := Probed(p, f).value;
              // an update is sent exactly when the stored address differs
              && (Stored(h, f) == Some(addr) ==> r == Done(h, false, []))
              && (Stored(h, f) != Some(addr) ==> r.issued == [UpsertRequest(zone, h.id, t, h.name, addr)])
              // and the stored address moves to the probed one only on success
              && r.value == (if r.updated then WithStored(h, f, addr) else h)
  {
    match FamilyOf(t)
    case None => Done(h, false, [])
    case Some(f) =>
      if !Usable(p, f) then Done(h, false, [])
      else
        var addr := Probed(p, f).value;
        if Stored(h, f) == Some(addr) then Done(h, false, [])
        else
          var req := UpsertRequest(zone, h.id, t, h.name, addr);
          assert req in [req];
          if upsert(req) == Succeeded then Done(WithStored(h, f, addr), true, [req])
          else Done(h, false, [req])
  }

  /** All record types of one host, in order. */
  function ReconcileTypes(zone: Option<string>, h: Host, ts: seq<string>, p: Probe, upsert: Oracle): (r: Progress<Host>)
    ensures r.Done? && SameHostShape(h, r.value) && r.value.id == h.id
    ensures r.updated == AnySucceeded(r.issued, upsert)
    ensures AddressesMoved(h, r.value, p, r.issued, upsert)
    ensures forall q :: q in r.issued ==> q.rtype in ts && RequestFor(q, zone, h, p)
    // a confirmed update is always stored, and a stale type always gets an update
    ensures ConfirmedStored(r.value, p, r.issued, upsert)
    ensures Reconciled(r.value, ts, p, r.issued, upsert)
    // no update is sent for a type whose stored address already matches
    ensures forall q :: q in r.issued ==> Due(h, q, p)
    decreases |ts|
  {
    if |ts| == 0 then Done(h, false, [])
    else
      var s := ReconcileType(zone, h, ts[0], p, upsert);
      var rest := ReconcileTypes(zone, s.value, ts[1..], p, upsert);
      TypesStep(zone, h, ts, p, upsert, s, rest);
      Done(rest.value, s.updated || rest.updated, s.issued + rest.issued)
  }

  lemma TypesStep(zone: Option<string>, h: Host, ts: seq<string>, p: Probe, upsert: Oracle,
                  s: Progress<Host>, rest: Progress<Host>)
    requires |ts| > 0 && s == ReconcileType(zone, h, ts[0], p, upsert)
    requires rest.Done? && SameHostShape(s.value, rest.value) && rest.value.id == s.value.id
    requires rest.updated == AnySucceeded(rest.issued, upsert)
    requires AddressesMoved(s.value, rest.value, p, rest.issued, upsert)
    requires forall q :: q in rest.issued ==> q.rtype in ts[1..] && RequestFor(q, zone, s.value, p)
    requires ConfirmedStored(rest.value, p, rest.issued, upsert)
    requires Reconciled(rest.value, ts[1..], p, rest.issued, upsert)
    requires forall q :: q in rest.issued ==> Due(s.value, q, p)
    ensures forall q :: q in s.issued + rest.issued ==> Due(h, q, p)
    ensures s.updated || rest.updated == AnySucceeded(s.issued + rest.issued, upsert)
    ensures AddressesMoved(h, rest.value, p, s.issued + rest.issued, upsert)
    ensures forall q :: q in s.issued + rest.issued ==> q.rtype in ts && RequestFor(q, zone, h, p)
    ensures ConfirmedStored(rest.value, p, s.issued + rest.issued, upsert)
    ensures Reconciled(rest.value, ts, p, s.issued + rest.issued, upsert)
  {
    var all := s.issued + rest.issued;
    forall q | q in all
      ensures Due(h, q, p)
    {
      if q in rest.issued {
        // the step before stores only the probed address, which `q` carries
        var f := Target(q.rtype, p).value;
        assert Stored(s.value, f) == Stored(h, f);
      }
    }
    forall f | Confirmed(all, f, p, upsert)
      ensures Stored(rest.value, f) == Probed(p, f)
    {
      var q :| q in all && FamilyOf(q.rtype) == Some(f) && Some(q.content) == Probed(p, f) && upsert(q) == Succeeded;
      if q in s.issued {
        assert Stored(s.value, f) == Probed(p, f);
      } else {
        assert Confirmed(rest.issued, f, p, upsert);
      }
    }
    forall i | 0 <= i < |ts| && Target(ts[i], p).Some?
      ensures Stored(rest.value, Target(ts[i], p).value) == Probed(p, Target(ts[i], p).value) || Refused(all, ts[i], upsert)
    {
      var f := Target(ts[i], p).value;
      if i == 0 {
        if Stored(s.value, f) != Probed(p, f) {
          var req := s.issued[0];
          assert req in all && req.rtype == ts[0] && upsert(req) != Succeeded;
        }
      } else {
        assert ts[i] == ts[1..][i - 1];
        if !(Stored(rest.value, f) == Probed(p, f)) {
          var q :| q in rest.issued && q.rtype == ts[i] && upsert(q) != Succeeded;
          assert q in all;
        }
      }
    }
    AnySucceededConcat(s.issued, rest.issued, upsert);
    forall f | Stored(rest.value, f) != Stored(h, f)
      ensures Usable(p, f) && Stored(rest.value, f) == Probed(p, f) && Confirmed(all, f, p, upsert)
    {
      if Stored(s.value, f) != Stored(h, f) {
        var req := s.issued[0];
        assert req in all;
        assert FamilyOf(req.rtype) == Some(f);
      } else {
        ConfirmedMono(rest.issued, all, f, p, upsert);
      }
    }
  }

  /** Fills in a host's missing record id from the record listing of its
      zone. The listing is only fetched when the id is missing; building its
      URL from a null zone id, or a failing listing, ends the script. */
  function ResolveHostId(zone: Option<string>, domain: string, h: Host, records: string -> Listing): (r: Result<Host, CrashKind>)
    ensures Present(h.id) ==> r == Success(h)
    ensures r.Failure? <==> !Present(h.id) && (zone.None? || !records(zone.value).Listed?)
    ensures r.Failure? && zone.None? ==> r.error == NullZoneId
    ensures r.Failure? && zone.Some? ==> r.error == RecordListingFailed
    ensures r.Success? ==> r.value == h.(id := r.value.id) && HostIdFilled(h, r.value, zone, domain, records)
    ensures r.Success? && !Present(h.id) ==>
              r.value.id == ResolveId(h.id, records(zone.value).entries, Fqdn(h.name, domain))
  {
    if Present(h.id) then Success(h)
    else if zone.None? then Failure(NullZoneId)
    else match records(zone.value)
      case Listed(entries) => Success(h.(id := ResolveId(h.id, entries, Fqdn(h.name, domain))))
      case _ => Failure(RecordListingFailed)
  }

  /** One host (the body of the host loop). A host without a label is skipped. */
  function ReconcileHost(zone: Option<string>, domain: string, h: Host, records: string -> Listing,
                         p: Probe, upsert: Oracle): (r: Progress<Host>)
    ensures h.name == "" ==> r == Done(h, false, [])
    ensures r.Crashed? <==> h.name != "" && ResolveHostId(zone, domain, h, records).Failure?
    ensures r.Crashed? ==> r.issued == [] && r.kind == ResolveHostId(zone, domain, h, records).error
    ensures r.Done? ==> r.updated == AnySucceeded(r.issued, upsert)
    ensures r.Done? ==> HostChange(h, r.value, zone, domain, records, p, r.issued, upsert)
    ensures r.Done? ==> ConfirmedStored(r.value, p, r.issued, upsert)
    ensures r.Done? && h.name != "" ==> Reconciled(r.value, h.types, p, r.issued, upsert)
    // a missing record id is replaced by the lookup result, and the updates
    // are addressed to the record id the host then has
    ensures r.Done? && h.name != "" ==> r.value.id == ResolveHostId(zone, domain, h, records).value.id
    ensures r.Done? ==> forall q :: q in r.issued ==> q.rtype in h.types && RequestFor(q, zone, r.value, p) && Due(h, q, p)
  {
    if h.name == "" then Done(h, false, [])
    else match ResolveHostId(zone, domain, h, records)
      case Failure(k) => Crashed(k, [])
      case Success(h1) => ReconcileTypes(zone, h1, h1.types, p, upsert)
  }

  /** The host step of each host, taken on its own. */
  function HostSteps(zone: Option<string>, domain: string, hs: seq<Host>, records: string -> Listing,
                     p: Probe, upsert: Oracle): (r: seq<Progress<Host>>)
    ensures |r| == |hs|
    ensures forall j :: 0 <= j < |hs| ==> r[j] == ReconcileHost(zone, domain, hs[j], records, p, upsert)
    decreases |hs|
  {
    if |hs| == 0 then []
    else [ReconcileHost(zone, domain, hs[0], records, p, upsert)] + HostSteps(zone, domain, hs[1..], records, p, upsert)
  }

  /** All hosts of one domain, in order; the first crash ends the loop. */
  function ReconcileHosts(zone: Option<string>, domain: string, hs: seq<Host>, records: string -> Listing,
                          p: Probe, upsert: Oracle): (r: Progress<seq<Host>>)
    ensures r.Done? ==> r.updated == AnySucceeded(r.issued, upsert)
    ensures r.Done? ==> |r.value| == |hs|
    ensures r.Done? ==>
              forall j :: 0 <= j < |hs| ==> HostChange(hs[j], r.value[j], zone, domain, records, p, r.issued, upsert)
    // each host gets its own step, whatever the hosts before it did, and only
    // a crash stops the loop
    ensures r.Done? <==> forall j :: 0 <= j < |hs| ==> ReconcileHost(zone, domain, hs[j], records, p, upsert).Done?
    ensures r.Done? ==>
              forall j :: 0 <= j < |hs| ==> r.value[j] == ReconcileHost(zone, domain, hs[j], records, p, upsert).value
    // the requests sent are exactly those of the host steps, and `updated`
    // holds iff some host step confirmed an update
    ensures r.Done? ==> forall q :: q in r.issued <==>
              exists j :: 0 <= j < |hs| && q in ReconcileHost(zone, domain, hs[j], records, p, upsert).issued
    ensures r.Done? ==> (r.updated <==>
              exists j :: 0 <= j < |hs| && ReconcileHost(zone, domain, hs[j], records, p, upsert).Done? &&
                          ReconcileHost(zone, domain, hs[j], records, p, upsert).updated)
    // a crash is the first crashing host step's, with the requests of the
    // host steps up to it (a crashing host step itself sends nothing)
    ensures r.Crashed? ==> exists j :: CrashesAt(HostSteps(zone, domain, hs, records, p, upsert), j, r.kind, r.issued)
    decreases |hs|
  {
    if |hs| == 0 then Done([], false, [])
    else match ReconcileHost(zone, domain, hs[0], records, p, upsert)
      case Crashed(k, iss) =>
        HostsCrash(zone, domain, hs, records, p, upsert, k, []);
        Crashed(k, iss)
      case Done(h', u, iss) =>
        match ReconcileHosts(zone, domain, hs[1..], records, p, upsert)
        case Crashed(k, iss2) =>
          HostsCrash(zone, domain, hs, records, p, upsert, k, iss2);
          Crashed(k, iss + iss2)
        case Done(hs', u2, iss2) =>
          HostsStep(zone, domain, hs, records, p, upsert, h', u, iss, hs', u2, iss2);
          StepsValues(hs, h => ReconcileHost(zone, domain, h, records, p, upsert), h', hs');
          StepsIssued(hs, h => ReconcileHost(zone, domain, h, records, p, upsert), iss, iss2);
          StepsUpdated(hs, h => ReconcileHost(zone, domain, h, records, p, upsert), u, u2);
          Done([h'] + hs', u || u2, iss + iss2)
  }

  lemma HostsStep(zone: Option<string>, domain: string, hs: seq<Host>, records: string -> Listing,
                  p: Probe, upsert: Oracle,
                  h': Host, u: bool, iss: seq<UpsertRequest>, hs': seq<Host>, u2: bool, iss2: seq<UpsertRequest>)
    requires |hs| > 0
    requires u == AnySucceeded(iss, upsert) && HostChange(hs[0], h', zone, domain, records, p, iss, upsert)
    requires u2 == AnySucceeded(iss2, upsert) && |hs'| == |hs| - 1
    requires forall j :: 0 <= j < |hs'| ==> HostChange(hs[1..][j], hs'[j], zone, domain, records, p, iss2, upsert)
    ensures u || u2 == AnySucceeded(iss + iss2, upsert)
    ensures forall j :: 0 <= j < |hs| ==>
              HostChange(hs[j], ([h'] + hs')[j], zone, domain, records, p, iss + iss2, upsert)
  {
    AnySucceededConcat(iss, iss2, upsert);
    HostChangeMono(hs[0], h', zone, domain, records, p, iss, iss + iss2, upsert);
    forall j | 1 <= j < |hs|
      ensures HostChange(hs[j], ([h'] + hs')[j], zone, domain, records, p, iss + iss2, upsert)
    {
      assert hs[j] == hs[1..][j - 1];
      assert ([h'] + hs')[j] == hs'[j - 1];
      HostChangeMono(hs[j], hs'[j - 1], zone, domain, records, p, iss2, iss + iss2, upsert);
    }
  }

  /** A crash of the hosts loop: at the first host, or where the rest of the
      loop crashes. */
  lemma HostsCrash(zone: Option<string>, domain: string, hs: seq<Host>, records: string -> Listing,
                   p: Probe, upsert: Oracle, kind: CrashKind, iss2: seq<UpsertRequest>)
    requires |hs| > 0
    requires var r0 := ReconcileHost(zone, domain, hs[0], records, p, upsert);
             r0.Crashed? ==> kind == r0.kind
    requires var r0 := ReconcileHost(zone, domain, hs[0], records, p, upsert);
             r0.Done? ==> exists j :: CrashesAt(HostSteps(zone, domain, hs[1..], records, p, upsert), j, kind, iss2)
    ensures var r0 := ReconcileHost(zone, domain, hs[0], records, p, upsert);
            var iss := if r0.Crashed? then r0.issued else r0.issued + iss2;
            exists j :: CrashesAt(HostSteps(zone, domain, hs, records, p, upsert), j, kind, iss)
    ensures !forall j :: 0 <= j < |hs| ==> ReconcileHost(zone, domain, hs[j], records, p, upsert).Done?
  {
    var r0 := ReconcileHost(zone, domain, hs[0], records, p, upsert);
    var steps := HostSteps(zone, domain, hs, records, p, upsert);
    assert steps == [r0] + HostSteps(zone, domain, hs[1..], records, p, upsert);
    CrashesAtCons(r0, HostSteps(zone, domain, hs[1..], records, p, upsert), kind, iss2);
    var j :| 0 <= j < |steps| && !steps[j].Done?;
    assert steps[j] == ReconcileHost(zone, domain, hs[j], records, p, upsert);
  }

  /** The hosts of a domain whose zone id lookup is over. */
  function ReconcileZone(d: Domain, records: string -> Listing, p: Probe, upsert: Oracle): (r: Progress<Domain>)
    ensures r.Done? ==> r.updated == AnySucceeded(r.issued, upsert)
    ensures r.Done? ==> r.value.name == d.name && r.value.id == d.id && |r.value.hosts| == |d.hosts|
    ensures r.Done? ==> forall j :: 0 <= j < |d.hosts| ==>
              HostChange(d.hosts[j], r.value.hosts[j], d.id, d.name, records, p, r.issued, upsert)
    ensures r.Done? <==> forall j :: 0 <= j < |d.hosts| ==> ReconcileHost(d.id, d.name, d.hosts[j], records, p, upsert).Done?
    ensures r.Done? ==> forall j :: 0 <= j < |d.hosts| ==>
              r.value.hosts[j] == ReconcileHost(d.id, d.name, d.hosts[j], records, p, upsert).value
    ensures r.Done? ==> forall q :: q in r.issued <==>
              exists j :: 0 <= j < |d.hosts| && q in ReconcileHost(d.id, d.name, d.hosts[j], records, p, upsert).issued
    ensures r.Done? ==> (r.updated <==>
              exists j :: 0 <= j < |d.hosts| && ReconcileHost(d.id, d.name, d.hosts[j], records, p, upsert).Done? &&
                          ReconcileHost(d.id, d.name, d.hosts[j], records, p, upsert).updated)
    ensures r.Crashed? ==> exists j :: CrashesAt(HostSteps(d.id, d.name, d.hosts, records, p, upsert), j, r.kind, r.issued)
  {
    match ReconcileHosts(d.id, d.name, d.hosts, records, p, upsert)
    case Crashed(k, iss) => Crashed(k, iss)
    case Done(hs, u, iss) => Done(d.(hosts := hs), u, iss)
  }

  /** The zone id a domain's hosts are processed with: the stored one, or the
      one looked up in the zone listing when it was missing. */
  function ZoneLookup(d: Domain, zones: Listing): Option<string>
  {
    if d.name != "" && !Present(d.id) && zones.Listed? then ResolveId(d.id, zones.entries, d.name) else d.id
  }

  /** One domain (the body of the domain loop). A domain without a name is
      skipped; a missing zone id is looked up in the zone listing first, and
      an HTTP error there skips the domain untouched. */
  function ReconcileDomain(d: Domain, zones: Listing, records: string -> Listing,
                           p: Probe, upsert: Oracle): (r: Progress<Domain>)
    ensures d.name == "" ==> r == Done(d, false, [])
    ensures d.name != "" && !Present(d.id) && zones.HttpFailure? ==> r == Done(d, false, [])
    ensures d.name != "" && !Present(d.id) && zones.ConnectionFailure? ==> r == Crashed(ZoneListingUnreachable, [])
    ensures r.Done? && d.name != "" && !Present(d.id) && zones.Listed? ==>
              r.value.id == ResolveId(d.id, zones.entries, d.name)
    ensures r.Done? ==> r.updated == AnySucceeded(r.issued, upsert)
    ensures r.Done? ==> DomainChange(d, r.value, zones, records, p, r.issued, upsert)
    ensures r.Done? ==> r.value.id == ZoneLookup(d, zones)
    // a domain that is not skipped processes every host with the zone id it ends up with
    ensures d.name != "" && (Present(d.id) || zones.Listed?) ==>
              (r.Done? <==> forall j :: 0 <= j < |d.hosts| ==>
                 ReconcileHost(ZoneLookup(d, zones), d.name, d.hosts[j], records, p, upsert).Done?)
    ensures d.name != "" && (Present(d.id) || zones.Listed?) && r.Done? ==>
              forall j :: 0 <= j < |d.hosts| ==>
                r.value.hosts[j] == ReconcileHost(ZoneLookup(d, zones), d.name, d.hosts[j], records, p, upsert).value
    ensures d.name != "" && (Present(d.id) || zones.Listed?) && r.Done? ==>
              forall q :: q in r.issued <==>
                exists j :: 0 <= j < |d.hosts| &&
                            q in ReconcileHost(ZoneLookup(d, zones), d.name, d.hosts[j], records, p, upsert).issued
    ensures d.name != "" && (Present(d.id) || zones.Listed?) && r.Done? ==>
              (r.updated <==>
                exists j :: 0 <= j < |d.hosts| &&
                            ReconcileHost(ZoneLookup(d, zones), d.name, d.hosts[j], records, p, upsert).Done? &&
                            ReconcileHost(ZoneLookup(d, zones), d.name, d.hosts[j], records, p, upsert).updated)
    ensures d.name != "" && (Present(d.id) || zones.Listed?) && r.Crashed? ==>
              exists j :: CrashesAt(HostSteps(ZoneLookup(d, zones), d.name, d.hosts, records, p, upsert), j, r.kind, r.issued)
  {
    if d.name == "" then Done(d, false, [])
    else if Present(d.id) then ReconcileZone(d, records, p, upsert)
    else match zones
      case HttpFailure => Done(d, false, [])
      case ConnectionFailure => Crashed(ZoneListingUnreachable, [])
      case Listed(entries) => ReconcileZone(d.(id := ResolveId(d.id, entries, d.name)), records, p, upsert)
  }

  /** The domain step of each domain, taken on its own. */
  function DomainSteps(ds: seq<Domain>, zones: Listing, records: string -> Listing,
                       p: Probe, upsert: Oracle): (r: seq<Progress<Domain>>)
    ensures |r| == |ds|
    ensures forall i :: 0 <= i < |ds| ==> r[i] == ReconcileDomain(ds[i], zones, records, p, upsert)
    decreases |ds|
  {
    if |ds| == 0 then []
    else [ReconcileDomain(ds[0], zones, records, p, upsert)] + DomainSteps(ds[1..], zones, records, p, upsert)
  }

  /** All domains, in order; the first crash ends the pass. */
  function ReconcileDomains(ds: seq<Domain>, zones: Listing, records: string -> Listing,
                            p: Probe, upsert: Oracle): (r: Progress<seq<Domain>>)
    ensures r.Done? ==> r.updated == AnySucceeded(r.issued, upsert)
    ensures r.Done? ==> |r.value| == |ds|
    ensures r.Done? ==>
              forall i :: 0 <= i < |ds| ==> DomainChange(ds[i], r.value[i], zones, records, p, r.issued, upsert)
    // each domain gets its own step, whatever the domains before it did, and
    // only a crash stops the loop
    ensures r.Done? <==> forall i :: 0 <= i < |ds| ==> ReconcileDomain(ds[i], zones, records, p, upsert).Done?
    ensures r.Done? ==>
              forall i :: 0 <= i < |ds| ==> r.value[i] == ReconcileDomain(ds[i], zones, records, p, upsert).value
    // the requests and the updated flag are exactly those of the domain steps
    ensures r.Done? ==> forall q :: q in r.issued <==>
              exists i :: 0 <= i < |ds| && q in ReconcileDomain(ds[i], zones, records, p, upsert).issued
    ensures r.Done? ==> (r.updated <==>
              exists i :: 0 <= i < |ds| && ReconcileDomain(ds[i], zones, records, p, upsert).Done? &&
                          ReconcileDomain(ds[i], zones, records, p, upsert).updated)
    // a crash is the first crashing domain step's, after the requests of the
    // domain steps before it and of the crashing step itself
    ensures r.Crashed? ==> exists i :: CrashesAt(DomainSteps(ds, zones, records, p, upsert), i, r.kind, r.issued)
    decreases |ds|
  {
    if |ds| == 0 then Done([], false, [])
    else match ReconcileDomain(ds[0], zones, records, p, upsert)
      case Crashed(k, iss) =>
        DomainsCrash(ds, zones, records, p, upsert, k, []);
        Crashed(k, iss)
      case Done(d', u, iss) =>
        match ReconcileDomains(ds[1..], zones, records, p, upsert)
        case Crashed(k, iss2) =>
          DomainsCrash(ds, zones, records, p, upsert, k, iss2);
          Crashed(k, iss + iss2)
        case Done(ds', u2, iss2) =>
          DomainsStep(ds, zones, records, p, upsert, d', u, iss, ds', u2, iss2);
          StepsValues(ds, d => ReconcileDomain(d, zones, records, p, upsert), d', ds');
          StepsIssued(ds, d => ReconcileDomain(d, zones, records, p, upsert), iss, iss2);
          StepsUpdated(ds, d => ReconcileDomain(d, zones, records, p, upsert), u, u2);
          Done([d'] + ds', u || u2, iss + iss2)
  }

  /** A crash of the domain loop: at the first domain, or where the rest of
      the loop crashes. */
  lemma DomainsCrash(ds: seq<Domain>, zones: Listing, records: string -> Listing, p: Probe, upsert: Oracle,
                     kind: CrashKind, iss2: seq<UpsertRequest>)
    requires |ds| > 0
    requires var r0 := ReconcileDomain(ds[0], zones, records, p, upsert);
             r0.Crashed? ==> kind == r0.kind
    requires var r0 := ReconcileDomain(ds[0], zones, records, p, upsert);
             r0.Done? ==> exists i :: CrashesAt(DomainSteps(ds[1..], zones, records, p, upsert), i, kind, iss2)
    ensures var r0 := ReconcileDomain(ds[0], zones, records, p, upsert);
            var iss := if r0.Crashed? then r0.issued else r0.issued + iss2;
            exists i :: CrashesAt(DomainSteps(ds, zones, records, p, upsert), i, kind, iss)
    ensures !forall i :: 0 <= i < |ds| ==> ReconcileDomain(ds[i], zones, records, p, upsert).Done?
  {
    var r0 := ReconcileDomain(ds[0], zones, records, p, upsert);
    var steps := DomainSteps(ds, zones, records, p, upsert);
    assert steps == [r0] + DomainSteps(ds[1..], zones, records, p, upsert);
    CrashesAtCons(r0, DomainSteps(ds[1..], zones, records, p, upsert), kind, iss2);
    var i :| 0 <= i < |steps| && !steps[i].Done?;
    assert steps[i] == ReconcileDomain(ds[i], zones, records, p, upsert);
  }

  lemma DomainsStep(ds: seq<Domain>, zones: Listing, records: string -> Listing, p: Probe, upsert: Oracle,
                    d': Domain, u: bool, iss: seq<UpsertRequest>, ds': seq<Domain>, u2: bool, iss2: seq<UpsertRequest>)
    requires |ds| > 0
    requires u == AnySucceeded(iss, upsert) && DomainChange(ds[0], d', zones, records, p, iss, upsert)
    requires u2 == AnySucceeded(iss2, upsert) && |ds'| == |ds| - 1
    requires forall i :: 0 <= i < |ds'| ==> DomainChange(ds[1..][i], ds'[i], zones, records, p, iss2, upsert)
    ensures u || u2 == AnySucceeded(iss + iss2, upsert)
    ensures forall i :: 0 <= i < |ds| ==>
              DomainChange(ds[i], ([d'] + ds')[i], zones, records, p, iss + iss2, upsert)
  {
    AnySucceededConcat(iss, iss2, upsert);
    DomainChangeMono(ds[0], d', zones, records, p, iss, iss + iss2, upsert);
    forall i | 1 <= i < |ds|
      ensures DomainChange(ds[i], ([d'] + ds')[i], zones, records, p, iss + iss2, upsert)
    {
      assert ds[i] == ds[1..][i - 1];
      assert ([d'] + ds')[i] == ds'[i - 1];
      DomainChangeMono(ds[i], ds'[i - 1], zones, records, p, iss2, iss + iss2, upsert);
    }
  }

  /** The requests of a loop whose first element took the step `step`,
      element by element. */
  lemma StepsIssued<X, T>(xs: seq<X>, step: X -> Progress<T>, iss: seq<UpsertRequest>, iss2: seq<UpsertRequest>)
    requires |xs| > 0
    requires step(xs[0]).issued == iss
    requires forall q :: q in iss2 <==> exists i :: 0 <= i < |xs| - 1 && q in step(xs[1..][i]).issued
    ensures forall q :: q in iss + iss2 <==> exists i :: 0 <= i < |xs| && q in step(xs[i]).issued
  {
    forall q | q in iss + iss2
      ensures exists i :: 0 <= i < |xs| && q in step(xs[i]).issued
    {
      if q !in iss {
        var i :| 0 <= i < |xs| - 1 && q in step(xs[1..][i]).issued;
        assert xs[1..][i] == xs[i + 1];
      }
    }
    forall q, i | 0 <= i < |xs| && q in step(xs[i]).issued
      ensures q in iss + iss2
    {
      if i > 0 {
        assert xs[1..][i - 1] == xs[i];
      }
    }
  }

  /** The values of a loop whose every element took the step `step`. */
  lemma StepsValues<X, T>(xs: seq<X>, step: X -> Progress<T>, v: T, vs: seq<T>)
    requires |xs| > 0 && |vs| == |xs| - 1
    requires step(xs[0]).Done? && step(xs[0]).value == v
    requires forall i :: 0 <= i < |vs| ==> step(xs[1..][i]).Done? && vs[i] == step(xs[1..][i]).value
    ensures forall i :: 0 <= i < |xs| ==> step(xs[i]).Done? && ([v] + vs)[i] == step(xs[i]).value
  {
    forall i | 1 <= i < |xs|
      ensures step(xs[i]).Done? && ([v] + vs)[i] == step(xs[i]).value
    {
      assert xs[1..][i - 1] == xs[i];
    }
  }

  /** The updated flag of a loop whose first element took the step `step`,
      element by element. */
  lemma StepsUpdated<X, T>(xs: seq<X>, step: X -> Progress<T>, u: bool, u2: bool)
    requires |xs| > 0
    requires step(xs[0]).Done? && step(xs[0]).updated == u
    requires u2 <==> exists i :: 0 <= i < |xs| - 1 && step(xs[1..][i]).Done? && step(xs[1..][i]).updated
    ensures u || u2 <==> exists i :: 0 <= i < |xs| && step(xs[i]).Done? && step(xs[i]).updated
  {
    if u2 {
      var i :| 0 <= i < |xs| - 1 && step(xs[1..][i]).Done? && step(xs[1..][i]).updated;
      assert xs[1..][i] == xs[i + 1];
    }
    forall i | 1 <= i < |xs| && step(xs[i]).Done? && step(xs[i]).updated
      ensures u2
    {
      assert xs[1..][i - 1] == xs[i];
    }
  }

}
