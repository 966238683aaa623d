# cf-ddns reconciliation, modelled in Dafny

`cf-ddns.py` is a dynamic-DNS agent for Cloudflare. It reads a configuration
of credentials, domains (zones) and hosts (records). It probes the machine's
public IPv4 and IPv6 addresses. It then walks domains, hosts and record types
in order. Along the way it fills in missing zone ids and record ids from the
provider's listings. It sends an update for every `A`/`AAAA` record whose last
applied address differs from the probed one, and records the new address when
the provider confirms. At the end it writes the configuration back if at least
one update was confirmed.

This project models that run as pure functions over immutable datatypes:

- `store.dfy` (module `Store`): the configuration tree (`Config`, `Domain`,
  `Host`, `User`) and the script's truthiness test on optional strings
  (`Present`: both `null` and `""` count as missing).
- `provider.dfy` (module `Provider`): listing rows, listing outcomes
  (`Listed`, `HttpFailure`, `ConnectionFailure`), update requests and
  outcomes (`Succeeded`, `Rejected` for `success: false`, `Failed` for any
  exception). Also the id scan `ResolveId`.
- `reconcile.dfy` (module `Reconcile`): the type, host and domain loops.
  Each returns a `Progress`: the new value, the `updated` flag and the
  requests sent, or a crash.
- `script.dfy` (module `Script`): the credential and address checks, the whole
  run (`Run`), the corrected run (`RunIntended`) and the persistence gate
  (`Persisted`).
- `idempotence.dfy` (module `Idempotence`): a second run after a fully
  confirmed run changes nothing.
- `scenarios.dfy` (module `Scenarios`): concrete runs.

Network answers are parameters:

- the two probe results (`Probe`);
- one zone listing outcome, used for every domain that needs it;
- a record listing outcome per zone id (`string -> Listing`);
- an oracle giving the provider's answer to each update request.

Where the script would crash, the model returns a `Crash` outcome. It keeps
the requests already sent and writes nothing. There are three crash causes:

- a record listing URL built from a null zone id (a TypeError at line 108);
- a failing record listing (line 110);
- a zone listing that fails below HTTP (a `URLError` that the
  `except HTTPError` at line 87 does not catch).

The code behaves in ways one might not expect, and the model follows it:

- With several listing rows of the same name, the last one wins, not the
  first (the loops at lines 82-86 and 112-116 never break).
- The run aborts when the IPv4 probe failed, whatever the IPv6 probe gave
  (line 62). See Findings.
- A domain whose zone id stays unresolved is not skipped. Its hosts are
  processed. If the zone id is null, a host with a known record id sends an
  update addressed to a null zone id, and a host without one crashes the run
  (a null zone id cannot be joined into the listing URL). If the zone id is
  the empty string, nothing crashes: the record listing of zone `""` is
  fetched, and updates are addressed to zone `""`.
- A host whose record id stays unresolved still sends its update, with the
  record id it still has (null or empty). An empty id is kept by the lookup
  and goes into both the URL and the body (lines 148, 153-156). The
  provider's answer decides the outcome.
- An empty probe body (`""`) does not trigger the abort (`is None` is
  false). It does make `A`/`AAAA` records of that family skip (`if public_ipv4`).

## Model

| member | source | states |
|---|---|---|
| Provider.ResolveId | cf-ddns.py:82-86 | With no row named exactly like the key, the id is unchanged; otherwise it is the id of the last row with that name |
| Provider.ResolveIdIdempotent | cf-ddns.py:112-116 | Scanning the same listing a second time leaves the id the first scan produced |
| Reconcile.Target | cf-ddns.py:121-138 | Only `A` (with a usable IPv4 address) and `AAAA` (with a usable IPv6 address) are reconciled; any other type, or a family whose probe failed or returned an empty body, is not |
| Reconcile.ReconcileType | cf-ddns.py:121-171 | A skipped type sends nothing and changes nothing. An update is sent exactly when the stored address differs from the probed one. It carries the zone id, the record id, the type, the host label (not the FQDN) and the probed address. The stored address becomes the probed one only if the provider confirms; `success: false` and exceptions leave the host as it was |
| Reconcile.ReconcileTypes | cf-ddns.py:119-171 | Over all types of a host: label, types and record id are kept. `updated` holds iff some sent update was confirmed. An address field changes iff a confirmed update carrying its family's probed address was sent, and then holds that address. Every reconciled type ends holding its probed address unless an update of that type was sent and not confirmed, so a failure does not stop the later types. Every request is addressed to the host's zone and record, carries one of its types, and is sent only for a type whose stored address differs from the probed one |
| Reconcile.ResolveHostId | cf-ddns.py:103-116 | A present record id is never looked up again. A missing one is looked up in its zone's record listing by the FQDN `host.domain`. A null zone id or a failing listing ends the run; otherwise only the id can change |
| Reconcile.ReconcileHost | cf-ddns.py:94-171 | A host with an empty label is skipped untouched. The run crashes exactly when the record id lookup fails. Otherwise only the record id (by the lookup) and the addresses change, and the record id is the one the lookup produced. Every confirmed update is stored, and every reconciled type ends holding its probed address unless its update was not confirmed. Every request is for one of the host's types, addressed to the zone and the host's resulting record id, and only for a type whose stored address differed from the probed one |
| Reconcile.ReconcileHosts | cf-ddns.py:93-100 | The loop completes iff no host step crashes. Each host then becomes what its own host step makes of it, whatever the earlier hosts did. `updated` holds iff some update was confirmed. The requests sent are exactly those of the host steps, and `updated` holds iff some host step reported an update. On a crash, the kind is that of the first crashing host step, and the requests are exactly those of the host steps up to and including it (a crashing host step itself sends nothing) |
| Reconcile.ReconcileZone | cf-ddns.py:92-93 | The hosts loop of a domain keeps its name and zone id. It completes iff no host step crashes, and each host becomes what its own step makes of it. The requests sent are exactly those of the host steps, and `updated` holds iff some host step reported an update. On a crash, the kind is that of the first crashing host step, and the requests are exactly those of the host steps up to and including it (a crashing host step itself sends nothing) |
| Reconcile.ReconcileDomain | cf-ddns.py:68-90 | A domain with an empty name is skipped untouched. A missing zone id is filled from the zone listing by exact name (last match wins, no match leaves it). An HTTP error on the listing skips the domain untouched; a lower-level failure crashes the run. The domain ends with that zone id. If it is not skipped, it completes iff no host step crashes with that zone id, each host becomes what its own step makes of it, the requests sent are exactly those of the host steps, and `updated` holds iff some host step reported an update; a crash there is the first crashing host step's, with the requests of the host steps up to and including it |
| Reconcile.ReconcileDomains | cf-ddns.py:68-72 | The loop completes iff no domain step crashes. Each domain then becomes what its own domain step makes of it, whatever the earlier domains did. `updated` holds iff some update was confirmed. The requests sent are exactly those of the domain steps, and `updated` holds iff some domain step reported an update. On a crash, the kind is that of the first crashing domain step, and the requests are exactly those of the domain steps up to and including it (a domain crashes after its earlier hosts' updates were sent) |
| Script.Pass | cf-ddns.py:66-171 | The pass completes iff no domain step crashes. Each domain then becomes what its own step makes of it. A completed pass writes only zone ids, record ids and addresses, and reports `updated` iff some update was confirmed. The requests sent are exactly those of the domain steps, and `updated` holds iff some domain step reported an update. On a crash, the kind is that of the first crashing domain step, and the requests are exactly those of the domain steps up to and including it (a domain crashes after its earlier hosts' updates were sent) |
| Script.Run | cf-ddns.py:36-64 | The run stops before any request iff the email or API key is empty, and then stops iff the IPv4 probe failed, whatever IPv6 gave. Otherwise it is the pass |
| Script.RunIntended | cf-ddns.py:62-64 | The corrected run stops for lack of an address only when both probes failed; with credentials and at least one probe result it is the pass |
| Script.IntendedAgreesWithIpv4 | cf-ddns.py:62 | With an IPv4 address the written and the corrected runs coincide |
| Script.PersistGate | cf-ddns.py:174-179 | The configuration is written (once) exactly when the pass completed with at least one confirmed update. What is written has the same user, names, hosts and types as what was read. So ids resolved in a run with no confirmed update are not written |
| Idempotence.TypesFixpoint | cf-ddns.py:141 | A host whose stored addresses already equal the probed ones for every reconciled type sends nothing and changes nothing |
| Idempotence.TypesSettle | cf-ddns.py:164-166 | After a types loop whose every update was confirmed, each reconciled type's stored address equals the probed one |
| Idempotence.HostFixpoint | cf-ddns.py:94-171 | Repeating a host step after a fully confirmed one sends nothing and changes nothing, record id lookup included |
| Idempotence.HostsFixpoint | cf-ddns.py:93 | The same for the hosts loop |
| Idempotence.ZoneFixpoint | cf-ddns.py:92-93 | The same for a domain's hosts |
| Idempotence.DomainFixpoint | cf-ddns.py:68-90 | The same for a domain step, zone id lookup included |
| Idempotence.DomainsFixpoint | cf-ddns.py:68 | The same for the domain loop |
| Idempotence.RunIdempotent | cf-ddns.py:66-179 | After a completed run whose every update was confirmed, a run on its result with the same probes and provider sends no update, reports nothing updated, returns the same configuration and writes nothing |
| Idempotence.ConsecutiveRunsIdempotent | cf-ddns.py:29-179 | After a completed run whose every update was confirmed, the next run, reading what the first wrote (or the old configuration if it wrote nothing), sends no update and writes nothing |
| Idempotence.SettledHostSendsNothing | cf-ddns.py:103-141 | A host with a record id whose stored addresses match the probe sends nothing, whatever the provider would answer |
| Scenarios.FreshHostIsCreated | cf-ddns.py:75-177 | Zone `example.com` and host `www` without ids, probed `1.2.3.4`, confirmed: ids become `z1`/`r1`, one update carrying `www` and `1.2.3.4` is sent, `ipv4` is set and the configuration is written |
| Scenarios.RejectedUpdateWritesNothing | cf-ddns.py:164-179 | The same run answered with `success: false`: `ipv4` stays null and nothing is written, so the resolved record id is lost |
| Scenarios.UnchangedAddressSendsNothing | cf-ddns.py:141 | A host already holding the probed address: no update, nothing written |
| Scenarios.LastZoneMatchWins | cf-ddns.py:82-84 | Two zone rows named `example.com`: the second one's id is taken |
| Scenarios.FailureIsIsolated | cf-ddns.py:169-171 | A failed update of one host, then a confirmed update of the next: only the second host's address changes |
| Scenarios.CrashKeepsSentUpdates | cf-ddns.py:93-163 | Host `a` with record id `ra`, then host `b` without one, in a zone whose record listing fails: `a`'s update is sent, `b`'s lookup crashes the loop, and the crash carries `a`'s request |
| Scenarios.NullZoneIdCrashes | cf-ddns.py:107-110 | A zone id left null and a host without record id: the run crashes before any update |
| Scenarios.Ipv6OnlyAborts | cf-ddns.py:62 | No IPv4, a usable IPv6 and an `AAAA` host: the run as written stops; the corrected run sends the `AAAA` update |

## Left out

- The HTTP requests to the echo service and to the provider, the headers and the `PUT` method override (lines 50-60, 80-81, 107-110, 157-163): network I/O. Their answers are parameters.
- JSON parsing and serialisation and the configuration file read and write (lines 29-34, 176-177): file I/O and a library. The configuration is a datatype; the write is `Persisted`. The abort on an unparseable configuration is not modelled.
- Progress messages and `exit(0)` (lines 33-38, 63-64 and the prints in the loops): output without state. The two abort outcomes stand for the exits.
- The check `if not t: raise Exception` (lines 144-145): it cannot fire after the `A`/`AAAA` filter.
- JSON `null` names, email or API key: names are strings, and an empty string stands for a missing value. A `null` host name, which crashes at line 94, is not modelled.
- Malformed provider responses (missing keys, invalid JSON). In an update they raise inside the `try` at line 142 and count as `Failed`. In a listing they would crash; that crash is not modelled.
- A probe failure other than `URLError`, which would crash the script, is not modelled.
- The zone listing answer is one input shared by all domains of a run: the provider is assumed to answer the same way each time within a run.
- The record listings are a function `string -> Listing` of the zone id, although the script makes a fresh request for every host without a record id (line 110). Every lookup in one zone therefore gets the same answer. The model cannot produce a run with two id-less hosts in one zone where the first listing succeeds and the second fails, crashing after the first host's updates were sent.
- The provider's answer to an update is a function `Oracle` of the request, although the script makes a fresh request each time (line 163). An identical request therefore gets the same answer. The model cannot produce a host with types `["A", "A"]` whose first update fails transiently and whose identical second update is confirmed and stored.
- Idempotence.RunIdempotent: requires every update of the first run to have been confirmed. An update that failed is sent again by the next run, since the stored address still differs.
- Idempotence.ConsecutiveRunsIdempotent: requires every update of the first run to have been confirmed, for the same reason.

## Findings

| source | as written | input that shows it | evidently intended | confidence | as-written member | corrected member |
|---|---|---|---|---|---|---|
| cf-ddns.py:62 | `public_ipv4 is None and public_ipv4 is None` tests the IPv4 probe twice, so a run with only an IPv6 address stops | IPv4 probe fails, IPv6 probe returns `2001:db8::1`, one host with type `AAAA` | stop only when both probes failed, as the message "Failed to get any public IP address" says; the `AAAA` branch at lines 131-138 exists to use an IPv6-only result | high; not executed | Script.Run, Scenarios.Ipv6OnlyAborts | Script.RunIntended |
