/** The persisted configuration tree: credentials, then domains, then hosts. */
module Store {
  import opened Wrappers

  /** One host record: a label under its domain, the record id at the
      provider, the record types it wants and the last addresses applied. */
  datatype Host = Host(
    name: string,
    id: Option<string>,
    types: seq<string>,
    ipv4: Option<string>,
    ipv6: Option<string>)

  /** One zone: its fully qualified name, its zone id and its hosts. */
  datatype Domain = Domain(name: string, id: Option<string>, hosts: seq<Host>)

  /** Provider credentials. */
  datatype User = User(email: string, apiKey: string)

  datatype Config = Config(user: User, domains: seq<Domain>)

  /** Truthiness of an optional string as the script tests it:
      both `null` and the empty string count as missing. */
  predicate Present(o: Option<string>)
  {
    o.Some? && o.value != ""
  }

  /** The name under which the provider lists a host's record. */
  function Fqdn(host: string, domain: string): string
  {
    host + "." + domain
  }

  /** What the pass may never alter in a host: its label and its types. */
  predicate SameHostShape(h: Host, h': Host)
  {
    h'.name == h.name && h'.types == h.types
  }

  /** What the pass may never alter in a domain: its name and its host list
      up to ids and addresses. */
  predicate SameDomainShape(d: Domain, d': Domain)
  {
    && d'.name == d.name
    && |d'.hosts| == |d.hosts|
    && forall j :: 0 <= j < |d.hosts| ==> SameHostShape(d.hosts[j], d'.hosts[j])
  }

  /** What the pass may never alter in a configuration. */
  predicate SameShape(c: Config, c': Config)
  {
    && c'.user == c.user
    && |c'.domains| == |c.domains|
    && forall i :: 0 <= i < |c.domains| ==> SameDomainShape(c.domains[i], c'.domains[i])
  }
}
