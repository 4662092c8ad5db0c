/** The hosts the resource endpoint may forward to (src/hosts.rs). */
module Hosts {
  import opened Text

  type Schemes = map<string, string>

  function CleanScheme(scheme: string): string {
    if scheme == "http" || scheme == "https" then scheme else "https"
  }

  /** The registry after `allow(host, scheme)`. */
  function Allowed(m: Schemes, host: string, scheme: string): Schemes {
    if host == "" then m else m[host := CleanScheme(scheme)]
  }

  /** The registry a list of configured hosts starts with. */
  function Configured(m: Schemes, initial: seq<string>): Schemes
    decreases |initial|
  {
    if initial == [] then m else Configured(Allowed(m, initial[0], "https"), initial[1..])
  }

  class Registry {
    var schemes: Schemes

    constructor (initial: seq<string>)
      ensures schemes == Configured(map[], initial)
    {
      schemes := map[];
      new;
      assert initial[0..] == initial;
      for i := 0 to |initial|
        invariant Configured(map[], initial) == Configured(schemes, initial[i..])
      {
        assert initial[i..][1..] == initial[i + 1..];
        Allow(initial[i], "https");
      }
    }

    method Allow(host: string, scheme: string)
      modifies this
      ensures schemes == Allowed(old(schemes), host, scheme)
    {
      if host == "" {
        return;
      }
      var clean := if scheme == "http" || scheme == "https" then scheme else "https";
      if host in schemes && schemes[host] == clean {
        return;
      }
      schemes := schemes[host := clean];
    }

    method Lookup(host: string) returns (r: Option<string>)
      ensures r == if host in schemes then Some(schemes[host]) else None
    {
      if host in schemes {
        return Some(schemes[host]);
      }
      return None;
    }
  }

  /** A new registry holds exactly the configured hosts that are not empty, all with `https`. */
  lemma {:induction false} ConfiguredExact(m: Schemes, initial: seq<string>, host: string)
    ensures host in Configured(m, initial) <==> host in m || (host != "" && host in initial)
    ensures host in Configured(m, initial) ==>
              Configured(m, initial)[host] == if host != "" && host in initial then "https" else m[host]
    decreases |initial|
  {
    if initial != [] {
      ConfiguredExact(Allowed(m, initial[0], "https"), initial[1..], host);
      assert initial == [initial[0]] + initial[1..];
    }
  }

  /** Every scheme in a registry is `http` or `https`. */
  ghost predicate CleanRegistry(m: Schemes) {
    forall host :: host in m ==> host != "" && (m[host] == "http" || m[host] == "https")
  }

  lemma AllowedKeepsClean(m: Schemes, host: string, scheme: string)
    requires CleanRegistry(m)
    ensures CleanRegistry(Allowed(m, host, scheme)) && m.Keys <= Allowed(m, host, scheme).Keys
  {
  }

  /** One registration: the empty host is ignored, a scheme that is not `http` counts as `https`, the
      latest scheme of a host counts, and other hosts are left alone. */
  lemma AllowedExact(m: Schemes, host: string, scheme: string, other: string)
    ensures other in Allowed(m, host, scheme) <==> other in m || (other == host && host != "")
    ensures host != "" ==> Allowed(m, host, scheme)[host] == if scheme == "http" then "http" else "https"
    ensures other in m && other != host ==> Allowed(m, host, scheme)[other] == m[other]
    ensures host == "" ==> Allowed(m, host, scheme) == m
  {
  }
}
