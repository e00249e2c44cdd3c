/** Endpoint topology: turning a layout into indexed endpoints, rejecting conflicting ones, and
    collecting the pools of a cluster.

    URL parsing, percent-decoding, name resolution and the test for local hosts are inputs. */
module Endpoints {
  import opened Prelude
  import opened DisksLayout

  datatype Scheme = File | Http | Https

  /** A parsed URL, or a file path in URL form, which has no host. */
  datatype Url = Url(scheme: Scheme, host: Option<string>, port: Option<nat>, path: string)

  datatype Endpoint = Endpoint(url: Url, isLocal: bool, pool: int, set_: int, disk: int)

  type Ip = nat

  datatype TopologyError =
    | NoEndpoints
    | BadEndpoint
    | MixedStyle
    | MixedScheme
    | Duplicate
    | Unresolved
    | SharedAddress
    | SharedLocalPath
    | DifferentLocalHosts
    | PathStyleNeeded
    | BadServerAddress

  datatype SetupType = ErasureSD | Erasure | DistErasure

  /** The outside world. A pool resolves each of its hosts once. */
  datatype World = World(
    parse: string -> Option<Endpoint>,
    decode: string -> string,
    resolve: (nat, string) -> Option<set<Ip>>,
    isLocalHost: (string, nat, nat) -> Option<bool>)

  /** Parsed endpoints are a local path without host, or a URL with one; hosts that resolve
      have an address. */
  ghost predicate ValidWorld(w: World) {
    && (forall s :: w.parse(s).Some? ==> WellFormed(w.parse(s).value) && (w.parse(s).value.url.scheme.File? ==> w.parse(s).value.isLocal))
    && (forall p, h :: w.resolve(p, h).Some? ==> w.resolve(p, h).value != {})
  }

  ghost predicate WellFormed(e: Endpoint) {
    e.url.scheme.File? <==> e.url.host.None?
  }

  function FilePath(w: World, e: Endpoint): string {
    w.decode(e.url.path)
  }

  /** What an endpoint is printed as, and compared by. */
  datatype Shown = ShownPath(path: string) | ShownUrl(url: Url)

  function Show(w: World, e: Endpoint): Shown {
    if e.url.scheme.File? then ShownPath(FilePath(w, e)) else ShownUrl(e.url)
  }

  /** Two endpoints print alike when both are paths that decode alike, or both are the same URL. */
  lemma ShowIff(w: World, e: Endpoint, f: Endpoint)
    ensures Show(w, e) == Show(w, f) <==>
              || (e.url.scheme == File && f.url.scheme == File && w.decode(e.url.path) == w.decode(f.url.path))
              || (e.url.scheme != File && f.url.scheme != File && e.url == f.url)
  {
  }

  ghost predicate AllDistinct(w: World, eps: seq<Endpoint>) {
    forall i, j :: 0 <= i < j < |eps| ==> Show(w, eps[i]) != Show(w, eps[j])
  }

  // ---------------------------------------------------------------- the endpoints of one set

  function IsUrl(e: Endpoint): bool {
    !e.url.scheme.File?
  }

  ghost predicate Uniform(eps: seq<Endpoint>) {
    forall i :: 0 <= i < |eps| ==> eps[i].url.scheme == eps[0].url.scheme
  }

  function Parsed(w: World, args: seq<string>): seq<Endpoint>
    requires forall i :: 0 <= i < |args| ==> w.parse(args[i]).Some?
  {
    seq(|args|, i requires 0 <= i < |args| => w.parse(args[i]).value)
  }

  ghost function ShownSet(w: World, eps: seq<Endpoint>): set<Shown> {
    set i | 0 <= i < |eps| :: Show(w, eps[i])
  }

  lemma ShownAppend(w: World, eps: seq<Endpoint>, e: Endpoint)
    ensures ShownSet(w, eps + [e]) == ShownSet(w, eps) + {Show(w, e)}
    ensures AllDistinct(w, eps) && Show(w, e) !in ShownSet(w, eps) ==> AllDistinct(w, eps + [e])
  {
    var all := eps + [e];
    assert all[|eps|] == e;
    forall i | 0 <= i < |eps| ensures Show(w, eps[i]) in ShownSet(w, all) {
      assert all[i] == eps[i];
    }
  }

  ghost predicate SetReadable(w: World, args: seq<string>) {
    && (forall i :: 0 <= i < |args| ==> w.parse(args[i]).Some?)
    && Uniform(Parsed(w, args)) && AllDistinct(w, Parsed(w, args))
  }

  /** `Endpoints::try_from` accepts exactly the lists that parse, have one style and scheme,
      and name no endpoint twice. */
  method ParseSet(w: World, args: seq<string>) returns (r: Result<seq<Endpoint>, TopologyError>)
    ensures r.Ok? <==> SetReadable(w, args)
    ensures r.Ok? ==> r.value == Parsed(w, args)
  {
    var endpoints: seq<Endpoint> := [];
    var seen: set<Shown> := {};
    for i := 0 to |args|
      invariant forall k :: 0 <= k < i ==> w.parse(args[k]).Some?
      invariant endpoints == Parsed(w, args[..i])
      invariant seen == ShownSet(w, endpoints)
      invariant Uniform(endpoints) && AllDistinct(w, endpoints)
    {
      var parsed := w.parse(args[i]);
      if parsed.None? {
        return Err(BadEndpoint);
      }
      var endpoint := parsed.value;
      if i > 0 && IsUrl(endpoint) != IsUrl(endpoints[0]) {
        SchemesDiffer(w, args, i);
        return Err(MixedStyle);
      } else if i > 0 && endpoint.url.scheme != endpoints[0].url.scheme {
        SchemesDiffer(w, args, i);
        return Err(MixedScheme);
      }
      if Show(w, endpoint) in seen {
        ghost var k :| 0 <= k < i && Show(w, endpoints[k]) == Show(w, endpoint);
        SameTwice(w, args, k, i);
        return Err(Duplicate);
      }
      ShownAppend(w, endpoints, endpoint);
      seen := seen + {Show(w, endpoint)};
      endpoints := endpoints + [endpoint];
    }
    assert args[..|args|] == args;
    r := Ok(endpoints);
  }

  lemma SchemesDiffer(w: World, args: seq<string>, i: nat)
    requires i < |args| && w.parse(args[0]).Some? && w.parse(args[i]).Some?
    requires w.parse(args[i]).value.url.scheme != w.parse(args[0]).value.url.scheme
    ensures (forall k :: 0 <= k < |args| ==> w.parse(args[k]).Some?) ==> !Uniform(Parsed(w, args))
  {
    if forall k :: 0 <= k < |args| ==> w.parse(args[k]).Some? {
      assert Parsed(w, args)[i].url.scheme != Parsed(w, args)[0].url.scheme;
    }
  }

  lemma SameTwice(w: World, args: seq<string>, i: nat, j: nat)
    requires i < j < |args| && w.parse(args[i]).Some? && w.parse(args[j]).Some?
    requires Show(w, w.parse(args[i]).value) == Show(w, w.parse(args[j]).value)
    ensures (forall k :: 0 <= k < |args| ==> w.parse(args[k]).Some?) ==> !AllDistinct(w, Parsed(w, args))
  {
    if forall k :: 0 <= k < |args| ==> w.parse(args[k]).Some? {
      assert Show(w, Parsed(w, args)[i]) == Show(w, Parsed(w, args)[j]);
    }
  }

  // ---------------------------------------------------------------- indexing a pool

  function Tagged(w: World, pool: nat, sets: seq<seq<string>>, q: nat): seq<Endpoint>
    requires q < |sets| && forall i :: 0 <= i < |sets[q]| ==> w.parse(sets[q][i]).Some?
  {
    seq(|sets[q]|, i requires 0 <= i < |sets[q]| =>
      w.parse(sets[q][i]).value.(pool := pool, set_ := q, disk := i))
  }

  ghost predicate AllParse(w: World, sets: seq<seq<string>>) {
    forall q, i :: 0 <= q < |sets| && 0 <= i < |sets[q]| ==> w.parse(sets[q][i]).Some?
  }

  /** The parsed endpoints of the sets, each with its pool, set and disk index. */
  ghost function TaggedSets(w: World, pool: nat, sets: seq<seq<string>>): seq<seq<Endpoint>>
    requires AllParse(w, sets)
  {
    seq(|sets|, q requires 0 <= q < |sets| => Tagged(w, pool, sets, q))
  }

  /** Every set can be read, and not all are empty. */
  ghost predicate PoolReadable(w: World, sets: seq<seq<string>>) {
    && (forall q :: 0 <= q < |sets| ==> SetReadable(w, sets[q]))
    && (exists q :: 0 <= q < |sets| && sets[q] != [])
  }

  /** Builds the endpoint list of a pool, set by set. */
  method BuildPool(w: World, pool: nat, sets: seq<seq<string>>) returns (r: Result<seq<Endpoint>, TopologyError>)
    ensures r.Ok? <==> PoolReadable(w, sets)
    ensures r.Ok? ==> AllParse(w, sets) && r.value == Concat(TaggedSets(w, pool, sets)) && r.value != []
  {
    var endpoints: seq<Endpoint> := [];
    for q := 0 to |sets|
      invariant AllParse(w, sets[..q])
      invariant forall k :: 0 <= k < q ==> SetReadable(w, sets[k])
      invariant endpoints == [] <==> forall k :: 0 <= k < q ==> sets[k] == []
      invariant endpoints == Concat(TaggedSets(w, pool, sets[..q]))
    {
      var parsed := ParseSet(w, sets[q]);
      if parsed.Err? {
        return Err(parsed.error);
      }
      var eps := parsed.value;
      for i := 0 to |eps|
        invariant |eps| == |sets[q]|
        invariant forall k :: 0 <= k < |eps| ==>
                    eps[k] == if k < i then Tagged(w, pool, sets, q)[k] else w.parse(sets[q][k]).value
      {
        eps := eps[i := eps[i].(pool := pool, set_ := q, disk := i)];
      }
      assert eps == Tagged(w, pool, sets, q);
      assert AllParse(w, sets[..q + 1]);
      TaggedOneMore(w, pool, sets, q);
      endpoints := endpoints + eps;
    }
    assert sets[..|sets|] == sets;
    if endpoints == [] {
      return Err(NoEndpoints);
    }
    r := Ok(endpoints);
  }

  lemma TaggedOneMore(w: World, pool: nat, sets: seq<seq<string>>, q: nat)
    requires q < |sets| && AllParse(w, sets[..q + 1])
    ensures AllParse(w, sets[..q])
    ensures Concat(TaggedSets(w, pool, sets[..q + 1])) == Concat(TaggedSets(w, pool, sets[..q])) + Tagged(w, pool, sets, q)
  {
    var before := sets[..q];
    var after := sets[..q + 1];
    forall p, i | 0 <= p < |before| && 0 <= i < |before[p]| ensures w.parse(before[p][i]).Some? {
      assert w.parse(after[p][i]).Some?;
    }
    forall i | 0 <= i < |sets[q]| ensures w.parse(sets[q][i]).Some? {
      assert w.parse(after[q][i]).Some?;
    }
    assert TaggedSets(w, pool, after)[..q] == TaggedSets(w, pool, before);
    assert TaggedSets(w, pool, after)[q] == Tagged(w, pool, sets, q);
  }

  /** In a pool whose sets have one size s, the k-th endpoint is disk k % s of set k / s, and
      there are s endpoints per set. */
  lemma PoolIndexes(w: World, pool: nat, sets: seq<seq<string>>, s: nat, k: nat)
    requires AllParse(w, sets) && s > 0 && forall q :: 0 <= q < |sets| ==> |sets[q]| == s
    requires k < |Concat(TaggedSets(w, pool, sets))|
    ensures |Concat(TaggedSets(w, pool, sets))| == |sets| * s
    ensures k / s < |sets| && w.parse(sets[k / s][k % s]).Some?
    ensures Concat(TaggedSets(w, pool, sets))[k]
         == w.parse(sets[k / s][k % s]).value.(pool := pool, set_ := k / s, disk := k % s)
  {
    var tagged := TaggedSets(w, pool, sets);
    UniformLength(tagged, s);
    UniformSets(tagged, s, k);
  }

  // ---------------------------------------------------------------- local endpoints

  function LocalOf(w: World, e: Endpoint, localPort: nat): Option<bool> {
    match e.url.host
    case None => Some(true)
    case Some(h) => w.isLocalHost(h, if e.url.port.Some? then e.url.port.value else 0, localPort)
  }

  /** Same endpoints but for the local flag. */
  ghost predicate SameButLocal(a: seq<Endpoint>, b: seq<Endpoint>) {
    |a| == |b| && forall i :: 0 <= i < |a| ==> b[i] == a[i].(isLocal := b[i].isLocal)
  }

  /** `update_is_local` for one pool; endpoints without host are local. */
  method UpdateIsLocal(w: World, eps: seq<Endpoint>, localPort: nat) returns (r: Result<seq<Endpoint>, TopologyError>)
    ensures r.Ok? ==> SameButLocal(eps, r.value)
    ensures r.Ok? ==> forall i :: 0 <= i < |eps| ==> LocalOf(w, eps[i], localPort) == Some(r.value[i].isLocal)
    ensures r.Err? <==> exists i :: 0 <= i < |eps| && LocalOf(w, eps[i], localPort).None?
  {
    var out := eps;
    for i := 0 to |eps|
      invariant |out| == |eps| && forall k :: i <= k < |eps| ==> out[k] == eps[k]
      invariant forall k :: 0 <= k < i ==>
                  out[k] == eps[k].(isLocal := out[k].isLocal) && LocalOf(w, eps[k], localPort) == Some(out[k].isLocal)
    {
      var isLocal := LocalOf(w, eps[i], localPort);
      if isLocal.None? {
        return Err(Unresolved);
      }
      out := out[i := out[i].(isLocal := isLocal.value)];
    }
    r := Ok(out);
  }

  // ---------------------------------------------------------------- conflicts inside a pool

  function Addresses(w: World, pool: nat, e: Endpoint): set<Ip> {
    if e.url.host.Some? && w.resolve(pool, e.url.host.value).Some? then w.resolve(pool, e.url.host.value).value else {}
  }

  ghost predicate Resolves(w: World, pool: nat, eps: seq<Endpoint>) {
    forall i :: 0 <= i < |eps| && eps[i].url.host.Some? ==> w.resolve(pool, eps[i].url.host.value).Some?
  }

  ghost predicate Clash(w: World, pool: nat, e: Endpoint, f: Endpoint) {
    FilePath(w, e) == FilePath(w, f) && Addresses(w, pool, e) * Addresses(w, pool, f) != {}
  }

  /** No path is served twice from one address. */
  ghost predicate NoSharedAddress(w: World, pool: nat, eps: seq<Endpoint>) {
    forall i, j :: 0 <= i < j < |eps| ==> !Clash(w, pool, eps[i], eps[j])
  }

  ghost predicate Serves(w: World, pool: nat, e: Endpoint, path: string, ip: Ip) {
    FilePath(w, e) == path && ip in Addresses(w, pool, e)
  }

  /** The addresses collected per path after the first n endpoints. */
  ghost predicate PathAddresses(w: World, pool: nat, eps: seq<Endpoint>, n: nat, m: map<string, set<Ip>>)
    requires n <= |eps|
  {
    && (forall k :: 0 <= k < n && eps[k].url.host.Some? ==>
          FilePath(w, eps[k]) in m && Addresses(w, pool, eps[k]) <= m[FilePath(w, eps[k])])
    && (forall p, ip :: p in m && ip in m[p] ==>
          exists k :: 0 <= k < n && Serves(w, pool, eps[k], p, ip))
  }

  lemma PathAddressesOneMore(
    w: World, pool: nat, eps: seq<Endpoint>, n: nat, m: map<string, set<Ip>>, m': map<string, set<Ip>>)
    requires n < |eps| && PathAddresses(w, pool, eps, n, m)
    requires m' == m[FilePath(w, eps[n]) :=
               (if FilePath(w, eps[n]) in m then m[FilePath(w, eps[n])] else {}) + Addresses(w, pool, eps[n])]
    ensures PathAddresses(w, pool, eps, n + 1, m')
  {
    forall p, ip | p in m' && ip in m'[p]
      ensures exists k :: 0 <= k < n + 1 && Serves(w, pool, eps[k], p, ip)
    {
      if !(p == FilePath(w, eps[n]) && ip in Addresses(w, pool, eps[n])) {
        var k :| 0 <= k < n && Serves(w, pool, eps[k], p, ip);
      }
    }
  }

  /** An endpoint clashes with an earlier one exactly when its addresses meet those already
      collected for its path. */
  lemma ClashFound(w: World, pool: nat, eps: seq<Endpoint>, n: nat, m: map<string, set<Ip>>)
    requires n < |eps| && PathAddresses(w, pool, eps, n, m)
    ensures (FilePath(w, eps[n]) in m && m[FilePath(w, eps[n])] * Addresses(w, pool, eps[n]) != {})
       <==> exists k :: 0 <= k < n && Clash(w, pool, eps[k], eps[n])
  {
    var p := FilePath(w, eps[n]);
    if p in m && m[p] * Addresses(w, pool, eps[n]) != {} {
      var ip :| ip in m[p] * Addresses(w, pool, eps[n]);
      var k :| 0 <= k < n && Serves(w, pool, eps[k], p, ip);
      assert ip in Addresses(w, pool, eps[k]) * Addresses(w, pool, eps[n]);
      assert Clash(w, pool, eps[k], eps[n]);
    }
    if k :| 0 <= k < n && Clash(w, pool, eps[k], eps[n]) {
      var ip :| ip in Addresses(w, pool, eps[k]) * Addresses(w, pool, eps[n]);
      assert ip in m[p] * Addresses(w, pool, eps[n]);
    }
  }

  /** The first n endpoints resolve and do not clash. */
  ghost predicate ClearUpTo(w: World, pool: nat, eps: seq<Endpoint>, n: nat) {
    && n <= |eps|
    && (forall k :: 0 <= k < n && eps[k].url.host.Some? ==> w.resolve(pool, eps[k].url.host.value).Some?)
    && (forall j, k :: 0 <= j < k < n ==> !Clash(w, pool, eps[j], eps[k]))
  }

  lemma NoHostNoClash(w: World, pool: nat, eps: seq<Endpoint>, n: nat, m: map<string, set<Ip>>)
    requires n < |eps| && eps[n].url.host.None?
    requires ClearUpTo(w, pool, eps, n) && PathAddresses(w, pool, eps, n, m)
    ensures ClearUpTo(w, pool, eps, n + 1) && PathAddresses(w, pool, eps, n + 1, m)
  {
    forall j | 0 <= j < n ensures !Clash(w, pool, eps[j], eps[n]) {
      assert Addresses(w, pool, eps[n]) == {};
    }
  }

  /** Looks a host up, resolving it only the first time. */
  method LookUp(w: World, pool: nat, host: string, cache: map<string, set<Ip>>)
    returns (ips: Option<set<Ip>>, cache': map<string, set<Ip>>)
    requires forall h :: h in cache ==> w.resolve(pool, h) == Some(cache[h])
    ensures ips == w.resolve(pool, host)
    ensures forall h :: h in cache' ==> w.resolve(pool, h) == Some(cache'[h])
  {
    cache' := cache;
    if host in cache {
      return Some(cache[host]), cache';
    }
    ips := w.resolve(pool, host);
    if ips.Some? {
      cache' := cache[host := ips.value];
    }
  }

  lemma ClearOneMore(w: World, pool: nat, eps: seq<Endpoint>, n: nat, m: map<string, set<Ip>>, known: set<Ip>)
    requires n < |eps| && eps[n].url.host.Some? && w.resolve(pool, eps[n].url.host.value).Some?
    requires ClearUpTo(w, pool, eps, n) && PathAddresses(w, pool, eps, n, m)
    requires known == if FilePath(w, eps[n]) in m then m[FilePath(w, eps[n])] else {}
    ensures known * Addresses(w, pool, eps[n]) == {} ==>
              && ClearUpTo(w, pool, eps, n + 1)
              && PathAddresses(w, pool, eps, n + 1, m[FilePath(w, eps[n]) := known + Addresses(w, pool, eps[n])])
    ensures known * Addresses(w, pool, eps[n]) != {} ==> !NoSharedAddress(w, pool, eps)
  {
    ClashFound(w, pool, eps, n, m);
    PathAddressesOneMore(w, pool, eps, n, m, m[FilePath(w, eps[n]) := known + Addresses(w, pool, eps[n])]);
  }

  /** The check that no path of a host is also served by another port of the same address. */
  method CheckAddresses(w: World, pool: nat, eps: seq<Endpoint>) returns (ok: bool, error: TopologyError)
    ensures ok <==> Resolves(w, pool, eps) && NoSharedAddress(w, pool, eps)
  {
    var pathIps: map<string, set<Ip>> := map[];
    var cache: map<string, set<Ip>> := map[];
    for i := 0 to |eps|
      invariant PathAddresses(w, pool, eps, i, pathIps) && ClearUpTo(w, pool, eps, i)
      invariant forall h :: h in cache ==> w.resolve(pool, h) == Some(cache[h])
    {
      if eps[i].url.host.None? {
        NoHostNoClash(w, pool, eps, i, pathIps);
      } else {
        var addresses;
        addresses, cache := LookUp(w, pool, eps[i].url.host.value, cache);
        if addresses.None? {
          return false, Unresolved;
        }
        var path := FilePath(w, eps[i]);
        var known := if path in pathIps then pathIps[path] else {};
        ClearOneMore(w, pool, eps, i, pathIps, known);
        if known * addresses.value != {} {
          return false, SharedAddress;
        }
        pathIps := pathIps[path := known + addresses.value];
      }
    }
    ok, error := true, Unresolved;
  }

  /** No path is served by two local endpoints. */
  ghost predicate NoSharedLocalPath(w: World, eps: seq<Endpoint>) {
    forall i, j :: 0 <= i < j < |eps| && eps[i].isLocal && eps[j].isLocal ==>
      FilePath(w, eps[i]) != FilePath(w, eps[j])
  }

  method CheckLocalPaths(w: World, eps: seq<Endpoint>) returns (ok: bool)
    ensures ok <==> NoSharedLocalPath(w, eps)
  {
    var paths: set<string> := {};
    for i := 0 to |eps|
      invariant forall p :: p in paths <==> exists k :: 0 <= k < i && eps[k].isLocal && FilePath(w, eps[k]) == p
      invariant NoSharedLocalPath(w, eps[..i])
    {
      var ep := eps[i];
      if !ep.isLocal {
        continue;
      }
      if FilePath(w, ep) in paths {
        return false;
      }
      paths := paths + {FilePath(w, ep)};
    }
    assert eps[..|eps|] == eps;
    ok := true;
  }

  predicate LocalWithHost(e: Endpoint) {
    e.isLocal && e.url.host.Some?
  }

  /** All endpoints are local URLs on one port but under several host names. */
  ghost predicate DifferentHosts(eps: seq<Endpoint>) {
    && (forall i :: 0 <= i < |eps| ==> LocalWithHost(eps[i]))
    && |set e | e in eps && LocalWithHost(e) :: e.url.port| == 1
    && |set e | e in eps && LocalWithHost(e) :: e.url.host| > 1
  }

  method CheckLocalHosts(eps: seq<Endpoint>) returns (ok: bool)
    ensures ok <==> !DifferentHosts(eps)
  {
    var hosts: set<Option<string>> := {};
    var ports: set<Option<nat>> := {};
    var count := 0;
    for i := 0 to |eps|
      invariant hosts == set e | e in eps[..i] && LocalWithHost(e) :: e.url.host
      invariant ports == set e | e in eps[..i] && LocalWithHost(e) :: e.url.port
      invariant count <= i && (count == i <==> forall k :: 0 <= k < i ==> LocalWithHost(eps[k]))
    {
      var ep := eps[i];
      assert eps[..i + 1] == eps[..i] + [ep];
      if LocalWithHost(ep) {
        hosts, ports, count := hosts + {ep.url.host}, ports + {ep.url.port}, count + 1;
      }
    }
    assert eps[..|eps|] == eps;
    ok := !(|eps| == count && |ports| == 1 && |hosts| > 1);
  }

  // ---------------------------------------------------------------- ports

  function DefaultPort(s: Scheme): Option<nat> {
    match s case File => None case Http => Some(80) case Https => Some(443)
  }

  /** Setting a port; a URL does not keep the default port of its scheme. */
  function SetPort(u: Url, port: nat): Url {
    u.(port := if DefaultPort(u.scheme) == Some(port) then None else Some(port))
  }

  /** An endpoint after its missing port has been filled in; a local one on another port is
      not local after all. */
  function Filled(e: Endpoint, serverPort: nat): Endpoint {
    if e.url.host.None? then e
    else match e.url.port
      case None => e.(url := SetPort(e.url, serverPort))
      case Some(port) => e.(isLocal := e.isLocal && serverPort == port)
  }

  datatype HostPort = HostPort(host: string, port: Option<nat>)

  function ServerOf(e: Endpoint, serverPort: nat): HostPort {
    match e.url.host
    case None => HostPort("localhost", Some(serverPort))
    case Some(h) => HostPort(h, e.url.port)
  }

  method FillPorts(eps: seq<Endpoint>, serverPort: nat, servers: set<HostPort>)
    returns (out: seq<Endpoint>, all: set<HostPort>)
    ensures |out| == |eps| && forall i :: 0 <= i < |eps| ==> out[i] == Filled(eps[i], serverPort)
    ensures all == servers + set e | e in out :: ServerOf(e, serverPort)
  {
    out, all := eps, servers;
    for i := 0 to |eps|
      invariant |out| == |eps|
      invariant forall k :: 0 <= k < |eps| ==> out[k] == if k < i then Filled(eps[k], serverPort) else eps[k]
      invariant all == servers + set e | e in out[..i] :: ServerOf(e, serverPort)
    {
      ghost var done := out[..i];
      if out[i].url.host.Some? {
        if out[i].url.port.None? {
          out := out[i := out[i].(url := SetPort(out[i].url, serverPort))];
        } else if out[i].isLocal && serverPort != out[i].url.port.value {
          out := out[i := out[i].(isLocal := false)];
        }
      }
      assert out[..i + 1] == done + [out[i]];
      all := all + {ServerOf(out[i], serverPort)};
    }
    assert out[..|out|] == out;
  }

  // ---------------------------------------------------------------- accepted pools

  ghost predicate HostlessAreLocal(eps: seq<Endpoint>) {
    forall i :: 0 <= i < |eps| ==> WellFormed(eps[i]) && (eps[i].url.host.None? ==> eps[i].isLocal)
  }

  ghost predicate FilledFrom(eps: seq<Endpoint>, out: seq<Endpoint>, serverPort: nat) {
    |out| == |eps| && forall i :: 0 <= i < |eps| ==> out[i] == Filled(eps[i], serverPort)
  }

  /** The conflict checks leave no two endpoints of a pool that print alike, even with the
      missing ports filled in. */
  lemma PoolDistinct(w: World, pool: nat, eps: seq<Endpoint>, out: seq<Endpoint>, serverPort: nat)
    requires ValidWorld(w) && HostlessAreLocal(eps) && FilledFrom(eps, out, serverPort)
    requires Resolves(w, pool, eps) && NoSharedAddress(w, pool, eps) && NoSharedLocalPath(w, eps)
    ensures AllDistinct(w, out)
    ensures Resolves(w, pool, out) && NoSharedAddress(w, pool, out) && NoSharedLocalPath(w, out)
  {
    forall i, j | 0 <= i < j < |out|
      ensures Show(w, out[i]) != Show(w, out[j])
      ensures !Clash(w, pool, out[i], out[j])
    {
      assert !Clash(w, pool, eps[i], eps[j]);
      assert eps[i].url.host.Some? ==> Addresses(w, pool, eps[i]) != {};
    }
  }

  /** What an accepted pool looks like: the parsed endpoints of its layout, indexed in order,
      with ports filled in and free of conflicts. */
  ghost predicate Accepted(w: World, pool: nat, sets: seq<seq<string>>, serverPort: nat, out: seq<Endpoint>) {
    && AllParse(w, sets) && Placed(Concat(TaggedSets(w, pool, sets)), out, serverPort) && out != []
    && AllDistinct(w, out)
    && Resolves(w, pool, out) && NoSharedAddress(w, pool, out) && NoSharedLocalPath(w, out)
  }

  /** Same places and URLs, but for filled-in ports and the local flag. */
  ghost predicate Placed(eps: seq<Endpoint>, out: seq<Endpoint>, serverPort: nat) {
    |out| == |eps| && forall k :: 0 <= k < |eps| ==>
      out[k] == Filled(eps[k], serverPort).(isLocal := out[k].isLocal)
  }

  /** The conditions on a pool before its ports are filled in. */
  ghost predicate PoolClear(w: World, pool: nat, eps: seq<Endpoint>) {
    Resolves(w, pool, eps) && NoSharedAddress(w, pool, eps) && NoSharedLocalPath(w, eps) && !DifferentHosts(eps)
  }

  /** The port a URL ends up with: its own, or the server's, which is not kept where it is the
      default of the scheme. */
  ghost function FinalPort(u: Url, serverPort: nat): Option<nat> {
    if u.host.None? || u.port.Some? then u.port
    else if (u.scheme == Http && serverPort == 80) || (u.scheme == Https && serverPort == 443) then None
    else Some(serverPort)
  }

  /** A path is local; a URL is if its host is and it names no other port. */
  ghost predicate FinalLocal(w: World, u: Url, serverPort: nat) {
    u.host.Some? ==>
      && w.isLocalHost(u.host.value, if u.port.Some? then u.port.value else 0, serverPort) == Some(true)
      && (u.port.Some? ==> u.port.value == serverPort)
  }

  /** What becomes of a parsed endpoint. */
  ghost predicate Final(w: World, e: Endpoint, serverPort: nat, out: Endpoint) {
    && out.url.scheme == e.url.scheme && out.url.host == e.url.host && out.url.path == e.url.path
    && out.url.port == FinalPort(e.url, serverPort)
    && out.pool == e.pool && out.set_ == e.set_ && out.disk == e.disk
    && (out.isLocal <==> FinalLocal(w, e.url, serverPort))
  }

  lemma FilledIsFinal(w: World, e: Endpoint, located: Endpoint, serverPort: nat, out: Endpoint)
    requires WellFormed(e) && located == e.(isLocal := located.isLocal)
    requires LocalOf(w, located, serverPort) == Some(located.isLocal) && out == Filled(located, serverPort)
    ensures Final(w, e, serverPort, out)
  {
  }

  /** Every parsed endpoint of the pool, with the indexes of its place, has become what it should. */
  ghost predicate PoolFinal(w: World, pool: nat, sets: seq<seq<string>>, serverPort: nat, out: seq<Endpoint>) {
    && AllParse(w, sets) && |out| == |Concat(TaggedSets(w, pool, sets))|
    && forall k :: 0 <= k < |out| ==> Final(w, Concat(TaggedSets(w, pool, sets))[k], serverPort, out[k])
  }

  lemma CompletedIsFinal(w: World, pool: nat, sets: seq<seq<string>>, serverPort: nat, out: seq<Endpoint>)
    requires ValidWorld(w) && Completed(w, pool, sets, serverPort, out)
    ensures PoolFinal(w, pool, sets, serverPort, out)
  {
    var located :| Located(w, pool, sets, serverPort, located) && FilledFrom(located, out, serverPort);
    var tagged := Concat(TaggedSets(w, pool, sets));
    TaggedWellFormed(w, pool, sets);
    forall k | 0 <= k < |out| ensures Final(w, tagged[k], serverPort, out[k]) {
      FilledIsFinal(w, tagged[k], located[k], serverPort, out[k]);
    }
  }

  ghost predicate AllFinal(w: World, layout: Layout, serverPort: nat, pools: seq<seq<Endpoint>>) {
    |pools| == |layout| && forall p :: 0 <= p < |layout| ==> PoolFinal(w, p, layout[p], serverPort, pools[p])
  }

  /** The checks of one pool, and its ports. */
  method CheckPool(w: World, pool: nat, eps: seq<Endpoint>, serverPort: nat, servers: set<HostPort>)
    returns (r: Result<seq<Endpoint>, TopologyError>, all: set<HostPort>)
    requires ValidWorld(w) && HostlessAreLocal(eps)
    ensures r.Ok? <==> PoolClear(w, pool, eps)
    ensures r.Ok? ==> FilledFrom(eps, r.value, serverPort) && AllDistinct(w, r.value)
    ensures r.Ok? ==> Resolves(w, pool, r.value) && NoSharedAddress(w, pool, r.value) && NoSharedLocalPath(w, r.value)
    ensures r.Ok? ==> all == servers + set e | e in r.value :: ServerOf(e, serverPort)
  {
    all := servers;
    var ok, error := CheckAddresses(w, pool, eps);
    if !ok {
      return Err(error), all;
    }
    ok := CheckLocalPaths(w, eps);
    if !ok {
      return Err(SharedLocalPath), all;
    }
    ok := CheckLocalHosts(eps);
    if !ok {
      return Err(DifferentLocalHosts), all;
    }
    var out;
    out, all := FillPorts(eps, serverPort, servers);
    PoolDistinct(w, pool, eps, out, serverPort);
    r := Ok(out);
  }

  // ---------------------------------------------------------------- all pools

  type Layout = seq<seq<seq<string>>>

  predicate EmptyLayout(layout: Layout) {
    layout == [] || layout[0] == [] || layout[0][0] == [] || layout[0][0][0] == ""
  }

  predicate SingleDrive(layout: Layout) {
    |layout| == 1 && |layout[0]| == 1 && |layout[0][0]| == 1
  }

  /** Reads the pools of the layout. */
  method BuildPools(w: World, layout: Layout) returns (r: Result<seq<seq<Endpoint>>, TopologyError>)
    ensures r.Ok? <==> forall p :: 0 <= p < |layout| ==> PoolReadable(w, layout[p])
    ensures r.Ok? ==> |r.value| == |layout| && forall p :: 0 <= p < |layout| ==> Built(w, p, layout[p], r.value[p])
  {
    var pools: seq<seq<Endpoint>> := [];
    for p := 0 to |layout|
      invariant |pools| == p
      invariant forall q :: 0 <= q < p ==> PoolReadable(w, layout[q]) && Built(w, q, layout[q], pools[q])
    {
      var built := BuildPool(w, p, layout[p]);
      if built.Err? {
        return Err(built.error);
      }
      pools := pools + [built.value];
    }
    r := Ok(pools);
  }

  ghost predicate Built(w: World, pool: nat, sets: seq<seq<string>>, eps: seq<Endpoint>) {
    AllParse(w, sets) && eps == Concat(TaggedSets(w, pool, sets)) && eps != []
  }

  /** Finds out which endpoints are local. */
  method LocatePools(w: World, layout: Layout, built: seq<seq<Endpoint>>, serverPort: nat)
    returns (r: Result<seq<seq<Endpoint>>, TopologyError>)
    requires ValidWorld(w) && |built| == |layout| && forall p :: 0 <= p < |layout| ==> Built(w, p, layout[p], built[p])
    ensures r.Ok? <==> forall p :: 0 <= p < |layout| ==> Locatable(w, p, layout[p], serverPort)
    ensures r.Ok? ==> |r.value| == |layout|
    ensures r.Ok? ==> forall p :: 0 <= p < |layout| ==> Located(w, p, layout[p], serverPort, r.value[p])
  {
    var pools := built;
    for p := 0 to |layout|
      invariant |pools| == |layout|
      invariant forall q :: 0 <= q < p ==> Located(w, q, layout[q], serverPort, pools[q])
      invariant forall q :: p <= q < |layout| ==> pools[q] == built[q]
    {
      var located := UpdateIsLocal(w, pools[p], serverPort);
      if located.Err? {
        NotLocatable(w, p, layout[p], serverPort, built[p]);
        return Err(located.error);
      }
      pools := pools[p := located.value];
    }
    r := Ok(pools);
  }

  /** The indexed endpoints of a pool with their local flags set. */
  ghost predicate Located(w: World, pool: nat, sets: seq<seq<string>>, serverPort: nat, eps: seq<Endpoint>) {
    && AllParse(w, sets) && SameButLocal(Concat(TaggedSets(w, pool, sets)), eps) && eps != []
    && forall i :: 0 <= i < |eps| ==> LocalOf(w, eps[i], serverPort) == Some(eps[i].isLocal)
  }

  ghost predicate Locatable(w: World, pool: nat, sets: seq<seq<string>>, serverPort: nat) {
    exists eps :: Located(w, pool, sets, serverPort, eps)
  }

  lemma NotLocatable(w: World, pool: nat, sets: seq<seq<string>>, serverPort: nat, built: seq<Endpoint>)
    requires Built(w, pool, sets, built) && exists i :: 0 <= i < |built| && LocalOf(w, built[i], serverPort).None?
    ensures !Locatable(w, pool, sets, serverPort)
  {
    var i :| 0 <= i < |built| && LocalOf(w, built[i], serverPort).None?;
    forall eps: seq<Endpoint> ensures !Located(w, pool, sets, serverPort, eps) {
      assert |eps| == |built| ==> eps[i] != built[i].(isLocal := eps[i].isLocal) || LocalOf(w, eps[i], serverPort).None?;
    }
  }

  /** A pool can be located in one way only. */
  lemma LocatedOnce(w: World, pool: nat, sets: seq<seq<string>>, serverPort: nat, a: seq<Endpoint>, b: seq<Endpoint>)
    requires Located(w, pool, sets, serverPort, a) && Located(w, pool, sets, serverPort, b)
    ensures a == b
  {
    var built := Concat(TaggedSets(w, pool, sets));
    forall i | 0 <= i < |a| ensures a[i] == b[i] {
      assert a[i] == built[i].(isLocal := a[i].isLocal) && b[i] == built[i].(isLocal := b[i].isLocal);
      assert LocalOf(w, a[i], serverPort) == LocalOf(w, b[i], serverPort);
    }
  }

  lemma LocatedPool(w: World, pool: nat, sets: seq<seq<string>>, serverPort: nat, eps: seq<Endpoint>)
    requires ValidWorld(w) && Located(w, pool, sets, serverPort, eps)
    ensures HostlessAreLocal(eps)
  {
    TaggedWellFormed(w, pool, sets);
  }

  lemma {:induction false} TaggedWellFormed(w: World, pool: nat, sets: seq<seq<string>>)
    requires ValidWorld(w) && AllParse(w, sets)
    ensures forall i :: 0 <= i < |Concat(TaggedSets(w, pool, sets))| ==> WellFormed(Concat(TaggedSets(w, pool, sets))[i])
    decreases |sets|
  {
    if sets != [] {
      var n := |sets| - 1;
      assert sets[..n + 1] == sets;
      TaggedOneMore(w, pool, sets, n);
      TaggedWellFormed(w, pool, sets[..n]);
    }
  }

  /** The distinct servers named by the endpoints of the pools. */
  ghost function ServersOf(pools: seq<seq<Endpoint>>, serverPort: nat): set<HostPort> {
    if pools == [] then {}
    else ServersOf(pools[..|pools| - 1], serverPort) + set e | e in pools[|pools| - 1] :: ServerOf(e, serverPort)
  }

  ghost predicate AllAccepted(w: World, layout: Layout, serverPort: nat, pools: seq<seq<Endpoint>>) {
    |pools| == |layout| && forall p :: 0 <= p < |layout| ==> Accepted(w, p, layout[p], serverPort, pools[p])
  }

  /** Distributed exactly when URL endpoints name more than one server. */
  ghost predicate SetupFits(layout: Layout, serverPort: nat, pools: seq<seq<Endpoint>>, setup: SetupType) {
    if SingleDrive(layout) then setup == ErasureSD
    else
      && pools != [] && pools[0] != []
      && setup == if IsUrl(pools[0][0]) && |ServersOf(pools, serverPort)| != 1 then DistErasure else Erasure
  }

  /** The pool can be located and is then free of conflicts. */
  ghost predicate Clear(w: World, pool: nat, sets: seq<seq<string>>, serverPort: nat) {
    exists eps :: Located(w, pool, sets, serverPort, eps) && PoolClear(w, pool, eps)
  }

  /** What a layout must satisfy, apart from being a single drive. */
  ghost predicate PoolsClear(w: World, layout: Layout, serverPort: nat) {
    && (forall p :: 0 <= p < |layout| ==> PoolReadable(w, layout[p]))
    && (forall p :: 0 <= p < |layout| ==> Clear(w, p, layout[p], serverPort))
  }

  ghost predicate DrivePath(w: World, drive: string) {
    w.parse(drive).Some? && w.parse(drive).value.url.scheme.File?
  }

  /** The layouts that are accepted; the port is that of the server address, if it is a local one. */
  ghost predicate Creatable(w: World, layout: Layout, port: Option<nat>) {
    && !EmptyLayout(layout) && port.Some?
    && if SingleDrive(layout) then DrivePath(w, layout[0][0][0]) else PoolsClear(w, layout, port.value)
  }

  /** The endpoints of a pool as located, with their ports filled in. */
  ghost predicate Completed(w: World, pool: nat, sets: seq<seq<string>>, serverPort: nat, out: seq<Endpoint>) {
    exists eps :: Located(w, pool, sets, serverPort, eps) && FilledFrom(eps, out, serverPort)
  }

  ghost predicate PoolDone(w: World, pool: nat, sets: seq<seq<string>>, serverPort: nat, out: seq<Endpoint>) {
    && Clear(w, pool, sets, serverPort)
    && Accepted(w, pool, sets, serverPort, out) && Completed(w, pool, sets, serverPort, out)
  }

  ghost predicate AllDone(w: World, layout: Layout, serverPort: nat, pools: seq<seq<Endpoint>>)
    requires |pools| <= |layout|
  {
    pools != [] ==>
      var p := |pools| - 1;
      AllDone(w, layout, serverPort, pools[..p]) && PoolDone(w, p, layout[p], serverPort, pools[p])
  }

  lemma {:induction false} EachDone(w: World, layout: Layout, serverPort: nat, pools: seq<seq<Endpoint>>)
    requires |pools| <= |layout| && AllDone(w, layout, serverPort, pools)
    ensures forall p :: 0 <= p < |pools| ==> PoolDone(w, p, layout[p], serverPort, pools[p])
    decreases |pools|
  {
    if pools != [] {
      EachDone(w, layout, serverPort, pools[..|pools| - 1]);
    }
  }

  /** Checks a located pool and fills in its ports. */
  method CompletePool(
    w: World, pool: nat, ghost sets: seq<seq<string>>, eps: seq<Endpoint>, serverPort: nat, servers: set<HostPort>)
    returns (r: Result<seq<Endpoint>, TopologyError>, all: set<HostPort>)
    requires ValidWorld(w) && Located(w, pool, sets, serverPort, eps)
    ensures r.Ok? <==> Clear(w, pool, sets, serverPort)
    ensures r.Ok? ==> PoolDone(w, pool, sets, serverPort, r.value)
    ensures r.Ok? ==> all == servers + set e | e in r.value :: ServerOf(e, serverPort)
  {
    LocatedPool(w, pool, sets, serverPort, eps);
    ClearIff(w, pool, sets, serverPort, eps);
    r, all := CheckPool(w, pool, eps, serverPort, servers);
    if r.Ok? {
      PlacedPool(Concat(TaggedSets(w, pool, sets)), eps, r.value, serverPort);
    }
  }

  /** Checks the located pools one by one. */
  method CheckPools(w: World, layout: Layout, located: seq<seq<Endpoint>>, serverPort: nat)
    returns (r: Result<seq<seq<Endpoint>>, TopologyError>, servers: set<HostPort>)
    requires ValidWorld(w) && |located| == |layout|
    requires forall p :: 0 <= p < |layout| ==> Located(w, p, layout[p], serverPort, located[p])
    ensures r.Ok? <==> forall p :: 0 <= p < |layout| ==> Clear(w, p, layout[p], serverPort)
    ensures r.Ok? ==> AllAccepted(w, layout, serverPort, r.value) && servers == ServersOf(r.value, serverPort)
    ensures r.Ok? ==> AllFinal(w, layout, serverPort, r.value)
  {
    var pools: seq<seq<Endpoint>> := [];
    servers := {};
    for p := 0 to |layout|
      invariant |pools| == p && AllDone(w, layout, serverPort, pools)
      invariant servers == ServersOf(pools, serverPort)
    {
      var checked;
      checked, servers := CompletePool(w, p, layout[p], located[p], serverPort, servers);
      if checked.Err? {
        return Err(checked.error), servers;
      }
      assert (pools + [checked.value])[..p] == pools;
      pools := pools + [checked.value];
    }
    EachDone(w, layout, serverPort, pools);
    DoneIsFinal(w, layout, serverPort, pools);
    r := Ok(pools);
  }

  lemma DoneIsFinal(w: World, layout: Layout, serverPort: nat, pools: seq<seq<Endpoint>>)
    requires ValidWorld(w) && |pools| == |layout|
    requires forall p :: 0 <= p < |layout| ==> PoolDone(w, p, layout[p], serverPort, pools[p])
    ensures AllFinal(w, layout, serverPort, pools)
  {
    forall p | 0 <= p < |layout| ensures PoolFinal(w, p, layout[p], serverPort, pools[p]) {
      CompletedIsFinal(w, p, layout[p], serverPort, pools[p]);
    }
  }

  lemma ClearIff(w: World, pool: nat, sets: seq<seq<string>>, serverPort: nat, eps: seq<Endpoint>)
    requires Located(w, pool, sets, serverPort, eps)
    ensures Clear(w, pool, sets, serverPort) <==> PoolClear(w, pool, eps)
  {
    if Clear(w, pool, sets, serverPort) {
      var other :| Located(w, pool, sets, serverPort, other) && PoolClear(w, pool, other);
      LocatedOnce(w, pool, sets, serverPort, eps, other);
    }
  }

  /** `create_pool_endpoints` accepts exactly the layouts without conflict. */
  method CreatePools(w: World, layout: Layout, port: Option<nat>)
    returns (r: Result<seq<seq<Endpoint>>, TopologyError>, setup: SetupType)
    requires ValidWorld(w)
    ensures r.Ok? <==> Creatable(w, layout, port)
    ensures r.Ok? ==> layout != [] && AllAccepted(w, layout, port.value, r.value)
    ensures r.Ok? ==> AllFinal(w, layout, port.value, r.value)
    ensures r.Ok? ==> SetupFits(layout, port.value, r.value, setup)
  {
    setup := Erasure;
    if EmptyLayout(layout) {
      return Err(NoEndpoints), setup;
    }
    if port.None? {
      return Err(BadServerAddress), setup;
    }
    if SingleDrive(layout) {
      r := SinglePool(w, layout[0], port.value);
      return r, ErasureSD;
    }
    r, setup := CreateSeveral(w, layout, port.value);
  }

  /** The pools of a layout that is not a single drive. */
  method CreateSeveral(w: World, layout: Layout, serverPort: nat)
    returns (r: Result<seq<seq<Endpoint>>, TopologyError>, setup: SetupType)
    requires ValidWorld(w) && layout != [] && !SingleDrive(layout)
    ensures r.Ok? <==> PoolsClear(w, layout, serverPort)
    ensures r.Ok? ==> AllAccepted(w, layout, serverPort, r.value) && AllFinal(w, layout, serverPort, r.value)
    ensures r.Ok? ==> SetupFits(layout, serverPort, r.value, setup)
  {
    setup := Erasure;
    r := BuildPools(w, layout);
    if r.Err? {
      return r, setup;
    }
    r := LocatePools(w, layout, r.value, serverPort);
    if r.Err? {
      return r, setup;
    }
    var servers;
    r, servers := CheckPools(w, layout, r.value, serverPort);
    if r.Ok? && IsUrl(r.value[0][0]) && |servers| != 1 {
      setup := DistErasure;
    }
  }

  lemma PlacedPool(tagged: seq<Endpoint>, located: seq<Endpoint>, out: seq<Endpoint>, serverPort: nat)
    requires SameButLocal(tagged, located) && FilledFrom(located, out, serverPort)
    ensures Placed(tagged, out, serverPort)
  {
  }

  /** The single-drive layout takes a path and nothing else. */
  method SinglePool(w: World, sets: seq<seq<string>>, serverPort: nat) returns (r: Result<seq<seq<Endpoint>>, TopologyError>)
    requires |sets| == 1 && |sets[0]| == 1
    requires ValidWorld(w)
    ensures r.Ok? ==> |r.value| == 1 && Accepted(w, 0, sets, serverPort, r.value[0])
    ensures r.Ok? ==> PoolFinal(w, 0, sets, serverPort, r.value[0])
    ensures r.Ok? <==> DrivePath(w, sets[0][0])
  {
    var parsed := w.parse(sets[0][0]);
    if parsed.None? {
      return Err(BadEndpoint);
    }
    var endpoint := parsed.value;
    if IsUrl(endpoint) {
      return Err(PathStyleNeeded);
    }
    endpoint := endpoint.(pool := 0, set_ := 0, disk := 0);
    assert sets[..0] == [] && sets[..1] == sets;
    TaggedOneMore(w, 0, sets, 0);
    assert Concat(TaggedSets(w, 0, sets)) == [endpoint];
    r := Ok([[endpoint]]);
  }

  // ---------------------------------------------------------------- the setup type

  /** The host and port that tell servers apart; a path stands for this server. */
  ghost predicate SameServer(e: Endpoint, f: Endpoint, serverPort: nat) {
    && (if e.url.host.Some? then e.url.host.value else "localhost")
       == (if f.url.host.Some? then f.url.host.value else "localhost")
    && (if e.url.host.Some? then e.url.port else Some(serverPort))
       == (if f.url.host.Some? then f.url.port else Some(serverPort))
  }

  ghost predicate InSome(pools: seq<seq<Endpoint>>, e: Endpoint) {
    exists p :: 0 <= p < |pools| && e in pools[p]
  }

  lemma {:induction false} ServersOfIff(pools: seq<seq<Endpoint>>, serverPort: nat, x: HostPort)
    ensures x in ServersOf(pools, serverPort) <==> exists e :: InSome(pools, e) && ServerOf(e, serverPort) == x
    decreases |pools|
  {
    if pools != [] {
      var n := |pools| - 1;
      ServersOfIff(pools[..n], serverPort, x);
      forall e ensures InSome(pools, e) <==> InSome(pools[..n], e) || e in pools[n] {
        if p :| 0 <= p < |pools| && e in pools[p] {
          assert p == n || e in pools[..n][p];
        }
      }
    }
  }

  lemma NotOneElement<T>(S: set<T>, x: T)
    requires x in S
    ensures |S| != 1 <==> exists y :: y in S && y != x
  {
    if y :| y in S && y != x {
      assert {x, y} <= S && |{x, y}| == 2;
      CardinalityMonotone({x, y}, S);
    } else {
      assert S == {x};
    }
  }

  lemma CardinalityMonotone<T>(A: set<T>, B: set<T>)
    requires A <= B
    ensures |A| <= |B|
  {
    assert B == A + (B - A);
  }

  /** A cluster is distributed if and only if it is not a single drive, its first endpoint is a
      URL, and some endpoint is on another server than the first. */
  lemma DistributedIff(layout: Layout, serverPort: nat, pools: seq<seq<Endpoint>>, setup: SetupType)
    requires SetupFits(layout, serverPort, pools, setup) && pools != [] && pools[0] != []
    ensures setup == DistErasure <==>
              && !SingleDrive(layout) && pools[0][0].url.scheme != File
              && exists e :: InSome(pools, e) && !SameServer(e, pools[0][0], serverPort)
  {
    var first := pools[0][0];
    var servers := ServersOf(pools, serverPort);
    assert InSome(pools, first) by {
      assert first in pools[0];
    }
    ServersOfIff(pools, serverPort, ServerOf(first, serverPort));
    NotOneElement(servers, ServerOf(first, serverPort));
    if y :| y in servers && y != ServerOf(first, serverPort) {
      ServersOfIff(pools, serverPort, y);
    }
    if e :| InSome(pools, e) && !SameServer(e, first, serverPort) {
      ServersOfIff(pools, serverPort, ServerOf(e, serverPort));
    }
  }

  // ---------------------------------------------------------------- the cluster

  datatype PoolEndpoints = PoolEndpoints(setCount: nat, drivesPerSet: nat, endpoints: seq<Endpoint>)

  ghost predicate Apart(w: World, a: seq<Endpoint>, b: seq<Endpoint>) {
    forall i, j :: 0 <= i < |a| && 0 <= j < |b| ==> Show(w, a[i]) != Show(w, b[j])
  }

  /** No endpoint of the cluster prints like another one, in the same pool or elsewhere. */
  ghost predicate ClusterDistinct(w: World, pools: seq<PoolEndpoints>) {
    && (forall p :: 0 <= p < |pools| ==> AllDistinct(w, pools[p].endpoints))
    && (forall p, q :: 0 <= p < q < |pools| ==> Apart(w, pools[p].endpoints, pools[q].endpoints))
  }

  class EndpointServerPools {
    const w: World
    var pools: seq<PoolEndpoints>

    constructor (w: World)
      ensures this.w == w && pools == []
    {
      this.w := w;
      pools := [];
    }

    ghost predicate ShownIn(x: Shown, p: nat)
      reads this
    {
      p < |pools| && exists i :: 0 <= i < |pools[p].endpoints| && Show(w, pools[p].endpoints[i]) == x
    }

    /** Everything the pools print. */
    method AllShown() returns (shown: set<Shown>)
      ensures forall x :: x in shown <==> exists p: nat :: ShownIn(x, p)
    {
      shown := {};
      for p := 0 to |pools|
        invariant forall x :: x in shown <==> exists q: nat :: q < p && ShownIn(x, q)
      {
        ghost var before := shown;
        var eps := pools[p].endpoints;
        for i := 0 to |eps|
          invariant forall x :: x in shown <==> x in before || exists k :: 0 <= k < i && Show(w, eps[k]) == x
        {
          shown := shown + {Show(w, eps[i])};
        }
        forall x
          ensures x in shown <==> exists q: nat :: q < p + 1 && ShownIn(x, q)
        {
          assert x in shown <==> x in before || ShownIn(x, p);
          if q: nat :| q < p + 1 && ShownIn(x, q) {
            assert q == p || x in before;
          }
        }
      }
    }

    /** Adds a pool unless it repeats an endpoint that is already there. */
    method Add(eps: PoolEndpoints) returns (ok: bool)
      modifies this`pools
      ensures ok <==> forall p :: 0 <= p < |old(pools)| ==> Apart(w, old(pools)[p].endpoints, eps.endpoints)
      ensures pools == if ok then old(pools) + [eps] else old(pools)
    {
      var present := AllShown();
      for i := 0 to |eps.endpoints|
        invariant forall k :: 0 <= k < i ==> Show(w, eps.endpoints[k]) !in present
      {
        if Show(w, eps.endpoints[i]) in present {
          ghost var p: nat :| ShownIn(Show(w, eps.endpoints[i]), p);
          return false;
        }
      }
      forall p | 0 <= p < |pools| ensures Apart(w, pools[p].endpoints, eps.endpoints) {
        forall i, j | 0 <= i < |pools[p].endpoints| && 0 <= j < |eps.endpoints|
          ensures Show(w, pools[p].endpoints[i]) != Show(w, eps.endpoints[j])
        {
          assert ShownIn(Show(w, pools[p].endpoints[i]), p);
        }
      }
      pools := pools + [eps];
      ok := true;
    }

    /** The loop of `create_server_endpoints`. */
    method AddAll(layout: Layout, created: seq<seq<Endpoint>>) returns (ok: bool)
      requires pools == [] && |created| == |layout|
      requires forall p :: 0 <= p < |created| ==> AllDistinct(w, created[p])
      modifies this`pools
      ensures ok <==> forall p, q :: 0 <= p < q < |created| ==> Apart(w, created[p], created[q])
      ensures ok ==> ClusterDistinct(w, pools) && Shaped(layout, created, pools, |layout|)
    {
      for p := 0 to |layout|
        invariant ClusterDistinct(w, pools) && Shaped(layout, created, pools, p)
      {
        var drives := if layout[p] == [] then 0 else |layout[p][0]|;
        var eps := PoolEndpoints(|layout[p]|, drives, created[p]);
        ghost var before := pools;
        var added := Add(eps);
        if !added {
          return false;
        }
        ClusterExtend(w, before, eps);
      }
      ok := true;
    }

    /** `create_server_endpoints`: an accepted cluster has accepted pools, no endpoint twice,
        and pool shapes taken from the layout. */
    method Create(layout: Layout, port: Option<nat>) returns (ok: bool, setup: SetupType, ghost accepted: seq<seq<Endpoint>>)
      requires pools == [] && ValidWorld(w)
      modifies this`pools
      ensures ok <==> Creatable(w, layout, port)
                      && forall p, q :: 0 <= p < q < |accepted| ==> Apart(w, accepted[p], accepted[q])
      ensures Creatable(w, layout, port) ==>
                && AllAccepted(w, layout, port.value, accepted) && AllFinal(w, layout, port.value, accepted)
                && SetupFits(layout, port.value, accepted, setup)
      ensures ok ==> ClusterDistinct(w, pools) && Shaped(layout, accepted, pools, |layout|)
    {
      var created;
      created, setup := CreatePools(w, layout, port);
      if created.Err? {
        return false, setup, [];
      }
      accepted := created.value;
      AcceptedDistinct(w, layout, port.value, created.value);
      ok := AddAll(layout, created.value);
    }

    /** From the command line on: a cluster is made exactly when the arguments can be laid out,
        the pools accepted, and the pools are pairwise apart; and then every endpoint of every
        pool carries the pool, set and disk index of its place. */
    method FromVolumes(x: Syntax, args: seq<string>, driveCount: Option<nat>, port: Option<nat>)
      returns (ok: bool, setup: SetupType, ghost layout: Layout, ghost sizes: seq<nat>, ghost accepted: seq<seq<Endpoint>>)
      requires pools == [] && ValidWorld(w) && ValidSyntax(x)
      modifies this`pools
      ensures Layable(x, args, driveCount) ==> LaidOut(x, args, driveCount, layout, sizes, |PoolArgs(x, args)|)
      ensures ok <==> Layable(x, args, driveCount) && Creatable(w, layout, port)
                      && forall p, q :: 0 <= p < q < |accepted| ==> Apart(w, accepted[p], accepted[q])
      ensures Layable(x, args, driveCount) && Creatable(w, layout, port) ==>
                && AllAccepted(w, layout, port.value, accepted) && AllFinal(w, layout, port.value, accepted)
                && SetupFits(layout, port.value, accepted, setup)
      ensures ok ==> ClusterDistinct(w, pools) && Shaped(layout, accepted, pools, |layout|)
      ensures ok ==> |pools| == |sizes| && forall p :: 0 <= p < |pools| ==> InPlace(pools[p], p, sizes[p])
    {
      var laid;
      laid, sizes := DisksLayout.FromVolumes(x, args, driveCount);
      if laid.Err? {
        return false, Erasure, [], sizes, [];
      }
      layout := laid.value;
      ok, setup, accepted := Create(laid.value, port);
      if ok {
        forall p | 0 <= p < |pools| ensures InPlace(pools[p], p, sizes[p]) {
          assert CutRight(driveCount.value, PoolArgs(x, args)[p], layout[p], sizes[p]);
          PoolInPlace(w, p, layout[p], port.value, accepted[p], sizes[p]);
        }
      }
    }
  }

  /** Every endpoint of the pool carries the indexes of its place in sets of size s. */
  ghost predicate InPlace(pool: PoolEndpoints, p: nat, s: nat) {
    && s > 0 && pool.drivesPerSet == s && pool.setCount * s == |pool.endpoints|
    && forall k: nat :: k < |pool.endpoints| ==> AtPlace(pool.endpoints[k], p, k / s, k % s)
  }

  predicate AtPlace(e: Endpoint, p: nat, q: nat, d: nat) {
    e.pool == p && e.set_ == q && e.disk == d
  }

  lemma PoolInPlace(w: World, p: nat, sets: seq<seq<string>>, port: nat, out: seq<Endpoint>, s: nat)
    requires Accepted(w, p, sets, port, out)
    requires s > 0 && forall q :: 0 <= q < |sets| ==> |sets[q]| == s
    ensures InPlace(PoolEndpoints(|sets|, if sets == [] then 0 else |sets[0]|, out), p, s)
  {
    AcceptedIndexes(w, p, sets, port, out, s, 0);
    forall k: nat | k < |out| ensures AtPlace(out[k], p, k / s, k % s) {
      AcceptedIndexes(w, p, sets, port, out, s, k);
    }
  }

  lemma AcceptedDistinct(w: World, layout: Layout, serverPort: nat, pools: seq<seq<Endpoint>>)
    requires AllAccepted(w, layout, serverPort, pools)
    ensures forall p :: 0 <= p < |pools| ==> AllDistinct(w, pools[p])
  {
  }

  lemma ClusterExtend(w: World, pools: seq<PoolEndpoints>, eps: PoolEndpoints)
    requires ClusterDistinct(w, pools) && AllDistinct(w, eps.endpoints)
    requires forall p :: 0 <= p < |pools| ==> Apart(w, pools[p].endpoints, eps.endpoints)
    ensures ClusterDistinct(w, pools + [eps])
  {
  }

  /** The first n pools carry the created endpoints and the shape of the layout. */
  ghost predicate Shaped(layout: Layout, created: seq<seq<Endpoint>>, pools: seq<PoolEndpoints>, n: nat) {
    && n == |pools| <= |layout| == |created|
    && forall p :: 0 <= p < n ==>
         pools[p] == PoolEndpoints(|layout[p]|, if layout[p] == [] then 0 else |layout[p][0]|, created[p])
  }

  /** In an accepted pool whose sets have one size, the k-th endpoint is disk k % s of set
      k / s of that pool, and set count times drives per set is the pool size. */
  lemma AcceptedIndexes(w: World, pool: nat, sets: seq<seq<string>>, serverPort: nat, out: seq<Endpoint>, s: nat, k: nat)
    requires Accepted(w, pool, sets, serverPort, out)
    requires s > 0 && (forall q :: 0 <= q < |sets| ==> |sets[q]| == s) && k < |out|
    ensures |sets| * |sets[0]| == |out|
    ensures out[k].pool == pool && out[k].set_ == k / s && out[k].disk == k % s
  {
    PoolIndexes(w, pool, sets, s, k);
  }
}
