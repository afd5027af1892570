/** `routerValidationState`: the incremental maps that decide pairwise router compatibility (domain/traffic.go). */
module TrafficRouters {
  import opened Text
  import opened ServerNames
  import opened Traffic

  type Names = map<string, string>
  type NamesByEntryPoint = map<string, Names>

  /** A lookup in a nested Go map: missing entries read as the empty string. */
  function Lookup(m: NamesByEntryPoint, entryPoint: string, key: string): string {
    if entryPoint in m && key in m[entryPoint] then m[entryPoint][key] else ""
  }

  function Inner(m: NamesByEntryPoint, entryPoint: string): Names {
    if entryPoint in m then m[entryPoint] else map[]
  }

  /** `putNested`. */
  function PutNested(m: NamesByEntryPoint, entryPoint: string, key: string, value: string): NamesByEntryPoint {
    m[entryPoint := Inner(m, entryPoint)[key := value]]
  }

  /** `index` maps exactly the keys that the accepted routers satisfying `has` produce, to non-empty names. */
  ghost predicate Indexes(index: NamesByEntryPoint, accepted: seq<Router>, has: Router -> bool, key: Router -> string) {
    && (forall e, k :: Lookup(index, e, k) != "" <==>
            exists r :: r in accepted && has(r) && r.entryPoint == e && key(r) == k)
    && (forall e, k :: e in index && k in index[e] ==> index[e][k] != "")
  }

  ghost predicate IndexesFlat(index: Names, accepted: seq<Router>, has: Router -> bool) {
    && (forall e :: e in index <==> exists r :: r in accepted && has(r) && r.entryPoint == e)
    && (forall e :: e in index ==> index[e] != "")
  }

  ghost predicate IndexesNames(index: map<string, Router>, accepted: seq<Router>) {
    && (forall n :: n in index <==> exists r :: r in accepted && r.name == n)
    && (forall n :: n in index ==> index[n] in accepted && index[n].name == n)
  }

  /** The inner map of an entry point holds a key exactly when an accepted router produces it. */
  lemma InnerKeys(index: NamesByEntryPoint, accepted: seq<Router>, has: Router -> bool, key: Router -> string,
                  e: string)
    requires Indexes(index, accepted, has, key)
    ensures forall k :: k in Inner(index, e) <==> Lookup(index, e, k) != ""
    ensures forall a :: a in accepted && has(a) && a.entryPoint == e ==> key(a) in Inner(index, e)
    ensures forall k :: k in Inner(index, e) ==> exists a :: a in accepted && has(a) && a.entryPoint == e && key(a) == k
  {
  }

  lemma IndexSkips(index: NamesByEntryPoint, accepted: seq<Router>, has: Router -> bool, key: Router -> string,
                   r: Router)
    requires Indexes(index, accepted, has, key) && !has(r)
    ensures Indexes(index, accepted + [r], has, key)
  {
  }

  lemma IndexTakes(index: NamesByEntryPoint, accepted: seq<Router>, has: Router -> bool, key: Router -> string,
                   r: Router)
    requires Indexes(index, accepted, has, key) && has(r) && r.name != ""
    ensures Indexes(PutNested(index, r.entryPoint, key(r), r.name), accepted + [r], has, key)
  {
    var index' := PutNested(index, r.entryPoint, key(r), r.name);
    assert (accepted + [r])[|accepted|] == r;
    forall e, k
      ensures Lookup(index', e, k) != "" <==>
              exists x :: x in accepted + [r] && has(x) && x.entryPoint == e && key(x) == k
    {
      assert Lookup(index', e, k) == if e == r.entryPoint && k == key(r) then r.name else Lookup(index, e, k);
      if x :| x in accepted && has(x) && x.entryPoint == e && key(x) == k { assert x in accepted + [r]; }
    }
  }

  lemma FlatTakes(index: Names, accepted: seq<Router>, has: Router -> bool, r: Router)
    requires IndexesFlat(index, accepted, has) && r.name != ""
    ensures IndexesFlat(if has(r) then index[r.entryPoint := r.name] else index, accepted + [r], has)
  {
    assert (accepted + [r])[|accepted|] == r;
    assert forall x :: x in accepted ==> x in accepted + [r];
  }

  predicate IsTCP(r: Router) { r.protocol.RouteTCP? }

  predicate IsUDP(r: Router) { r.protocol.RouteUDP? }

  method MatchingWildcardSNI(host: string, wildcards: Names) returns (found: string)
    ensures found != "" ==> found in wildcards && HostMatchesWildcard(host, found)
    ensures found == "" ==> forall w :: w in wildcards ==> !HostMatchesWildcard(host, w)
  {
    var todo := wildcards.Keys;
    while todo != {}
      invariant todo <= wildcards.Keys
      invariant forall w :: w in wildcards && w !in todo ==> !HostMatchesWildcard(host, w)
    {
      var w :| w in todo;
      if HostMatchesWildcard(host, w) {
        return w;
      }
      todo := todo - {w};
    }
    return "";
  }

  method MatchingHTTPHost(wildcard: string, hosts: Names) returns (found: string)
    ensures found != "" ==> found in hosts && HostMatchesWildcard(found, wildcard)
    ensures found == "" ==> forall h :: h in hosts ==> !HostMatchesWildcard(h, wildcard)
  {
    var todo := hosts.Keys;
    while todo != {}
      invariant todo <= hosts.Keys
      invariant forall h :: h in hosts && h !in todo ==> !HostMatchesWildcard(h, wildcard)
    {
      var h :| h in todo;
      if HostMatchesWildcard(h, wildcard) {
        return h;
      }
      todo := todo - {h};
    }
    return "";
  }

  method OverlappingWildcardSNI(wildcard: string, wildcards: Names) returns (found: string)
    ensures found != "" ==> found in wildcards && WildcardSNIOverlap(wildcard, found)
    ensures found == "" ==> forall w :: w in wildcards ==> !WildcardSNIOverlap(wildcard, w)
  {
    var todo := wildcards.Keys;
    while todo != {}
      invariant todo <= wildcards.Keys
      invariant forall w :: w in wildcards && w !in todo ==> !WildcardSNIOverlap(wildcard, w)
    {
      var w :| w in todo;
      if WildcardSNIOverlap(wildcard, w) {
        return w;
      }
      todo := todo - {w};
    }
    return "";
  }

  class RouterValidationState {
    ghost var accepted: seq<Router>
    var routersByName: map<string, Router>
    var exactSNI: NamesByEntryPoint
    var wildSNI: NamesByEntryPoint
    var httpHosts: NamesByEntryPoint
    var tcpRouters: Names
    var udpRouters: Names

    ghost predicate Valid()
      reads this
    {
      && IndexesNames(routersByName, accepted)
      && Indexes(exactSNI, accepted, IsExactPassthrough, SNI)
      && Indexes(wildSNI, accepted, IsWildcardPassthrough, SNI)
      && Indexes(httpHosts, accepted, OwnsHost, Host)
      && IndexesFlat(tcpRouters, accepted, IsTCP)
      && IndexesFlat(udpRouters, accepted, IsUDP)
    }

    constructor ()
      ensures Valid() && accepted == []
    {
      accepted, routersByName := [], map[];
      exactSNI, wildSNI, httpHosts := map[], map[], map[];
      tcpRouters, udpRouters := map[], map[];
    }

    /** `validateHTTPRule` for a router with a host, up to the point where it records the host. */
    method HTTPHostIsFree(r: Router) returns (ok: bool)
      requires Valid() && OwnsHost(r)
      ensures ok <==> forall a :: a in accepted && a.entryPoint == r.entryPoint ==> !RulesConflict(a, r)
    {
      var host := NormalizeHost(r.host);
      InnerKeys(httpHosts, accepted, OwnsHost, Host, r.entryPoint);
      InnerKeys(exactSNI, accepted, IsExactPassthrough, SNI, r.entryPoint);
      InnerKeys(wildSNI, accepted, IsWildcardPassthrough, SNI, r.entryPoint);
      if Lookup(httpHosts, r.entryPoint, host) != "" {
        return false;
      }
      if Lookup(exactSNI, r.entryPoint, host) != "" {
        return false;
      }
      var wildcard := MatchingWildcardSNI(host, Inner(wildSNI, r.entryPoint));
      return wildcard == "";
    }

    /** `validateWildcardSNI`, up to the point where it records the wildcard. */
    method WildcardIsFree(r: Router) returns (ok: bool)
      requires Valid() && IsWildcardPassthrough(r)
      ensures ok <==> forall a :: a in accepted && a.entryPoint == r.entryPoint ==> !RulesConflict(a, r)
    {
      var sni := NormalizeHost(r.sni);
      InnerKeys(httpHosts, accepted, OwnsHost, Host, r.entryPoint);
      InnerKeys(wildSNI, accepted, IsWildcardPassthrough, SNI, r.entryPoint);
      if Lookup(wildSNI, r.entryPoint, sni) != "" {
        return false;
      }
      var overlapping := OverlappingWildcardSNI(sni, Inner(wildSNI, r.entryPoint));
      if overlapping != "" {
        return false;
      }
      var host := MatchingHTTPHost(sni, Inner(httpHosts, r.entryPoint));
      return host == "";
    }

    /** `validateExactSNI`, up to the point where it records the name. */
    method ExactIsFree(r: Router) returns (ok: bool)
      requires Valid() && IsExactPassthrough(r)
      ensures ok <==> forall a :: a in accepted && a.entryPoint == r.entryPoint ==> !RulesConflict(a, r)
    {
      var sni := NormalizeHost(r.sni);
      InnerKeys(httpHosts, accepted, OwnsHost, Host, r.entryPoint);
      InnerKeys(exactSNI, accepted, IsExactPassthrough, SNI, r.entryPoint);
      return Lookup(exactSNI, r.entryPoint, sni) == "" && Lookup(httpHosts, r.entryPoint, sni) == "";
    }

    /** Whether the router's rule is free on its entry point; the source records the rule in the same place. */
    method RuleIsFree(r: Router) returns (ok: bool)
      requires Valid() && !r.protocol.RouteOther?
      ensures ok <==> forall a :: a in accepted && a.entryPoint == r.entryPoint ==> !RulesConflict(a, r)
    {
      match r.protocol {
        case RouteTCP =>
          ok := r.entryPoint !in tcpRouters;
        case RouteUDP =>
          ok := r.entryPoint !in udpRouters;
        case RouteHTTP =>
          if r.host == "" {
            return true;
          }
          ok := HTTPHostIsFree(r);
        case RouteTLSPassthrough =>
          if IsWildcard(NormalizeHost(r.sni)) {
            ok := WildcardIsFree(r);
          } else {
            ok := ExactIsFree(r);
          }
      }
    }

    /** Records an accepted router in every index. */
    method Record(r: Router)
      requires Valid() && r.name != "" && r.name !in routersByName
      modifies this
      ensures Valid() && accepted == old(accepted) + [r]
    {
      hide Indexes, IndexesFlat, IndexesNames, OwnsHost, IsExactPassthrough, IsWildcardPassthrough, PutNested, Host,
          SNI, IsTCP, IsUDP;
      RecordLemma(r);
      NamesLemma(r);
      var exact := if IsExactPassthrough(r) then PutNested(exactSNI, r.entryPoint, SNI(r), r.name) else exactSNI;
      var wild := if IsWildcardPassthrough(r) then PutNested(wildSNI, r.entryPoint, SNI(r), r.name) else wildSNI;
      var hosts := if OwnsHost(r) then PutNested(httpHosts, r.entryPoint, Host(r), r.name) else httpHosts;
      var tcp := if IsTCP(r) then tcpRouters[r.entryPoint := r.name] else tcpRouters;
      var udp := if IsUDP(r) then udpRouters[r.entryPoint := r.name] else udpRouters;
      routersByName := routersByName[r.name := r];
      exactSNI, wildSNI, httpHosts, tcpRouters, udpRouters := exact, wild, hosts, tcp, udp;
      accepted := accepted + [r];
    }

    /** `validateRouter`: accepts a router that is valid and conflicts with none accepted before it. */
    method ValidateRouter(r: Router, entryPoints: map<string, EntryPoint>, services: map<string, Service>)
        returns (ok: bool)
      requires Valid()
      modifies this
      ensures Valid()
      ensures ok <==> RouterValid(r, entryPoints, services) && forall a :: a in old(accepted) ==> !RoutersConflict(a, r)
      ensures accepted == if ok then old(accepted) + [r] else old(accepted)
    {
      if r.name == "" || r.name in routersByName || !RouterValid(r, entryPoints, services) {
        return false;
      }
      ok := RuleIsFree(r);
      if ok {
        Record(r);
      }
    }

    /** `validateRawFallbackRouters`, in any iteration order. */
    method ValidateRawFallbacks(entryPoints: map<string, EntryPoint>) returns (ok: bool)
      requires Valid() && NoConflict(accepted, RoutersConflict)
      ensures ok <==> FallbacksResolve(entryPoints, accepted)
    {
      var todo := entryPoints.Keys;
      while todo != {}
        invariant todo <= entryPoints.Keys
        invariant FallbacksResolve(map n | n in entryPoints && n !in todo :: entryPoints[n], accepted)
      {
        var n :| n in todo;
        var e := entryPoints[n];
        if e.rawFallback != "" {
          if e.rawFallback !in routersByName {
            return false;
          }
          var r := routersByName[e.rawFallback];
          if r.entryPoint != e.name || !r.protocol.RouteTCP? {
            NamesAreUnique(accepted, r);
            return false;
          }
        }
        todo := todo - {n};
      }
      assert (map n | n in entryPoints && n !in todo :: entryPoints[n]) == entryPoints;
      return true;
    }

    lemma NamesLemma(r: Router)
      requires Valid()
      ensures IndexesNames(routersByName[r.name := r], accepted + [r])
    {
      hide Indexes, IndexesFlat;
      assert (accepted + [r])[|accepted|] == r;
      assert forall x :: x in accepted + [r] <==> x in accepted || x == r;
    }

    lemma RecordLemma(r: Router)
      requires Valid() && r.name != ""
      ensures Indexes(if IsExactPassthrough(r) then PutNested(exactSNI, r.entryPoint, SNI(r), r.name) else exactSNI,
                      accepted + [r], IsExactPassthrough, SNI)
      ensures Indexes(if IsWildcardPassthrough(r) then PutNested(wildSNI, r.entryPoint, SNI(r), r.name) else wildSNI,
                      accepted + [r], IsWildcardPassthrough, SNI)
      ensures Indexes(if OwnsHost(r) then PutNested(httpHosts, r.entryPoint, Host(r), r.name) else httpHosts,
                      accepted + [r], OwnsHost, Host)
      ensures IndexesFlat(if IsTCP(r) then tcpRouters[r.entryPoint := r.name] else tcpRouters, accepted + [r], IsTCP)
      ensures IndexesFlat(if IsUDP(r) then udpRouters[r.entryPoint := r.name] else udpRouters, accepted + [r], IsUDP)
    {
      hide Indexes, IndexesFlat, OwnsHost, IsExactPassthrough, IsWildcardPassthrough, PutNested, Host, SNI;
      IndexGrows(exactSNI, accepted, IsExactPassthrough, SNI, r);
      IndexGrows(wildSNI, accepted, IsWildcardPassthrough, SNI, r);
      IndexGrows(httpHosts, accepted, OwnsHost, Host, r);
      FlatTakes(tcpRouters, accepted, IsTCP, r);
      FlatTakes(udpRouters, accepted, IsUDP, r);
    }
  }

  lemma IndexGrows(index: NamesByEntryPoint, accepted: seq<Router>, has: Router -> bool, key: Router -> string,
                   r: Router)
    requires Indexes(index, accepted, has, key) && r.name != ""
    ensures Indexes(if has(r) then PutNested(index, r.entryPoint, key(r), r.name) else index, accepted + [r], has, key)
  {
    if has(r) { IndexTakes(index, accepted, has, key, r); } else { IndexSkips(index, accepted, has, key, r); }
  }

  lemma NamesAreUnique(routers: seq<Router>, r: Router)
    requires NoConflict(routers, RoutersConflict) && r in routers
    ensures forall x :: x in routers && x.name == r.name ==> x == r
  {
    forall x | x in routers && x.name == r.name ensures x == r {
      var i :| 0 <= i < |routers| && routers[i] == x;
      var j :| 0 <= j < |routers| && routers[j] == r;
      assert RoutersConflict(x, r) && RoutersConflict(r, x);
    }
  }
}
