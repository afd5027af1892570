/** Validation of a whole graph, and what acceptance gives the proxy. */
module TrafficLaws {
  import opened Options
  import opened Sorting
  import opened ServerNames
  import opened Traffic
  import opened TrafficTerms
  import opened TrafficValidator
  import opened TrafficRouters

  method ValidateServices(services: seq<Service>) returns (ok: bool, byName: map<string, Service>)
    ensures ok <==> ServicesAccepted(services)
    ensures ok ==> byName == ServiceMap(services)
  {
    byName := map[];
    for i := 0 to |services|
      invariant byName == ServiceMap(services[..i])
      invariant ServicesAccepted(services[..i])
    {
      var s := services[i];
      assert services[..i + 1] == services[..i] + [s];
      NoConflictGrows(services[..i], s, ServicesConflict);
      ServiceMapKeys(services[..i], s.name);
      MapsGrow([], EntryPoint("", None, EntryTCP, [], "", [], false), services[..i], s);
      if !ServiceValid(s) || s.name in byName {
        RejectedService(services, i);
        return false, byName;
      }
      byName := byName[s.name := s];
    }
    assert services[..|services|] == services;
    return true, byName;
  }

  lemma RejectedService(services: seq<Service>, i: nat)
    requires i < |services|
    requires !ServiceValid(services[i]) || !NoConflict(services[..i + 1], ServicesConflict)
    ensures !ServicesAccepted(services)
  {
    assert NoConflict(services, ServicesConflict) ==> NoConflict(services[..i + 1], ServicesConflict);
  }

  /** `validateRouters`: the incremental check accepts exactly the lists that are valid and conflict-free pairwise. */
  method ValidateRouters(routers: seq<Router>, entryPoints: map<string, EntryPoint>, services: map<string, Service>)
    returns (ok: bool)
    ensures ok <==> RoutersAccepted(routers, entryPoints, services)
  {
    var state := new RouterValidationState();
    for i := 0 to |routers|
      invariant state.Valid() && fresh(state) && state.accepted == routers[..i]
      invariant forall r :: r in routers[..i] ==> RouterValid(r, entryPoints, services)
      invariant NoConflict(routers[..i], RoutersConflict)
    {
      assert routers[..i + 1] == routers[..i] + [routers[i]];
      NoConflictGrows(routers[..i], routers[i], RoutersConflict);
      ok := state.ValidateRouter(routers[i], entryPoints, services);
      if !ok {
        assert NoConflict(routers, RoutersConflict) ==> NoConflict(routers[..i + 1], RoutersConflict);
        return false;
      }
    }
    assert routers[..|routers|] == routers;
    ok := state.ValidateRawFallbacks(entryPoints);
  }

  /** `TrafficGraph.Validate` accepts exactly the acceptable graphs. */
  method Validate(g: Graph) returns (ok: bool)
    ensures ok <==> GraphAccepted(g)
    ensures ok <==> Acceptable(g)
  {
    AcceptedIff(g);
    hide Acceptable;
    if !OptionsValid(g.options) {
      return false;
    }
    var entriesOk, entryPoints := ValidateEntryPoints(g.entryPoints);
    if !entriesOk {
      return false;
    }
    var servicesOk, services := ValidateServices(g.services);
    if !servicesOk {
      return false;
    }
    ok := ValidateRouters(g.routers, entryPoints, services);
  }

  ghost predicate Symmetric<T(!new)>(conflict: (T, T) -> bool) {
    forall x, y :: conflict(x, y) <==> conflict(y, x)
  }

  /** Freedom from conflict depends on the multiset only, for a symmetric relation that is reflexive. */
  lemma NoConflictByElement<T(!new)>(s: seq<T>, conflict: (T, T) -> bool)
    requires Symmetric(conflict) && forall x :: conflict(x, x)
    ensures NoConflict(s, conflict) <==>
              && (forall x, y :: x in s && y in s && x != y ==> !conflict(x, y))
              && (forall x :: multiset(s)[x] <= 1)
  {
    if NoConflict(s, conflict) {
      forall x, y | x in s && y in s && x != y ensures !conflict(x, y) {
        var i :| 0 <= i < |s| && s[i] == x;
        var j :| 0 <= j < |s| && s[j] == y;
        assert if i < j then !conflict(s[i], s[j]) else !conflict(s[j], s[i]);
      }
      forall x ensures multiset(s)[x] <= 1 { AtMostOnce(s, conflict, x); }
    }
    if (forall x, y :: x in s && y in s && x != y ==> !conflict(x, y)) && (forall x :: multiset(s)[x] <= 1) {
      forall i, j | 0 <= i < j < |s| ensures !conflict(s[i], s[j]) {
        if s[i] == s[j] { TwiceInMultiset(s, i, j); }
      }
    }
  }

  lemma {:induction false} AtMostOnce<T(!new)>(s: seq<T>, conflict: (T, T) -> bool, x: T)
    requires NoConflict(s, conflict) && conflict(x, x)
    ensures multiset(s)[x] <= 1
  {
    if s != [] {
      var front, last := s[..|s| - 1], s[|s| - 1];
      assert s == front + [last];
      AtMostOnce(front, conflict, x);
      if last == x {
        forall i | 0 <= i < |front| ensures front[i] != x {
          assert !conflict(s[i], s[|s| - 1]);
        }
      }
    }
  }

  lemma NoConflictPermutes<T(!new)>(a: seq<T>, b: seq<T>, conflict: (T, T) -> bool)
    requires Symmetric(conflict) && (forall x :: conflict(x, x)) && multiset(a) == multiset(b)
    ensures NoConflict(a, conflict) == NoConflict(b, conflict)
    ensures forall x :: x in a <==> x in b
  {
    NoConflictByElement(a, conflict);
    NoConflictByElement(b, conflict);
    forall x ensures x in a <==> x in b { assert x in multiset(a) <==> x in multiset(b); }
  }

  /** Acceptance of the routers does not depend on their order. */
  lemma RouterOrderIsIrrelevant(a: seq<Router>, b: seq<Router>, entryPoints: map<string, EntryPoint>,
                                services: map<string, Service>)
    requires multiset(a) == multiset(b)
    ensures RoutersAccepted(a, entryPoints, services) == RoutersAccepted(b, entryPoints, services)
  {
    NoConflictPermutes(a, b, RoutersConflict);
  }

  /** Elements that conflict in a list without conflicts are one and the same. */
  lemma ConflictingAreOne<T(!new)>(s: seq<T>, conflict: (T, T) -> bool, x: T, y: T)
    requires NoConflict(s, conflict) && x in s && y in s && conflict(x, y) && conflict(y, x)
    ensures x == y
  {
    var i :| 0 <= i < |s| && s[i] == x;
    var j :| 0 <= j < |s| && s[j] == y;
    assert i == j;
  }

  lemma EntryMapPermutes(a: seq<EntryPoint>, b: seq<EntryPoint>)
    requires NoConflict(a, EntryPointsConflict) && NoConflict(b, EntryPointsConflict) && forall e :: e in a <==> e in b
    ensures EntryMap(a) == EntryMap(b)
  {
    forall n ensures n in EntryMap(a) <==> n in EntryMap(b)
    ensures n in EntryMap(a) ==> EntryMap(a)[n] == EntryMap(b)[n]
    {
      EntryMapKeys(a, n);
      EntryMapKeys(b, n);
      if n in EntryMap(a) {
        ConflictingAreOne(a, EntryPointsConflict, EntryMap(a)[n], EntryMap(b)[n]);
      }
    }
  }

  lemma ServiceMapPermutes(a: seq<Service>, b: seq<Service>)
    requires NoConflict(a, ServicesConflict) && NoConflict(b, ServicesConflict) && forall s :: s in a <==> s in b
    ensures ServiceMap(a) == ServiceMap(b)
  {
    forall n ensures n in ServiceMap(a) <==> n in ServiceMap(b)
    ensures n in ServiceMap(a) ==> ServiceMap(a)[n] == ServiceMap(b)[n]
    {
      ServiceMapKeys(a, n);
      ServiceMapKeys(b, n);
      if n in ServiceMap(a) {
        ConflictingAreOne(a, ServicesConflict, ServiceMap(a)[n], ServiceMap(b)[n]);
      }
    }
  }

  /** The order in which a graph lists its entry points, services and routers does not matter. */
  lemma GraphOrderIsIrrelevant(g: Graph, entryPoints: seq<EntryPoint>, services: seq<Service>, routers: seq<Router>)
    requires multiset(entryPoints) == multiset(g.entryPoints) && multiset(services) == multiset(g.services)
    requires multiset(routers) == multiset(g.routers)
    ensures GraphAccepted(g)
         == GraphAccepted(g.(entryPoints := entryPoints, services := services, routers := routers))
  {
    NoConflictPermutes(g.entryPoints, entryPoints, EntryPointsConflict);
    NoConflictPermutes(g.services, services, ServicesConflict);
    if EntryPointsAccepted(g.entryPoints) { EntryMapPermutes(g.entryPoints, entryPoints); }
    if ServicesAccepted(g.services) { ServiceMapPermutes(g.services, services); }
    RouterOrderIsIrrelevant(g.routers, routers, EntryMap(g.entryPoints), ServiceMap(g.services));
  }

  /**
   * In accepted routers a host on an entry point matches at most one wildcard passthrough and at most one exact
   * passthrough, and none of either when an HTTP router there owns the host.
   */
  lemma HostHasOneOwner(routers: seq<Router>, a: Router, b: Router, host: string)
    requires NoConflict(routers, RoutersConflict) && a in routers && b in routers && a.entryPoint == b.entryPoint
    ensures IsWildcardPassthrough(a) && IsWildcardPassthrough(b) ==>
              HostMatchesWildcard(host, SNI(a)) && HostMatchesWildcard(host, SNI(b)) ==> a == b
    ensures IsExactPassthrough(a) && IsExactPassthrough(b) && SNI(a) == host && SNI(b) == host ==> a == b
    ensures OwnsHost(a) && Host(a) == host && IsWildcardPassthrough(b) ==> !HostMatchesWildcard(host, SNI(b))
    ensures OwnsHost(a) && Host(a) == host && IsExactPassthrough(b) ==> SNI(b) != host
    ensures OwnsHost(a) && OwnsHost(b) && Host(a) == host && Host(b) == host ==> a == b
  {
    if a != b {
      var i :| 0 <= i < |routers| && routers[i] == a;
      var j :| 0 <= j < |routers| && routers[j] == b;
      assert if i < j then !RoutersConflict(a, b) else !RoutersConflict(b, a);
      if IsWildcardPassthrough(a) && IsWildcardPassthrough(b) {
        OverlapIsExact(SNI(a), SNI(b));
      }
    }
  }
}
