/**
 * When a traffic graph is acceptable, in terms of its fields: an account of the validator's rules that shares nothing
 * with the checks of the code but the trimming and normalising of strings.
 */
module TrafficTerms {
  import opened Options
  import opened Text
  import opened ServerNames
  import opened Traffic
  import opened TrafficValidator

  /** `kind:rest`, with blanks around it at most. */
  ghost predicate RefersTo(value: string, kind: string) {
    exists rest :: rest != "" && TrimSpace(value) == kind + (":" + rest)
  }

  /** `kind:name:port`, with blanks around it at most. */
  ghost predicate RefersToPort(value: string, kind: string) {
    exists name: string, port: string ::
      && name != "" && port != "" && ':' !in name && ':' !in port
      && TrimSpace(value) == kind + (":" + (name + (":" + port)))
  }

  ghost predicate EntryPointFits(e: EntryPoint) {
    && e.name != "" && e.address.Some?
    && (forall c :: c in e.trustedCIDRs || c in e.rawFallbackTrustedCIDRs ==> c.parses)
    && match e.protocol
       case EntryTLSMux | EntryTCP | EntryUDP =>
         e.rawFallback == "" && e.rawFallbackTrustedCIDRs == [] && !e.allowPublicRawFallback
       case EntrySmartTCP => e.rawFallback != "" <==> (e.rawFallbackTrustedCIDRs != [] || e.allowPublicRawFallback)
       case EntryHTTP | EntryOther(_) => false
  }

  /** Two entry points can listen side by side; TCP and UDP ports are apart. */
  ghost predicate ListenApart(a: EntryPoint, b: EntryPoint) {
    || ((a.protocol == EntryUDP) != (b.protocol == EntryUDP))
    || (a.address.Some? && b.address.Some? ==>
          var x, y := a.address.value, b.address.value;
          x.key != y.key && (x.port == y.port ==> !x.wildcard && !y.wildcard))
  }

  ghost predicate ServiceFits(s: Service) {
    && (|| RefersTo(s.name, "route") || RefersTo(s.name, "external_route") || RefersTo(s.name, "static")
        || RefersToPort(s.name, "network_service") || RefersToPort(s.name, "service"))
    && forall b :: b in s.backends ==>
         TrimSpace(b.host) != "" && 1 <= b.port <= 65535 && (b.protocol == NetTCP || b.protocol == NetUDP)
  }

  /** A service below HTTP has one backend, of the router's transport. */
  ghost predicate SingleBackend(r: Router, s: Service, transport: NetworkProtocol) {
    && (RefersToPort(r.service, "network_service") || RefersToPort(r.service, "service"))
    && |s.backends| == 1 && s.backends[0].protocol == transport
  }

  ghost predicate RouterFits(r: Router, e: EntryPoint, s: Service) {
    match r.protocol
    case RouteUDP => e.protocol == EntryUDP && SingleBackend(r, s, NetUDP)
    case RouteTCP =>
      && (e.protocol == EntryTCP || (e.protocol == EntrySmartTCP && e.rawFallback == r.name))
      && SingleBackend(r, s, NetTCP)
    case RouteTLSPassthrough =>
      && (e.protocol == EntryTLSMux || e.protocol == EntrySmartTCP)
      && SingleBackend(r, s, NetTCP) && TrimSpace(r.sni) != ""
    case RouteHTTP =>
      && (e.protocol == EntryTLSMux || e.protocol == EntrySmartTCP)
      && (RefersTo(r.service, "route") || RefersTo(r.service, "external_route"))
    case RouteOther(_) => false
  }

  ghost predicate Starred(r: Router) {
    r.protocol == RouteTLSPassthrough && exists suffix :: NormalizeHost(r.sni) == "*." + suffix
  }

  /** The router takes traffic for the name: its host, its server name, or any name under its wildcard. */
  ghost predicate Claims(r: Router, name: string) {
    if Starred(r) then exists front :: name == front + NormalizeHost(r.sni)[1..]
    else
      || (r.protocol == RouteHTTP && r.host != "" && name == NormalizeHost(r.host))
      || (r.protocol == RouteTLSPassthrough && name == NormalizeHost(r.sni))
  }

  /** Both routers claim one name; an exact server name may lie under a wildcard. */
  ghost predicate Contest(a: Router, b: Router) {
    && (a.protocol == b.protocol == RouteTLSPassthrough ==> (Starred(a) <==> Starred(b)))
    && exists name :: Claims(a, name) && Claims(b, name)
  }

  ghost predicate MayShareEntryPoint(a: Router, b: Router) {
    !(a.protocol == b.protocol == RouteTCP) && !(a.protocol == b.protocol == RouteUDP) && !Contest(a, b)
  }

  ghost predicate RouterIsPlaced(g: Graph, r: Router) {
    && r.name != ""
    && exists e, s :: e in g.entryPoints && s in g.services && e.name == r.entryPoint && s.name == r.service
        && RouterFits(r, e, s)
  }

  ghost predicate FallbackIsThere(g: Graph, e: EntryPoint) {
    exists r :: r in g.routers && r.name == e.rawFallback && r.entryPoint == e.name && r.protocol == RouteTCP
  }

  ghost predicate OptionsAreNatural(o: Limits) {
    (forall t :: t in o.timeouts ==> t >= 0) && o.maxConnections >= 0 && o.maxSessions >= 0
  }

  ghost predicate EntryPointsAgree(entries: seq<EntryPoint>) {
    && (forall e :: e in entries ==> EntryPointFits(e))
    && forall i, j :: 0 <= i < j < |entries| ==>
         entries[i].name != entries[j].name && ListenApart(entries[i], entries[j])
  }

  ghost predicate ServicesAgree(services: seq<Service>) {
    && (forall s :: s in services ==> ServiceFits(s))
    && forall i, j :: 0 <= i < j < |services| ==> services[i].name != services[j].name
  }

  ghost predicate RoutersAgree(routers: seq<Router>) {
    forall i, j :: 0 <= i < j < |routers| ==>
      && routers[i].name != routers[j].name
      && (routers[i].entryPoint == routers[j].entryPoint ==> MayShareEntryPoint(routers[i], routers[j]))
  }

  ghost predicate Acceptable(g: Graph) {
    && OptionsAreNatural(g.options)
    && EntryPointsAgree(g.entryPoints)
    && ServicesAgree(g.services)
    && (forall r :: r in g.routers ==> RouterIsPlaced(g, r))
    && (forall e :: e in g.entryPoints && e.rawFallback != "" ==> FallbackIsThere(g, e))
    && RoutersAgree(g.routers)
  }

  lemma {:induction false} FirstColon(front: string, back: string)
    requires ':' !in front
    ensures IndexOf(front + (":" + back), ':') == |front|
    ensures (front + (":" + back))[..|front|] == front && (front + (":" + back))[|front| + 1..] == back
  {
    if front == "" {
      assert front + (":" + back) == ":" + back;
    } else {
      FirstColon(front[1..], back);
      assert (front + (":" + back))[1..] == front[1..] + (":" + back);
    }
  }

  lemma CutAt(text: string, colon: nat)
    requires colon < |text| && text[colon] == ':'
    ensures text == text[..colon] + (":" + text[colon + 1..])
  {
    assert text[colon..] == ":" + text[colon + 1..];
  }

  lemma RefersToIff(value: string, kind: string)
    requires ':' !in kind
    ensures var text := TrimSpace(value);
            var colon := IndexOf(text, ':');
            RefersTo(value, kind) <==> colon < |text| && text[..colon] == kind && text[colon + 1..] != ""
  {
    var text := TrimSpace(value);
    if IndexOf(text, ':') < |text| { CutAt(text, IndexOf(text, ':')); }
    hide IndexOf;
    if RefersTo(value, kind) {
      var rest :| rest != "" && TrimSpace(value) == kind + (":" + rest);
      FirstColon(kind, rest);
    }
  }

  lemma NamedPortIff(rest: string)
    ensures IsNamedPort(rest) <==>
              exists name: string, port: string ::
                name != "" && port != "" && ':' !in name && ':' !in port && rest == name + (":" + port)
  {
    hide IndexOf;
    if IsNamedPort(rest) { CutAt(rest, IndexOf(rest, ':')); }
    forall name: string, port: string |
      name != "" && port != "" && ':' !in name && ':' !in port && rest == name + (":" + port)
      ensures IsNamedPort(rest)
    {
      FirstColon(name, port);
    }
  }

  lemma RefersToPortIff(value: string, kind: string)
    requires ':' !in kind
    ensures var text := TrimSpace(value);
            var colon := IndexOf(text, ':');
            RefersToPort(value, kind) <==> colon < |text| && text[..colon] == kind && IsNamedPort(text[colon + 1..])
  {
    hide IndexOf, IsNamedPort, TrimSpace;
    var text := TrimSpace(value);
    var colon := IndexOf(text, ':');
    if colon < |text| {
      CutAt(text, colon);
      NamedPortIff(text[colon + 1..]);
    }
    if RefersToPort(value, kind) {
      var name: string, port: string :| name != "" && port != "" && ':' !in name && ':' !in port
          && text == kind + (":" + (name + (":" + port)));
      FirstColon(kind, name + (":" + port));
      NamedPortIff(name + (":" + port));
    }
  }

  /** What each kind of service reference looks like. */
  lemma ReferenceKinds(value: string)
    ensures ParseServiceRef(value) == Some(RefRoute) <==> RefersTo(value, "route")
    ensures ParseServiceRef(value) == Some(RefExternalRoute) <==> RefersTo(value, "external_route")
    ensures ParseServiceRef(value) == Some(RefStatic) <==> RefersTo(value, "static")
    ensures ParseServiceRef(value) == Some(RefNetworkService) <==> RefersToPort(value, "network_service")
    ensures ParseServiceRef(value) == Some(RefService) <==> RefersToPort(value, "service")
  {
    hide RefersTo, RefersToPort, TrimSpace;
    RefersToIff(value, "route");
    RefersToIff(value, "external_route");
    RefersToIff(value, "static");
    RefersToPortIff(value, "network_service");
    RefersToPortIff(value, "service");
  }

  lemma EntryPointValidIff(e: EntryPoint)
    ensures EntryPointValid(e) <==> EntryPointFits(e)
  {
  }

  lemma EntryPointsApartIff(a: EntryPoint, b: EntryPoint)
    ensures EntryPointsConflict(a, b) <==> a.name == b.name || !ListenApart(a, b)
  {
  }

  lemma ServiceValidIff(s: Service)
    ensures ServiceValid(s) <==> ServiceFits(s)
  {
    hide ParseServiceRef, TrimSpace, RefersTo, RefersToPort;
    ReferenceKinds(s.name);
    NoReferenceIsEmpty();
    assert s.name == "" ==> ParseServiceRef(s.name).None?;
    if ParseServiceRef(s.name).Some? {
      match ParseServiceRef(s.name).value {
        case RefRoute | RefExternalRoute | RefNetworkService | RefService | RefStatic =>
      }
    }
  }

  lemma RouterValidIff(r: Router, e: EntryPoint, s: Service)
    requires EntryPointFits(e)
    ensures RouterFits(r, e, s) <==>
              && ParseServiceRef(r.service).Some? && !r.protocol.RouteOther? && ProtocolsCompatible(r, e)
              && ServiceCompatible(r, ParseServiceRef(r.service).value, s)
              && (r.protocol.RouteTLSPassthrough? ==> TrimSpace(r.sni) != "")
  {
    hide ParseServiceRef, TrimSpace, RefersTo, RefersToPort;
    ReferenceKinds(r.service);
  }

  lemma NoReferenceIsEmpty()
    ensures ParseServiceRef("").None?
  {
  }

  lemma StarredIff(r: Router)
    ensures Starred(r) <==> IsWildcardPassthrough(r)
    ensures Starred(r) ==> NormalizeHost(r.sni)[1..] == "." + Suffix(SNI(r))
  {
    var sni := NormalizeHost(r.sni);
    hide NormalizeHost;
    if IsWildcard(sni) { assert sni == "*." + sni[2..]; }
    if exists suffix :: sni == "*." + suffix {
      var suffix :| sni == "*." + suffix;
      assert sni[..2] == "*.";
    }
  }

  /** A wildcard claims the names that match it. */
  lemma ClaimIsMatch(r: Router, name: string)
    requires Starred(r)
    ensures Claims(r, name) <==> HostMatchesWildcard(name, SNI(r))
  {
    StarredIff(r);
    var tail := "." + Suffix(SNI(r));
    if HasSuffix(name, tail) { assert name == name[..|name| - |tail|] + tail; }
    forall front | name == front + tail ensures HostMatchesWildcard(name, SNI(r)) {
      AppendHasSuffix(front, tail);
    }
  }

  /** Two routers contest a name exactly when their rules conflict. */
  lemma ContestIff(a: Router, b: Router)
    ensures RulesConflict(a, b) <==> !MayShareEntryPoint(a, b)
  {
    StarredIff(a);
    StarredIff(b);
    if Starred(a) && Starred(b) {
      forall name ensures Claims(a, name) <==> HostMatchesWildcard(name, SNI(a)) { ClaimIsMatch(a, name); }
      forall name ensures Claims(b, name) <==> HostMatchesWildcard(name, SNI(b)) { ClaimIsMatch(b, name); }
      OverlapIsExact(SNI(a), SNI(b));
      hide Claims, Starred, HostMatchesWildcard, WildcardSNIOverlap, NormalizeHost;
    } else {
      ContestOneName(a, b);
    }
  }

  /** The only name a router without a wildcard can claim. */
  function OnlyName(r: Router): string {
    if r.protocol.RouteHTTP? then Host(r) else SNI(r)
  }

  lemma ContestAt(a: Router, b: Router)
    requires !Starred(a)
    ensures (exists name :: Claims(a, name) && Claims(b, name)) <==> Claims(a, OnlyName(a)) && Claims(b, OnlyName(a))
  {
    hide NormalizeHost, Starred;
    assert forall name :: Claims(a, name) ==> name == OnlyName(a);
  }

  lemma ContestOneName(a: Router, b: Router)
    requires !Starred(a) || !Starred(b)
    ensures RulesConflict(a, b) <==> !MayShareEntryPoint(a, b)
  {
    hide NormalizeHost, HostMatchesWildcard, WildcardSNIOverlap, IsWildcard, Suffix, Starred;
    StarredIff(a);
    StarredIff(b);
    if Starred(a) { ClaimIsMatch(a, OnlyName(b)); }
    if Starred(b) { ClaimIsMatch(b, OnlyName(a)); }
    if Starred(a) { ContestAt(b, a); } else { ContestAt(a, b); }
  }

  lemma EntryPointsIff(entries: seq<EntryPoint>)
    ensures EntryPointsAccepted(entries) <==> EntryPointsAgree(entries)
  {
    hide EntryPointValid, EntryPointFits, EntryPointsConflict, ListenApart;
    forall e ensures EntryPointValid(e) <==> EntryPointFits(e) { EntryPointValidIff(e); }
    forall a, b ensures EntryPointsConflict(a, b) <==> a.name == b.name || !ListenApart(a, b) {
      EntryPointsApartIff(a, b);
    }
  }

  lemma ServicesIff(services: seq<Service>)
    ensures ServicesAccepted(services) <==> ServicesAgree(services)
  {
    hide ServiceValid, ServiceFits;
    forall s ensures ServiceValid(s) <==> ServiceFits(s) { ServiceValidIff(s); }
  }

  /** In a list without conflicts a name stands for one entry point. */
  lemma EntryPointOf(entries: seq<EntryPoint>, e: EntryPoint)
    requires EntryPointsAgree(entries) && e in entries
    ensures e.name in EntryMap(entries) && EntryMap(entries)[e.name] == e
  {
    hide EntryPointFits, ListenApart, EntryMap;
    EntryMapKeys(entries, e.name);
    var i :| 0 <= i < |entries| && entries[i] == e;
    var j :| 0 <= j < |entries| && entries[j] == EntryMap(entries)[e.name];
    assert i == j;
  }

  lemma ServiceOf(services: seq<Service>, s: Service)
    requires ServicesAgree(services) && s in services
    ensures s.name in ServiceMap(services) && ServiceMap(services)[s.name] == s
  {
    hide ServiceMap, ServiceFits;
    ServiceMapKeys(services, s.name);
    var i :| 0 <= i < |services| && services[i] == s;
    var j :| 0 <= j < |services| && services[j] == ServiceMap(services)[s.name];
    assert i == j;
  }

  lemma RouterPlacedIff(g: Graph, r: Router)
    requires EntryPointsAgree(g.entryPoints)
    requires ServicesAgree(g.services)
    ensures RouterValid(r, EntryMap(g.entryPoints), ServiceMap(g.services)) <==> RouterIsPlaced(g, r)
  {
    hide EntryPointsAgree, ServicesAgree, RouterFits, EntryMap, ServiceMap, ParseServiceRef, ProtocolsCompatible,
        ServiceCompatible, TrimSpace;
    EntryMapKeys(g.entryPoints, r.entryPoint);
    ServiceMapKeys(g.services, r.service);
    forall e | e in g.entryPoints ensures e.name in EntryMap(g.entryPoints) && EntryMap(g.entryPoints)[e.name] == e {
      EntryPointOf(g.entryPoints, e);
    }
    forall s | s in g.services ensures s.name in ServiceMap(g.services) && ServiceMap(g.services)[s.name] == s {
      ServiceOf(g.services, s);
    }
    if r.entryPoint in EntryMap(g.entryPoints) && r.service in ServiceMap(g.services) {
      var e, s := EntryMap(g.entryPoints)[r.entryPoint], ServiceMap(g.services)[r.service];
      assert EntryPointFits(e) by { FitsInside(g.entryPoints, e); }
      RouterValidIff(r, e, s);
    }
  }

  lemma FitsInside(entries: seq<EntryPoint>, e: EntryPoint)
    requires EntryPointsAgree(entries) && e in entries
    ensures EntryPointFits(e)
  {
  }

  lemma FallbacksIff(g: Graph)
    requires EntryPointsAgree(g.entryPoints)
    ensures FallbacksResolve(EntryMap(g.entryPoints), g.routers) <==>
              forall e :: e in g.entryPoints && e.rawFallback != "" ==> FallbackIsThere(g, e)
  {
    hide EntryPointsAgree, EntryMap;
    forall e | e in g.entryPoints ensures e.name in EntryMap(g.entryPoints) && EntryMap(g.entryPoints)[e.name] == e {
      EntryPointOf(g.entryPoints, e);
    }
    forall n | n in EntryMap(g.entryPoints)
      ensures EntryMap(g.entryPoints)[n] in g.entryPoints && EntryMap(g.entryPoints)[n].name == n
    {
      EntryMapKeys(g.entryPoints, n);
    }
  }

  lemma RoutersIff(g: Graph)
    requires EntryPointsAgree(g.entryPoints)
    requires ServicesAgree(g.services)
    ensures RoutersAccepted(g.routers, EntryMap(g.entryPoints), ServiceMap(g.services)) <==>
              && (forall r :: r in g.routers ==> RouterIsPlaced(g, r))
              && (forall e :: e in g.entryPoints && e.rawFallback != "" ==> FallbackIsThere(g, e))
              && RoutersAgree(g.routers)
  {
    hide EntryPointsAgree, ServicesAgree, RouterIsPlaced, RouterValid, FallbackIsThere, FallbacksResolve, RulesConflict,
        MayShareEntryPoint;
    forall r ensures RouterValid(r, EntryMap(g.entryPoints), ServiceMap(g.services)) <==> RouterIsPlaced(g, r) {
      RouterPlacedIff(g, r);
    }
    FallbacksIff(g);
    forall a, b ensures RulesConflict(a, b) <==> !MayShareEntryPoint(a, b) { ContestIff(a, b); }
  }

  lemma OptionsIff(o: Limits)
    ensures OptionsValid(o) <==> OptionsAreNatural(o)
  {
    if OptionsAreNatural(o) { assert forall i :: 0 <= i < |o.timeouts| ==> o.timeouts[i] in o.timeouts; }
  }

  /** The pairwise specification says exactly this. */
  lemma AcceptedIff(g: Graph)
    ensures GraphAccepted(g) <==> Acceptable(g)
  {
    hide EntryPointsAgree, ServicesAgree, EntryPointsAccepted, ServicesAccepted, RoutersAccepted, RouterIsPlaced,
        FallbackIsThere, RoutersAgree;
    EntryPointsIff(g.entryPoints);
    ServicesIff(g.services);
    if EntryPointsAccepted(g.entryPoints) && ServicesAccepted(g.services) { RoutersIff(g); }
    OptionsIff(g.options);
  }

  /** Which routers an entry point of an accepted graph carries. */
  lemma EntryPointCarries(g: Graph, e: EntryPoint, r: Router)
    requires GraphAccepted(g) && e in g.entryPoints && r in g.routers && r.entryPoint == e.name
    ensures e.protocol == EntryUDP <==> r.protocol == RouteUDP
    ensures e.protocol == EntryTCP ==> r.protocol == RouteTCP
    ensures r.protocol == RouteTCP ==>
              e.protocol == EntryTCP || (e.protocol == EntrySmartTCP && e.rawFallback == r.name)
    ensures r.protocol == RouteTLSPassthrough || r.protocol == RouteHTTP ==>
              e.protocol == EntryTLSMux || e.protocol == EntrySmartTCP
  {
    AcceptedIff(g);
    hide EntryPointFits, ServiceFits, RoutersAgree, GraphAccepted, SingleBackend, RefersTo, FallbackIsThere;
    var e', s :| e' in g.entryPoints && s in g.services && e'.name == r.entryPoint && s.name == r.service
        && RouterFits(r, e', s);
    EntryPointOf(g.entryPoints, e);
    EntryPointOf(g.entryPoints, e');
  }

  /** A UDP or TCP entry point of an accepted graph carries one router at most. */
  lemma TransportHasOneRouter(g: Graph, e: EntryPoint, a: Router, b: Router)
    requires GraphAccepted(g) && e in g.entryPoints && a in g.routers && b in g.routers
    requires a.entryPoint == b.entryPoint == e.name && (e.protocol == EntryUDP || e.protocol == EntryTCP)
    ensures a == b
  {
    hide EntryPointsAgree, ServicesAgree, RouterIsPlaced, GraphAccepted, FallbackIsThere, Contest;
    AcceptedIff(g);
    EntryPointCarries(g, e, a);
    EntryPointCarries(g, e, b);
    var i :| 0 <= i < |g.routers| && g.routers[i] == a;
    var j :| 0 <= j < |g.routers| && g.routers[j] == b;
    assert i == j;
  }

  /** One entry point, service and router that fit each other make an acceptable graph. */
  lemma FittingPartsAreAccepted(o: Limits, e: EntryPoint, s: Service, r: Router)
    requires OptionsAreNatural(o) && EntryPointFits(e) && ServiceFits(s)
    requires r.name != "" && r.entryPoint == e.name && r.service == s.name && RouterFits(r, e, s)
    requires e.rawFallback != "" ==> r.name == e.rawFallback && r.protocol == RouteTCP
    ensures GraphAccepted(Graph(o, [e], [r], [s]))
  {
    var g := Graph(o, [e], [r], [s]);
    hide EntryPointFits, ServiceFits, RouterFits, GraphAccepted;
    assert g.entryPoints[0] == e && g.services[0] == s && g.routers[0] == r;
    AcceptedIff(g);
  }
}
