/** The traffic graph and what it means for one to be acceptable (domain/traffic.go). */
module Traffic {
  import opened Options
  import opened Text
  import opened ServerNames

  datatype EntryProtocol = EntryHTTP | EntryTLSMux | EntrySmartTCP | EntryTCP | EntryUDP | EntryOther(text: string)

  datatype RouterProtocol = RouteHTTP | RouteTCP | RouteUDP | RouteTLSPassthrough | RouteOther(text: string)

  datatype NetworkProtocol = NetTCP | NetUDP | NetOther(text: string)

  /** A parsed listen address; `wildcard` says whether the host part listens on every interface. */
  datatype ListenAddress = ListenAddress(key: string, port: int, wildcard: bool)

  datatype CIDR = CIDR(text: string, parses: bool)

  datatype EntryPoint = EntryPoint(
    name: string,
    address: Option<ListenAddress>,
    protocol: EntryProtocol,
    trustedCIDRs: seq<CIDR>,
    rawFallback: string,
    rawFallbackTrustedCIDRs: seq<CIDR>,
    allowPublicRawFallback: bool)

  datatype Router = Router(name: string, entryPoint: string, protocol: RouterProtocol, host: string, sni: string,
      service: string)

  datatype Backend = Backend(host: string, port: int, protocol: NetworkProtocol)

  datatype Service = Service(name: string, backends: seq<Backend>)

  datatype Limits = Limits(timeouts: seq<int>, maxConnections: int, maxSessions: int)

  datatype Graph = Graph(options: Limits, entryPoints: seq<EntryPoint>, routers: seq<Router>, services: seq<Service>)

  datatype RefKind = RefRoute | RefExternalRoute | RefNetworkService | RefService | RefStatic

  /** `ParseTrafficServiceRef`, by the kind it yields. */
  function ParseServiceRef(value: string): Option<RefKind> {
    var text := TrimSpace(value);
    var colon := IndexOf(text, ':');
    if colon == |text| || text[colon + 1..] == "" then None
    else
      var kind, rest := text[..colon], text[colon + 1..];
      if kind == "route" then Some(RefRoute)
      else if kind == "external_route" then Some(RefExternalRoute)
      else if kind == "network_service" then if IsNamedPort(rest) then Some(RefNetworkService) else None
      else if kind == "service" then if IsNamedPort(rest) then Some(RefService) else None
      else if kind == "static" then Some(RefStatic)
      else None
  }

  predicate IsNamedPort(rest: string) {
    var colon := IndexOf(rest, ':');
    0 < colon < |rest| && rest[colon + 1..] != "" && ':' !in rest[colon + 1..]
  }

  predicate OptionsValid(o: Limits) {
    (forall i :: 0 <= i < |o.timeouts| ==> o.timeouts[i] >= 0) && o.maxConnections >= 0 && o.maxSessions >= 0
  }

  predicate RawFallbackValid(e: EntryPoint) {
    if e.protocol.EntrySmartTCP? then
      e.rawFallback == "" ==> e.rawFallbackTrustedCIDRs == [] && !e.allowPublicRawFallback
    else
      e.rawFallback == "" && e.rawFallbackTrustedCIDRs == [] && !e.allowPublicRawFallback
  }

  predicate TrustedCIDRsValid(e: EntryPoint) {
    && (forall c :: c in e.trustedCIDRs ==> c.parses)
    && (forall c :: c in e.rawFallbackTrustedCIDRs ==> c.parses)
    && !(e.rawFallback != "" && e.rawFallbackTrustedCIDRs == [] && !e.allowPublicRawFallback)
  }

  predicate EntryPointValid(e: EntryPoint) {
    && e.name != ""
    && (e.protocol.EntryTLSMux? || e.protocol.EntrySmartTCP? || e.protocol.EntryTCP? || e.protocol.EntryUDP?)
    && RawFallbackValid(e)
    && TrustedCIDRsValid(e)
    && e.address.Some?
  }

  predicate AddressesConflict(a: ListenAddress, b: ListenAddress) {
    a.key == b.key || (a.port == b.port && (a.wildcard || b.wildcard))
  }

  predicate EntryPointsConflict(a: EntryPoint, b: EntryPoint) {
    || a.name == b.name
    || (a.protocol.EntryUDP? == b.protocol.EntryUDP? && a.address.Some? && b.address.Some?
        && AddressesConflict(a.address.value, b.address.value))
  }

  predicate ServiceValid(s: Service) {
    && s.name != ""
    && ParseServiceRef(s.name).Some?
    && forall b :: b in s.backends ==> TrimSpace(b.host) != "" && 1 <= b.port <= 65535 && !b.protocol.NetOther?
  }

  predicate ServicesConflict(a: Service, b: Service) {
    a.name == b.name
  }

  predicate ProtocolsCompatible(r: Router, e: EntryPoint) {
    match r.protocol
    case RouteHTTP => e.protocol.EntryHTTP? || e.protocol.EntryTLSMux? || e.protocol.EntrySmartTCP?
    case RouteTLSPassthrough => e.protocol.EntryTLSMux? || e.protocol.EntrySmartTCP?
    case RouteTCP => e.protocol.EntryTCP? || (e.protocol.EntrySmartTCP? && e.rawFallback == r.name)
    case RouteUDP => e.protocol.EntryUDP?
    case RouteOther(_) => false
  }

  predicate ServiceCompatible(r: Router, kind: RefKind, s: Service) {
    if r.protocol.RouteHTTP? then kind.RefRoute? || kind.RefExternalRoute?
    else
      && (kind.RefNetworkService? || kind.RefService?)
      && |s.backends| == 1
      && s.backends[0].protocol == if r.protocol.RouteUDP? then NetUDP else NetTCP
  }

  /** A router on its own: names, references and protocols fit together. */
  predicate RouterValid(r: Router, entryPoints: map<string, EntryPoint>, services: map<string, Service>) {
    && r.name != ""
    && r.entryPoint in entryPoints
    && ParseServiceRef(r.service).Some?
    && r.service in services
    && !r.protocol.RouteOther?
    && ProtocolsCompatible(r, entryPoints[r.entryPoint])
    && ServiceCompatible(r, ParseServiceRef(r.service).value, services[r.service])
    && (r.protocol.RouteTLSPassthrough? ==> TrimSpace(r.sni) != "")
  }

  function SNI(r: Router): string { NormalizeHost(r.sni) }

  function Host(r: Router): string { NormalizeHost(r.host) }

  predicate OwnsHost(r: Router) {
    r.protocol.RouteHTTP? && r.host != ""
  }

  predicate IsExactPassthrough(r: Router) {
    r.protocol.RouteTLSPassthrough? && !IsWildcard(SNI(r))
  }

  predicate IsWildcardPassthrough(r: Router) {
    r.protocol.RouteTLSPassthrough? && IsWildcard(SNI(r))
  }

  /** Two routers of one entry point claim the same traffic. */
  predicate RulesConflict(a: Router, b: Router) {
    || (a.protocol.RouteTCP? && b.protocol.RouteTCP?)
    || (a.protocol.RouteUDP? && b.protocol.RouteUDP?)
    || (OwnsHost(a) && OwnsHost(b) && Host(a) == Host(b))
    || HostTaken(a, b)
    || HostTaken(b, a)
    || (IsExactPassthrough(a) && IsExactPassthrough(b) && SNI(a) == SNI(b))
    || (IsWildcardPassthrough(a) && IsWildcardPassthrough(b) && WildcardSNIOverlap(SNI(a), SNI(b)))
  }

  /** HTTP router `h` owns a host that passthrough router `p` would swallow. */
  predicate HostTaken(h: Router, p: Router) {
    && OwnsHost(h) && p.protocol.RouteTLSPassthrough?
    && if IsWildcard(SNI(p)) then HostMatchesWildcard(Host(h), SNI(p)) else Host(h) == SNI(p)
  }

  predicate RoutersConflict(a: Router, b: Router) {
    a.name == b.name || (a.entryPoint == b.entryPoint && RulesConflict(a, b))
  }

  ghost predicate NoConflict<T(!new)>(s: seq<T>, conflict: (T, T) -> bool) {
    forall i, j :: 0 <= i < j < |s| ==> !conflict(s[i], s[j])
  }

  /** Every raw fallback names a TCP router of its own entry point. */
  ghost predicate FallbacksResolve(entryPoints: map<string, EntryPoint>, routers: seq<Router>) {
    forall n :: n in entryPoints && entryPoints[n].rawFallback != "" ==>
      exists r :: r in routers && r.name == entryPoints[n].rawFallback && r.entryPoint == entryPoints[n].name
          && r.protocol.RouteTCP?
  }

  ghost predicate EntryPointsAccepted(entries: seq<EntryPoint>) {
    (forall e :: e in entries ==> EntryPointValid(e)) && NoConflict(entries, EntryPointsConflict)
  }

  ghost predicate ServicesAccepted(services: seq<Service>) {
    (forall s :: s in services ==> ServiceValid(s)) && NoConflict(services, ServicesConflict)
  }

  ghost predicate RoutersAccepted(routers: seq<Router>, entryPoints: map<string, EntryPoint>,
                                  services: map<string, Service>) {
    && (forall r :: r in routers ==> RouterValid(r, entryPoints, services))
    && NoConflict(routers, RoutersConflict)
    && FallbacksResolve(entryPoints, routers)
  }

  function EntryMap(entries: seq<EntryPoint>): map<string, EntryPoint> {
    if entries == [] then map[]
    else
      var last := entries[|entries| - 1];
      EntryMap(entries[..|entries| - 1])[last.name := last]
  }

  function ServiceMap(services: seq<Service>): map<string, Service> {
    if services == [] then map[]
    else
      var last := services[|services| - 1];
      ServiceMap(services[..|services| - 1])[last.name := last]
  }

  /** The declarative meaning of a valid graph: every part valid, no two parts in conflict, every fallback resolved. */
  ghost predicate GraphAccepted(g: Graph) {
    && OptionsValid(g.options)
    && EntryPointsAccepted(g.entryPoints)
    && ServicesAccepted(g.services)
    && RoutersAccepted(g.routers, EntryMap(g.entryPoints), ServiceMap(g.services))
  }
}
