/**
 * The public certificate service: what is missing, one reconcile, what a handshake is served (publictls/service.go).
 */
module PublicTLS {
  import opened Options
  import opened Text
  import opened Certificates
  import Cursor = ObtainCursor

  const DEFAULT_OBTAIN_BATCH_SIZE: nat := 1

  /** `notAfter` is `None` for the zero time. */
  datatype Certificate = Certificate(names: seq<string>, notAfter: Option<int>)

  /** What the issuer returned and the store accepted for one order. */
  datatype Stored = Stored(id: string, cert: Certificate)

  datatype Lookup = NotRequired | NotCovered | Found(cert: Certificate)

  predicate Current(cert: Certificate, now: int) {
    cert.notAfter.Some? && now <= cert.notAfter.value
  }

  /** The form in which `exactNamesCoverAll` compares names: no white space is trimmed here. */
  function NameKey(name: string): string { ToLower(TrimSuffix(name, ".")) }

  predicate ExactlyCovers(names: seq<string>, required: seq<string>) {
    forall r :: r in required ==> exists n :: n in names && NameKey(n) == NameKey(r)
  }

  /** A current certificate names everything the target asks for. */
  predicate HasCertificate(certs: map<string, Certificate>, target: Target, now: int) {
    exists id :: id in certs && Current(certs[id], now) && ExactlyCovers(certs[id].names, target.names)
  }

  /** A certificate with an expiry date that has not passed. */
  ghost predicate IsValidAt(cert: Certificate, now: int) {
    exists t :: cert.notAfter == Some(t) && now <= t
  }

  lemma CurrentIff(cert: Certificate, now: int)
    ensures Current(cert, now) <==> IsValidAt(cert, now)
  {
  }

  /** Every wanted name is among the names of the certificate, up to capitals and a final dot. */
  ghost predicate CarriesAll(cert: Certificate, wanted: seq<string>) {
    forall w :: w in wanted ==>
      exists n :: n in cert.names && ToLower(TrimSuffix(n, ".")) == ToLower(TrimSuffix(w, "."))
  }

  lemma PossessionIff(certs: map<string, Certificate>, target: Target, now: int)
    ensures HasCertificate(certs, target, now) <==>
              exists id :: id in certs && IsValidAt(certs[id], now) && CarriesAll(certs[id], target.names)
  {
    hide ToLower, TrimSuffix;
    forall id | id in certs ensures IsValidAt(certs[id], now) <==> Current(certs[id], now) {}
    forall id | id in certs
      ensures CarriesAll(certs[id], target.names) <==> ExactlyCovers(certs[id].names, target.names)
    {
    }
    hide IsValidAt, Current, CarriesAll, ExactlyCovers;
  }

  /** One of the certificate's names, normalised, is the host or a wildcard for it. */
  ghost predicate CarriesNameOf(cert: Certificate, host: string) {
    NormalizeHost(host) != "" && exists n :: n in cert.names && NamesHost(NormalizeHost(n), NormalizeHost(host))
  }

  lemma CarriesIff(cert: Certificate, host: string)
    ensures NamesCoverHost(cert.names, host) <==> CarriesNameOf(cert, host)
  {
    hide NormalizeHost, NameCovers, NamesHost;
    forall i | 0 <= i < |cert.names|
      ensures NameCovers(NormalizeHost(cert.names[i]), NormalizeHost(host))
          <==> NamesHost(NormalizeHost(cert.names[i]), NormalizeHost(host))
    {
      CoversIffNames(NormalizeHost(cert.names[i]), NormalizeHost(host));
    }
  }

  predicate HostIsServed(certs: map<string, Certificate>, host: string, now: int) {
    exists id :: id in certs && Current(certs[id], now) && NamesCoverHost(certs[id].names, host)
  }

  function Absent(certs: map<string, Certificate>, targets: seq<Target>, now: int): set<Target> {
    set t | t in targets && !HasCertificate(certs, t, now)
  }

  function MissingTargets(certs: map<string, Certificate>, targets: seq<Target>, now: int): seq<Target> {
    Cursor.Missing(targets, Absent(certs, targets, now))
  }

  method ExactNamesCoverAll(names: seq<string>, required: seq<string>) returns (all: bool)
    ensures all == ExactlyCovers(names, required)
  {
    hide NameKey;
    var covered: set<string> := {};
    for i := 0 to |names|
      invariant forall k :: k in covered <==> exists n :: n in names[..i] && NameKey(n) == k
    {
      assert names[..i + 1] == names[..i] + [names[i]];
      covered := covered + {NameKey(names[i])};
    }
    assert names[..|names|] == names;
    for i := 0 to |required|
      invariant forall j :: 0 <= j < i ==> NameKey(required[j]) in covered
    {
      if NameKey(required[i]) !in covered {
        assert required[i] in required;
        return false;
      }
    }
    return true;
  }

  lemma {:induction false} MissingAppend(targets: seq<Target>, t: Target, absent: set<Target>)
    ensures Cursor.Missing(targets + [t], absent) == Cursor.Missing(targets, absent) + if t in absent then [t] else []
  {
    if targets == [] {
      assert targets + [t] == [t];
    } else {
      assert (targets + [t])[1..] == targets[1..] + [t];
      MissingAppend(targets[1..], t, absent);
    }
  }

  lemma NoneMissing(absent: set<Target>)
    ensures Cursor.Missing([], absent) == []
  {
  }

  lemma {:induction false} MissingMembers(targets: seq<Target>, absent: set<Target>, t: Target)
    ensures t in Cursor.Missing(targets, absent) <==> t in targets && t in absent
  {
    if targets != [] {
      assert targets == [targets[0]] + targets[1..];
      MissingMembers(targets[1..], absent, t);
    }
  }

  lemma MissingAreAbsent(certs: map<string, Certificate>, targets: seq<Target>, now: int)
    ensures forall t :: t in MissingTargets(certs, targets, now) <==>
              t in targets
              && !exists id :: id in certs && IsValidAt(certs[id], now) && CarriesAll(certs[id], t.names)
  {
    hide HasCertificate, IsValidAt, CarriesAll, Cursor.Missing;
    forall t
      ensures t in MissingTargets(certs, targets, now) <==>
                t in targets
                && !exists id :: id in certs && IsValidAt(certs[id], now) && CarriesAll(certs[id], t.names)
    {
      MissingMembers(targets, Absent(certs, targets, now), t);
      PossessionIff(certs, t, now);
    }
  }

  /** The certificates after every target of a batch has been ordered once. */
  function Obtained(certs: map<string, Certificate>, batch: seq<Target>, issuer: Target -> Option<Stored>)
    : map<string, Certificate>
  {
    if batch == [] then certs
    else
      var before := Obtained(certs, batch[..|batch| - 1], issuer);
      match issuer(batch[|batch| - 1])
      case None => before
      case Some(stored) => before[stored.id := stored.cert]
  }

  function BatchSize(configured: int): (size: nat)
    ensures size > 0
  {
    if configured <= 0 then DEFAULT_OBTAIN_BATCH_SIZE else configured
  }

  /** The inputs a reconcile reads from its collaborators. */
  datatype Inputs = Inputs(routes: seq<string>, external: set<string>, additional: seq<string>, mode: Option<Challenge>,
                           findZone: string -> Option<string>, issuer: Target -> Option<Stored>)

  /** The targets a reconcile aims at for the given hosts, when they can be derived. */
  ghost predicate Derives(inputs: Inputs, hosts: seq<string>, targets: seq<Target>) {
    match inputs.mode
    case None => false
    case Some(HTTP01) => |targets| == |hosts| && forall i :: 0 <= i < |hosts| ==> targets[i] == HTTPTarget(hosts[i])
    case Some(DNS01) =>
      exists bases :: BasesOf(bases, hosts, inputs.findZone)
        && |targets| == |bases| && forall i :: 0 <= i < |bases| ==> targets[i] == DNSTarget(bases[i])
  }

  predicate Derivable(inputs: Inputs, hosts: seq<string>) {
    match inputs.mode
    case None => false
    case Some(HTTP01) => true
    case Some(DNS01) => forall h :: h in hosts ==> HostBase(h, inputs.findZone).Some?
  }

  method DeriveCertificateTargets(inputs: Inputs, hosts: seq<string>) returns (ok: bool, targets: seq<Target>)
    requires forall h :: h in hosts ==> IsCanonical(h)
    ensures ok == Derivable(inputs, hosts)
    ensures ok ==> Derives(inputs, hosts, targets)
  {
    hide IsCanonical, HostBase, BasesOf;
    match inputs.mode {
      case None => return false, [];
      case Some(HTTP01) =>
        targets := DeriveHTTP01Targets(hosts);
        return true, targets;
      case Some(DNS01) =>
        ghost var bases;
        ok, targets, bases := DeriveDNS01Targets(hosts, inputs.findZone);
    }
  }

  class Service {
    const obtainBatchSize: int
    var certs: map<string, Certificate>
    var requiredHosts: set<string>
    var obtainCursor: nat

    constructor (obtainBatchSize: int)
      ensures certs == map[] && requiredHosts == {} && obtainCursor == 0 && this.obtainBatchSize == obtainBatchSize
    {
      this.obtainBatchSize := obtainBatchSize;
      certs, requiredHosts, obtainCursor := map[], {}, 0;
    }

    method CertificateExists(target: Target, now: int) returns (found: bool)
      ensures found == HasCertificate(certs, target, now)
      ensures found <==> exists id :: id in certs && IsValidAt(certs[id], now) && CarriesAll(certs[id], target.names)
    {
      PossessionIff(certs, target, now);
      hide ExactlyCovers, IsValidAt, CarriesAll;
      var todo := certs.Keys;
      while todo != {}
        invariant todo <= certs.Keys
        invariant forall id :: id in certs && id !in todo ==>
                    !(Current(certs[id], now) && ExactlyCovers(certs[id].names, target.names))
      {
        var id :| id in todo;
        todo := todo - {id};
        if Current(certs[id], now) {
          var covers := ExactNamesCoverAll(certs[id].names, target.names);
          if covers { return true; }
        }
      }
      return false;
    }

    /** The first loop of `selectMissingTargetsLocked`. */
    method FilterMissing(targets: seq<Target>, now: int) returns (all: seq<Target>)
      ensures all == MissingTargets(certs, targets, now)
      ensures forall t :: t in all <==>
                t in targets
                && !exists id :: id in certs && IsValidAt(certs[id], now) && CarriesAll(certs[id], t.names)
    {
      hide HasCertificate, Cursor.Missing, IsValidAt, CarriesAll;
      MissingAreAbsent(certs, targets, now);
      all := [];
      ghost var absent := Absent(certs, targets, now);
      NoneMissing(absent);
      for i := 0 to |targets|
        invariant all == Cursor.Missing(targets[..i], absent)
      {
        var present := CertificateExists(targets[i], now);
        assert targets[..i + 1] == targets[..i] + [targets[i]];
        MissingAppend(targets[..i], targets[i], absent);
        if !present { all := all + [targets[i]]; }
      }
      assert targets[..|targets|] == targets;
    }

    method SelectMissingTargets(targets: seq<Target>, configured: int, now: int)
      returns (missing: seq<Target>, pending: nat, next: nat, changed: bool)
      ensures var all := MissingTargets(certs, targets, now);
              && pending == |all|
              && missing == Cursor.Batch(all, obtainCursor, BatchSize(configured))
              && next == Cursor.NextCursor(|all|, obtainCursor, BatchSize(configured))
      ensures changed == (next != obtainCursor)
      ensures var size := if configured <= 0 then 1 else configured;
              |missing| == if size < pending then size else pending
    {
      hide MissingTargets, IsValidAt, CarriesAll, Cursor.Batch, Cursor.NextCursor, Cursor.Slot;
      Cursor.WholeBatch(MissingTargets(certs, targets, now), obtainCursor, BatchSize(configured));
      var size := if configured <= 0 then DEFAULT_OBTAIN_BATCH_SIZE else configured;
      var all := FilterMissing(targets, now);
      pending := |all|;
      if size >= pending { return all, pending, 0, 0 != obtainCursor; }
      missing := [];
      var start := obtainCursor % pending;
      for i := 0 to size
        invariant |missing| == i && forall k :: 0 <= k < i ==> missing[k] == all[Cursor.Slot(start, k, pending)]
      {
        missing := missing + [all[Cursor.Slot(start, i, pending)]];
      }
      next := Cursor.Slot(start, size, pending);
      changed := next != obtainCursor;
      Cursor.BatchBySlots(all, obtainCursor, size, missing);
    }

    method ReconcileMissingTargets(missing: seq<Target>, issuer: Target -> Option<Stored>)
      modifies this`certs
      ensures certs == Obtained(old(certs), missing, issuer)
    {
      for i := 0 to |missing|
        invariant certs == Obtained(old(certs), missing[..i], issuer)
      {
        assert missing[..i + 1][..i] == missing[..i];
        match issuer(missing[i]) {
          case None =>
          case Some(stored) => certs := certs[stored.id := stored.cert];
        }
      }
      assert missing[..|missing|] == missing;
    }

    /** One reconcile. The required hosts are replaced even when the targets cannot be derived. */
    method Reconcile(inputs: Inputs, now: int) returns (ok: bool, ghost hosts: seq<string>, ghost targets: seq<Target>)
      modifies this
      ensures Collects(hosts, RawHosts(inputs.routes, inputs.external, inputs.additional))
      ensures forall h :: h in hosts ==> IsCanonical(h)
      ensures requiredHosts == Elements(hosts)
      ensures ok == Derivable(inputs, hosts)
      ensures !ok ==> certs == old(certs) && obtainCursor == old(obtainCursor)
      ensures ok ==>
                && Derives(inputs, hosts, targets)
                && Round(old(certs), old(obtainCursor), certs, obtainCursor, targets, BatchSize(obtainBatchSize), now,
                    inputs.issuer)
    {
      hide IsCanonical, Collects, Derives, Derivable;
      var found := RouteHosts(inputs.routes, inputs.external, inputs.additional);
      hosts, targets := found, [];
      requiredHosts := CanonicalHostSet(found);
      var derived;
      ok, derived := DeriveCertificateTargets(inputs, found);
      targets := derived;
      if !ok { return; }
      var missing, pending, next, changed := SelectMissingTargets(derived, obtainBatchSize, now);
      if changed { obtainCursor := next; }
      ReconcileMissingTargets(missing, inputs.issuer);
    }

    /** A handshake is served a certificate in date that names the host; without one it is refused. */
    method GetCertificateForHost(rawHost: string, now: int) returns (r: Lookup)
      ensures r.NotRequired? <==> NormalizeHost(rawHost) == "" || NormalizeHost(rawHost) !in requiredHosts
      ensures !r.NotRequired? ==> (r.Found? <==> HostIsServed(certs, NormalizeHost(rawHost), now))
      ensures r.Found? ==>
                r.cert in certs.Values && IsValidAt(r.cert, now) && CarriesNameOf(r.cert, NormalizeHost(rawHost))
      ensures r.NotCovered? ==>
                forall id :: id in certs && IsValidAt(certs[id], now) ==>
                  !CarriesNameOf(certs[id], NormalizeHost(rawHost))
    {
      hide NormalizeHost, NamesCoverHost, IsValidAt, CarriesNameOf, Current;
      forall id | id in certs
        ensures NamesCoverHost(certs[id].names, NormalizeHost(rawHost))
            <==> CarriesNameOf(certs[id], NormalizeHost(rawHost))
        ensures Current(certs[id], now) <==> IsValidAt(certs[id], now)
      {
        CarriesIff(certs[id], NormalizeHost(rawHost));
        CurrentIff(certs[id], now);
      }
      var host := NormalizeHost(rawHost);
      if host == "" { return NotRequired; }
      if host !in requiredHosts { return NotRequired; }
      var todo := certs.Keys;
      while todo != {}
        invariant todo <= certs.Keys
        invariant forall id :: id in certs && id !in todo ==>
                !(Current(certs[id], now) && NamesCoverHost(certs[id].names, host))
      {
        var id :| id in todo;
        todo := todo - {id};
        if Current(certs[id], now) && NamesCoverHost(certs[id].names, host) { return Found(certs[id]); }
      }
      return NotCovered;
    }
  }

  /** `canonicalHostSet`, which leaves canonical hosts as they are. */
  method CanonicalHostSet(hosts: seq<string>) returns (required: set<string>)
    requires forall h :: h in hosts ==> IsCanonical(h)
    ensures required == Elements(hosts)
  {
    required := {};
    for i := 0 to |hosts|
      invariant required == Elements(hosts[..i])
    {
      assert IsPlain(hosts[i]) by { assert hosts[i] in hosts; }
      PlainIsNormal(hosts[i]);
      hide *;
      assert Elements(hosts[..i + 1]) == Elements(hosts[..i]) + {hosts[i]} by { ElementsGrow(hosts, i); }
      var host := NormalizeHost(hosts[i]);
      if host != "" { required := required + {host}; }
      assert hosts[i] != "" by { PlainIsNotEmpty(hosts[i]); }
    }
    assert hosts[..|hosts|] == hosts;
  }

  lemma PlainIsNotEmpty(name: string)
    requires IsPlain(name)
    ensures name != ""
  {
  }

  lemma ElementsGrow(list: seq<string>, i: nat)
    requires i < |list|
    ensures Elements(list[..i + 1]) == Elements(list[..i]) + {list[i]}
  {
    assert list[..i + 1] == list[..i] + [list[i]];
  }

  /** How one successful reconcile moves the certificates and the cursor. */
  ghost predicate Round(certs: map<string, Certificate>, cursor: nat, certs': map<string, Certificate>, cursor': nat,
                        targets: seq<Target>, size: nat, now: int, issuer: Target -> Option<Stored>)
    requires size > 0
  {
    var all := MissingTargets(certs, targets, now);
    && cursor' == Cursor.NextCursor(|all|, cursor, size)
    && certs' == Obtained(certs, Cursor.Batch(all, cursor, size), issuer)
  }

  // ------------------------------------------------------------------ covered targets serve their hosts

  lemma KeyOfPlain(n: string, r: string)
    requires IsPlain(r) && NameKey(n) == NameKey(r)
    ensures NormalizeHost(n) == r
  {
    assert TrimSuffix(r, ".") == r;
    LowerStays(r);
    var m := TrimSuffix(n, ".");
    assert ToLower(m) == r;
    forall i | 0 <= i < |m| ensures !IsSpace(m[i]) {
      assert LowerChar(m[i]) == r[i];
    }
    assert n == m || n == m + ".";
    TrimmedByEnds(n);
    if n != m {
      assert ToLower(n) == r + ".";
      AppendHasSuffix(r, ".");
    } else {
      assert ToLower(n) == r;
    }
  }

  /** A certificate that names a target exactly covers every host the target covers. */
  lemma ExactCoverageServes(names: seq<string>, target: Target, host: string)
    requires ExactlyCovers(names, target.names) && NamesCoverHost(target.names, host)
    requires forall n :: n in target.names ==> IsPlain(n)
    ensures NamesCoverHost(names, host)
  {
    hide NormalizeHost, NameCovers, NameKey, IsPlain;
    var i :| 0 <= i < |target.names| && NameCovers(NormalizeHost(target.names[i]), NormalizeHost(host));
    var r := target.names[i];
    var n :| n in names && NameKey(n) == NameKey(r);
    KeyOfPlain(n, r);
    PlainIsNormal(r);
    var j :| 0 <= j < |names| && names[j] == n;
    assert NameCovers(NormalizeHost(names[j]), NormalizeHost(host));
  }

  lemma {:induction false} NothingMissing(certs: map<string, Certificate>, targets: seq<Target>, now: int, t: Target)
    requires MissingTargets(certs, targets, now) == [] && t in targets
    ensures HasCertificate(certs, t, now)
  {
    assert t !in Cursor.Missing(targets, Absent(certs, targets, now));
  }

  /**
   * The targets derived from canonical hosts cover all of them, provided the zones a resolver returns enclose their
   * hosts; so when no target is missing, every required host is served.
   */
  lemma NoMissingTargetMeansEveryHostIsServed(inputs: Inputs, hosts: seq<string>, targets: seq<Target>,
                                              certs: map<string, Certificate>, now: int, host: string)
    requires host in hosts && Derives(inputs, hosts, targets)
    requires forall h :: h in hosts ==> IsCanonical(h)
    requires inputs.mode == Some(DNS01) ==>
               forall h :: h in hosts ==> inputs.findZone(h).Some? && Encloses(inputs.findZone(h).value, h)
    requires MissingTargets(certs, targets, now) == []
    ensures NormalizeHost(host) == host && HostIsServed(certs, host, now)
  {
    PlainIsNormal(host);
    hide NormalizeHost, NamesCoverHost, IsCanonical, IsPlain, Encloses, BasesOf;
    DerivedTargetsCover(inputs, hosts, targets);
    var t :| t in targets && NamesCoverHost(t.names, host);
    NothingMissing(certs, targets, now, t);
    var id :| id in certs && Current(certs[id], now) && ExactlyCovers(certs[id].names, t.names);
    ExactCoverageServes(certs[id].names, t, host);
  }

  lemma DerivedTargetsCover(inputs: Inputs, hosts: seq<string>, targets: seq<Target>)
    requires Derives(inputs, hosts, targets)
    requires forall h :: h in hosts ==> IsCanonical(h)
    requires inputs.mode == Some(DNS01) ==>
               forall h :: h in hosts ==> inputs.findZone(h).Some? && Encloses(inputs.findZone(h).value, h)
    ensures PlainNames(targets) && forall h :: h in hosts ==> CoveredByTargets(h, targets)
  {
    hide IsCanonical, Encloses, BasesOf, CoveredByTargets, PlainNames;
    if inputs.mode == Some(HTTP01) {
      HTTPTargetsCover(hosts, targets);
    } else {
      var bases :| BasesOf(bases, hosts, inputs.findZone)
        && |targets| == |bases| && forall i :: 0 <= i < |bases| ==> targets[i] == DNSTarget(bases[i]);
      DNSTargetsCover(hosts, inputs.findZone, bases, targets);
    }
  }

  // ------------------------------------------------------------------ obtains make progress and starve nobody

  /** Certificates stored under a target's id carry the names of that target. */
  ghost predicate Labelled(certs: map<string, Certificate>, targets: seq<Target>) {
    forall t :: t in targets && t.id in certs ==> certs[t.id].names == t.names
  }

  /** An issuer that answers an order, if at all, with a current certificate for just that order. */
  ghost predicate Honest(issuer: Target -> Option<Stored>, targets: seq<Target>, now: int) {
    forall t :: t in targets && issuer(t).Some? ==>
      issuer(t).value.id == t.id && issuer(t).value.cert.names == t.names && Current(issuer(t).value.cert, now)
  }

  ghost predicate DistinctIds(targets: seq<Target>) {
    forall t, u :: t in targets && u in targets && t.id == u.id ==> t == u
  }

  /** Derived targets never share an id. */
  lemma DerivedIdsAreDistinct(inputs: Inputs, hosts: seq<string>, targets: seq<Target>)
    requires Derives(inputs, hosts, targets)
    ensures DistinctIds(targets)
  {
    hide BasesOf;
    forall t, u | t in targets && u in targets && t.id == u.id ensures t == u {
      var i :| 0 <= i < |targets| && targets[i] == t;
      var j :| 0 <= j < |targets| && targets[j] == u;
      if inputs.mode == Some(HTTP01) {
        assert hosts[i] == t.id[7..] == u.id[7..] == hosts[j];
      } else {
        assert t.names[0] == t.id[6..] == u.id[6..] == u.names[0];
      }
    }
  }

  lemma StoredStep(certs: map<string, Certificate>, t: Target, stored: Stored, targets: seq<Target>, now: int)
    requires Labelled(certs, targets) && DistinctIds(targets) && t in targets
    requires stored.id == t.id && stored.cert.names == t.names && Current(stored.cert, now)
    ensures Labelled(certs[stored.id := stored.cert], targets)
    ensures HasCertificate(certs[stored.id := stored.cert], t, now)
    ensures forall u :: HasCertificate(certs, u, now) ==> HasCertificate(certs[stored.id := stored.cert], u, now)
  {
    var certs' := certs[stored.id := stored.cert];
    assert ExactlyCovers(stored.cert.names, t.names);
    assert stored.id in certs';
    hide ExactlyCovers;
    forall u | HasCertificate(certs, u, now) ensures HasCertificate(certs', u, now) {
      var id :| id in certs && Current(certs[id], now) && ExactlyCovers(certs[id].names, u.names);
      assert id in certs' && certs'[id].names == certs[id].names;
    }
  }

  /** Ordering a batch leaves nothing covered uncovered, and covers every target whose order succeeded. */
  lemma {:induction false} ObtainsOnlyShrink(certs: map<string, Certificate>, batch: seq<Target>,
                                             issuer: Target -> Option<Stored>, targets: seq<Target>, now: int)
    requires Labelled(certs, targets) && Honest(issuer, targets, now) && DistinctIds(targets)
    requires forall t :: t in batch ==> t in targets
    ensures Labelled(Obtained(certs, batch, issuer), targets)
    ensures Absent(Obtained(certs, batch, issuer), targets, now) <= Absent(certs, targets, now)
    ensures forall t :: t in batch && issuer(t).Some? ==> HasCertificate(Obtained(certs, batch, issuer), t, now)
  {
    if batch != [] {
      var last := batch[|batch| - 1];
      var front := batch[..|batch| - 1];
      ObtainsOnlyShrink(certs, front, issuer, targets, now);
      var before := Obtained(certs, front, issuer);
      hide Current, HasCertificate, Labelled;
      assert forall t :: t in batch ==> t in front || t == last;
      if issuer(last).Some? {
        StoredStep(before, last, issuer(last).value, targets, now);
      }
    }
  }

  /** The state before each of a series of reconciles over one set of targets. */
  datatype Instant = Instant(certs: map<string, Certificate>, cursor: nat, now: int, issuer: Target -> Option<Stored>)

  /** Consecutive reconciles, between which no certificate expires that some target relies on. */
  ghost predicate Series(run: seq<Instant>, targets: seq<Target>, size: nat)
    requires size > 0
  {
    && (forall i :: 0 <= i < |run| ==> Honest(run[i].issuer, targets, run[i].now))
    && forall i :: 0 <= i < |run| - 1 ==>
         && Round(run[i].certs, run[i].cursor, run[i + 1].certs, run[i + 1].cursor, targets, size, run[i].now,
             run[i].issuer)
         && Absent(run[i + 1].certs, targets, run[i + 1].now) <= Absent(run[i + 1].certs, targets, run[i].now)
  }

  lemma BatchWithin(certs: map<string, Certificate>, cursor: nat, targets: seq<Target>, size: nat, now: int)
    requires size > 0
    ensures forall t :: t in Cursor.Batch(MissingTargets(certs, targets, now), cursor, size) ==> t in targets
  {
    var all := MissingTargets(certs, targets, now);
    hide Cursor.Missing, Absent;
    if size < |all| {
      forall i | 0 <= i < size ensures Cursor.Batch(all, cursor, size)[i] in all {
        Cursor.BatchAt(all, cursor, size, i);
      }
    }
  }

  lemma RoundShrinks(run: seq<Instant>, targets: seq<Target>, size: nat, i: nat)
    requires size > 0 && Series(run, targets, size) && i < |run| - 1
    requires DistinctIds(targets) && Labelled(run[i].certs, targets)
    ensures Labelled(run[i + 1].certs, targets)
    ensures Absent(run[i + 1].certs, targets, run[i + 1].now) <= Absent(run[i].certs, targets, run[i].now)
  {
    var a := run[i];
    BatchWithin(a.certs, a.cursor, targets, size, a.now);
    var batch := Cursor.Batch(MissingTargets(a.certs, targets, a.now), a.cursor, size);
    hide MissingTargets, Absent, Labelled, DistinctIds, Honest, Cursor.Batch;
    assert Honest(a.issuer, targets, a.now);
    ObtainsOnlyShrink(a.certs, batch, a.issuer, targets, a.now);
  }

  lemma {:induction false} StaysLabelled(run: seq<Instant>, targets: seq<Target>, size: nat, i: nat)
    requires size > 0 && Series(run, targets, size) && i < |run|
    requires DistinctIds(targets) && Labelled(run[0].certs, targets)
    ensures Labelled(run[i].certs, targets)
  {
    hide *;
    if i > 0 {
      StaysLabelled(run, targets, size, i - 1);
      RoundShrinks(run, targets, size, i - 1);
    }
  }

  /** The target was ordered in the reconcile that started at this instant. */
  ghost predicate Ordered(at: Instant, targets: seq<Target>, size: nat, t: Target)
    requires size > 0
  {
    t in Cursor.Batch(MissingTargets(at.certs, targets, at.now), at.cursor, size)
  }

  /**
   * No target starves: of n targets missing at first, each is ordered or has a certificate within (n + 1) * turn
   * reconciles, where turn batches go once around n targets, whatever the orders' outcomes and from any cursor.
   */
  lemma EveryTargetGetsItsTurn(run: seq<Instant>, targets: seq<Target>, size: nat, t: Target) returns (r: nat)
    requires size > 0 && Series(run, targets, size) && t in targets
    requires DistinctIds(targets) && |run| > 0 && Labelled(run[0].certs, targets)
    requires var n := |MissingTargets(run[0].certs, targets, run[0].now)|;
             n > 0 && |run| >= (n + 1) * Cursor.Turn(n, size)
    ensures r < |run| && (HasCertificate(run[r].certs, t, run[r].now) || Ordered(run[r], targets, size, t))
  {
    var absent := seq(|run|, i requires 0 <= i < |run| => Absent(run[i].certs, targets, run[i].now));
    var cursors: seq<nat> := seq(|run|, i requires 0 <= i < |run| => run[i].cursor);
    forall i | 0 <= i < |absent| - 1
      ensures absent[i + 1] <= absent[i]
      ensures cursors[i + 1] == Cursor.NextCursor(|Cursor.Missing(targets, absent[i])|, cursors[i], size)
    {
      StaysLabelled(run, targets, size, i);
      RoundShrinks(run, targets, size, i);
    }
    var n := |MissingTargets(run[0].certs, targets, run[0].now)|;
    Cursor.TurnIsEnough(n, size);
    r := Cursor.NoTargetStarves(targets, absent, cursors, size, Cursor.Turn(n, size), t);
  }
}
