/** Selecting the volumes to back up (backup/volume_targets.go). */
module VolumeTargets {
  import opened Options
  import opened Sorting
  import opened Text

  const LABEL_DOMAIN := "gordon.domain"
  const LABEL_MANAGED := "gordon.managed"
  const LABEL_ROUTE := "gordon.route"
  const LABEL_ATTACHMENT := "gordon.attachment"
  const LABEL_ATTACHED_TO := "gordon.attached-to"

  datatype Mount = Mount(name: string, kind: string, source: string, destination: string, readOnly: bool)

  /** Missing labels and no labels at all are the same to the selection. */
  datatype Container = Container(id: string, name: string, labels: map<string, string>, mounts: seq<Mount>)

  datatype BackupTarget = BackupTarget(domain: string, containerName: string, containerID: string, volume: string,
      path: string)

  /** The prefix of managed volumes, and the filters; empty strings mean "any". */
  datatype Scope = Scope(prefix: string, domain: string, volume: string)

  function LabelOf(c: Container, key: string): string {
    if key in c.labels then c.labels[key] else ""
  }

  /** `volumeBackupDomain`. */
  function DomainOf(c: Container): string {
    if LabelOf(c, LABEL_ATTACHMENT) == "true" then LabelOf(c, LABEL_ATTACHED_TO)
    else if LabelOf(c, LABEL_DOMAIN) != "" then LabelOf(c, LABEL_DOMAIN)
    else LabelOf(c, LABEL_ROUTE)
  }

  predicate IsSelected(c: Container, scope: Scope) {
    LabelOf(c, LABEL_MANAGED) == "true" && DomainOf(c) != "" && (scope.domain != "" ==> DomainOf(c) == scope.domain)
  }

  predicate IsEligible(m: Mount, scope: Scope) {
    && (scope.volume != "" ==> m.name == scope.volume)
    && m.kind == "volume" && m.name != "" && m.destination != ""
    && (TrimSpace(scope.prefix) != "" ==> HasPrefix(m.name, TrimSpace(scope.prefix) + "-"))
  }

  // ------------------------------------------------------------------ the orders

  predicate PairLess(a1: string, a2: string, b1: string, b2: string) {
    if a1 != b1 then Less(a1, b1) else Less(a2, b2)
  }

  lemma PairTransitive(a1: string, a2: string, b1: string, b2: string, c1: string, c2: string)
    requires PairLess(a1, a2, b1, b2) && PairLess(b1, b2, c1, c2)
    ensures PairLess(a1, a2, c1, c2)
  {
    LessIrreflexive(a1);
    LessIrreflexive(b1);
    if a1 == c1 && a1 != b1 { LessTransitive(a1, b1, c1); }
    if a1 == b1 && b1 == c1 { LessTransitive(a2, b2, c2); }
    if a1 != b1 && b1 != c1 { LessTransitive(a1, b1, c1); }
  }

  lemma PairIrreflexive(a1: string, a2: string)
    ensures !PairLess(a1, a2, a1, a2)
  {
    LessIrreflexive(a2);
  }

  predicate ContainerLess(a: Container, b: Container) {
    PairLess(DomainOf(a), a.name, DomainOf(b), b.name)
  }

  predicate MountLess(a: Mount, b: Mount) {
    PairLess(a.name, a.destination, b.name, b.destination)
  }

  predicate SameContainer(a: BackupTarget, b: BackupTarget) {
    a.domain == b.domain && a.containerName == b.containerName
  }

  /** By domain and container name, then by volume and path. */
  predicate TargetLess(a: BackupTarget, b: BackupTarget) {
    if SameContainer(a, b) then PairLess(a.volume, a.path, b.volume, b.path)
    else PairLess(a.domain, a.containerName, b.domain, b.containerName)
  }

  lemma ContainerLessCompares()
    ensures Comparator(ContainerLess)
  {
    hide PairLess;
    forall x: Container ensures !ContainerLess(x, x) { PairIrreflexive(DomainOf(x), x.name); }
    forall x: Container, y: Container, z: Container | ContainerLess(x, y) && ContainerLess(y, z)
        ensures ContainerLess(x, z) {
      PairTransitive(DomainOf(x), x.name, DomainOf(y), y.name, DomainOf(z), z.name);
    }
  }

  lemma MountLessCompares()
    ensures Comparator(MountLess)
  {
    hide PairLess;
    forall x: Mount ensures !MountLess(x, x) { PairIrreflexive(x.name, x.destination); }
    forall x: Mount, y: Mount, z: Mount | MountLess(x, y) && MountLess(y, z) ensures MountLess(x, z) {
      PairTransitive(x.name, x.destination, y.name, y.destination, z.name, z.destination);
    }
  }

  lemma TargetLessCompares()
    ensures Comparator(TargetLess)
  {
    hide PairLess;
    forall x: BackupTarget ensures !TargetLess(x, x) { PairIrreflexive(x.volume, x.path); }
    forall x: BackupTarget, y: BackupTarget, z: BackupTarget | TargetLess(x, y) && TargetLess(y, z)
        ensures TargetLess(x, z) {
      TargetTransitive(x, y, z);
    }
  }

  lemma TargetTransitive(x: BackupTarget, y: BackupTarget, z: BackupTarget)
    requires TargetLess(x, y) && TargetLess(y, z)
    ensures TargetLess(x, z)
  {
    hide PairLess;
    if SameContainer(x, y) && SameContainer(y, z) {
      PairTransitive(x.volume, x.path, y.volume, y.path, z.volume, z.path);
    } else if !SameContainer(x, y) && !SameContainer(y, z) {
      PairTransitive(x.domain, x.containerName, y.domain, y.containerName, z.domain, z.containerName);
      PairIrreflexive(x.domain, x.containerName);
    }
  }

  lemma TargetsAreOrdered(a: BackupTarget, b: BackupTarget)
    ensures TargetLess(a, b) || TargetLess(b, a) || (SameContainer(a, b) && a.volume == b.volume && a.path == b.path)
  {
    LessTotal(a.domain, b.domain);
    LessTotal(a.containerName, b.containerName);
    LessTotal(a.volume, b.volume);
    LessTotal(a.path, b.path);
  }

  // ------------------------------------------------------------------ what there is to choose from

  function Offer(c: Container, m: Mount): BackupTarget {
    BackupTarget(DomainOf(c), c.name, c.id, m.name, m.destination)
  }

  function MountOffers(c: Container, mounts: seq<Mount>, scope: Scope): (offers: set<BackupTarget>)
    ensures forall o :: o in offers <==> exists m :: m in mounts && IsEligible(m, scope) && Offer(c, m) == o
  {
    set m | m in mounts && IsEligible(m, scope) :: Offer(c, m)
  }

  function ContainerOffers(c: Container, scope: Scope): set<BackupTarget> {
    if IsSelected(c, scope) then MountOffers(c, c.mounts, scope) else {}
  }

  function Offers(containers: seq<Container>, scope: Scope): (offers: set<BackupTarget>)
    ensures forall o :: o in offers <==> exists c :: c in containers && o in ContainerOffers(c, scope)
  {
    if containers == [] then {}
    else Offers(containers[..|containers| - 1], scope) + ContainerOffers(containers[|containers| - 1], scope)
  }

  function NonNil(containers: seq<Option<Container>>): (s: seq<Container>)
    ensures forall c :: c in s <==> Some(c) in containers
  {
    if containers == [] then []
    else
      var last := containers[|containers| - 1];
      assert containers == containers[..|containers| - 1] + [last];
      NonNil(containers[..|containers| - 1]) + if last.Some? then [last.value] else []
  }

  /** Distinct containers differ in domain or name. */
  ghost predicate DistinctContainers(containers: seq<Container>) {
    forall i, j :: 0 <= i < j < |containers| ==>
      !(DomainOf(containers[i]) == DomainOf(containers[j]) && containers[i].name == containers[j].name)
  }

  predicate HasVolume(targets: seq<BackupTarget>, volume: string) {
    exists t :: t in targets && t.volume == volume
  }

  /** Every volume on offer is chosen exactly once. */
  ghost predicate Covers(targets: seq<BackupTarget>, offers: set<BackupTarget>) {
    && (forall t :: t in targets ==> t in offers)
    && (forall i, j :: 0 <= i < j < |targets| ==> targets[i].volume != targets[j].volume)
    && (forall o :: o in offers ==> HasVolume(targets, o.volume))
  }

  /** Every volume is taken from the least place on offer, and the targets are in order. */
  ghost predicate IsLeast(targets: seq<BackupTarget>, offers: set<BackupTarget>) {
    && Sorted(targets, TargetLess)
    && forall t, o :: t in targets && o in offers && o.volume == t.volume ==> !TargetLess(o, t)
  }

  ghost predicate Selection(targets: seq<BackupTarget>, containers: seq<Option<Container>>, scope: Scope) {
    && Covers(targets, Offers(NonNil(containers), scope))
    && (DistinctContainers(NonNil(containers)) ==> IsLeast(targets, Offers(NonNil(containers), scope)))
  }

  // ------------------------------------------------------------------ the same in terms of labels and mounts

  ghost predicate Labelled(c: Container, key: string, value: string) {
    key in c.labels && c.labels[key] == value
  }

  /** An attachment belongs to the domain it is attached to, any other container to its domain or else its route. */
  ghost predicate BelongsTo(c: Container, domain: string) {
    if Labelled(c, "gordon.attachment", "true") then Labelled(c, "gordon.attached-to", domain)
    else if "gordon.domain" in c.labels && c.labels["gordon.domain"] != "" then Labelled(c, "gordon.domain", domain)
    else Labelled(c, "gordon.route", domain)
  }

  /** A managed container of the scope mounts the volume at the path, and the scope wants the volume. */
  ghost predicate Provides(c: Container, m: Mount, scope: Scope, o: BackupTarget) {
    && o.domain != "" && (scope.domain == "" || o.domain == scope.domain)
    && Labelled(c, "gordon.managed", "true") && BelongsTo(c, o.domain)
    && c.name == o.containerName && c.id == o.containerID
    && m in c.mounts && m.kind == "volume" && m.name == o.volume && m.destination == o.path
    && o.volume != "" && o.path != "" && (scope.volume == "" || o.volume == scope.volume)
    && (TrimSpace(scope.prefix) == "" || exists rest :: o.volume == TrimSpace(scope.prefix) + ("-" + rest))
  }

  ghost predicate OnOffer(containers: seq<Option<Container>>, scope: Scope, o: BackupTarget) {
    exists c, m :: Some(c) in containers && Provides(c, m, scope, o)
  }

  /** In the alphabetical order of domain, container name, volume and path. */
  ghost predicate Precedes(a: BackupTarget, b: BackupTarget) {
    || Less(a.domain, b.domain)
    || (a.domain == b.domain && Less(a.containerName, b.containerName))
    || (a.domain == b.domain && a.containerName == b.containerName && Less(a.volume, b.volume))
    || (a.domain == b.domain && a.containerName == b.containerName && a.volume == b.volume && Less(a.path, b.path))
  }

  lemma PrecedesIff(a: BackupTarget, b: BackupTarget)
    ensures TargetLess(a, b) <==> Precedes(a, b)
  {
    LessIrreflexive(a.domain);
    LessIrreflexive(a.containerName);
    LessIrreflexive(a.volume);
  }

  lemma BelongsIff(c: Container, domain: string)
    requires domain != ""
    ensures DomainOf(c) == domain <==> BelongsTo(c, domain)
  {
  }

  lemma PrefixIff(name: string, prefix: string)
    ensures HasPrefix(name, prefix + "-") <==> exists rest :: name == prefix + ("-" + rest)
  {
    if HasPrefix(name, prefix + "-") {
      assert name == (prefix + "-") + name[|prefix| + 1..] == prefix + ("-" + name[|prefix| + 1..]);
    }
    forall rest | name == prefix + ("-" + rest) ensures HasPrefix(name, prefix + "-") {
      assert name[..|prefix| + 1] == prefix + "-";
    }
  }

  lemma ProvidesIff(c: Container, m: Mount, scope: Scope, o: BackupTarget)
    ensures Provides(c, m, scope, o) <==>
              IsSelected(c, scope) && m in c.mounts && IsEligible(m, scope) && Offer(c, m) == o
  {
    hide BelongsTo, DomainOf, HasPrefix, TrimSpace;
    if o.domain != "" { BelongsIff(c, o.domain); }
    PrefixIff(o.volume, TrimSpace(scope.prefix));
  }

  lemma OnOfferIff(containers: seq<Option<Container>>, scope: Scope, o: BackupTarget)
    ensures o in Offers(NonNil(containers), scope) <==> OnOffer(containers, scope, o)
  {
    hide Provides, IsSelected, IsEligible, Offer;
    forall c, m
      ensures Provides(c, m, scope, o) <==>
                IsSelected(c, scope) && m in c.mounts && IsEligible(m, scope) && Offer(c, m) == o
    {
      ProvidesIff(c, m, scope, o);
    }
  }

  /** Every volume on offer is taken once, and nothing else. */
  ghost predicate TakesEachVolumeOnce(targets: seq<BackupTarget>, containers: seq<Option<Container>>, scope: Scope) {
    && (forall t :: t in targets ==> OnOffer(containers, scope, t))
    && (forall o :: OnOffer(containers, scope, o) ==> exists t :: t in targets && t.volume == o.volume)
    && (forall i, j :: 0 <= i < j < |targets| ==> targets[i].volume != targets[j].volume)
  }

  /** Every volume is taken from the first place in the alphabetical order, and the targets come in that order. */
  ghost predicate TakesFirstPlaces(targets: seq<BackupTarget>, containers: seq<Option<Container>>, scope: Scope) {
    && (forall i, j :: 0 <= i < j < |targets| ==> !Precedes(targets[j], targets[i]))
    && (forall t, o :: t in targets && OnOffer(containers, scope, o) && o.volume == t.volume ==> !Precedes(o, t))
  }

  lemma SelectionMeans(targets: seq<BackupTarget>, containers: seq<Option<Container>>, scope: Scope)
    requires Selection(targets, containers, scope)
    ensures TakesEachVolumeOnce(targets, containers, scope)
    ensures DistinctContainers(NonNil(containers)) ==> TakesFirstPlaces(targets, containers, scope)
  {
    hide OnOffer, Precedes, TargetLess, Offers, NonNil, DistinctContainers;
    var offers := Offers(NonNil(containers), scope);
    forall o ensures o in offers <==> OnOffer(containers, scope, o) { OnOfferIff(containers, scope, o); }
    CoversMeans(targets, offers, containers, scope);
    if DistinctContainers(NonNil(containers)) { LeastMeans(targets, offers, containers, scope); }
    hide Covers, IsLeast, TakesEachVolumeOnce, TakesFirstPlaces;
  }

  lemma CoversMeans(targets: seq<BackupTarget>, offers: set<BackupTarget>, containers: seq<Option<Container>>,
                    scope: Scope)
    requires Covers(targets, offers) && forall o :: o in offers <==> OnOffer(containers, scope, o)
    ensures TakesEachVolumeOnce(targets, containers, scope)
  {
    hide OnOffer;
  }

  lemma LeastMeans(targets: seq<BackupTarget>, offers: set<BackupTarget>, containers: seq<Option<Container>>,
                   scope: Scope)
    requires IsLeast(targets, offers) && forall o :: o in offers <==> OnOffer(containers, scope, o)
    ensures TakesFirstPlaces(targets, containers, scope)
  {
    hide OnOffer, Precedes, TargetLess;
    forall a, b ensures TargetLess(a, b) <==> Precedes(a, b) { PrecedesIff(a, b); }
  }

  // ------------------------------------------------------------------ the selection

  method SortedContainers(containers: seq<Option<Container>>) returns (sorted: seq<Container>)
    ensures Sorted(sorted, ContainerLess) && multiset(sorted) == multiset(NonNil(containers))
  {
    sorted := [];
    for i := 0 to |containers|
      invariant sorted == NonNil(containers[..i])
    {
      assert containers[..i + 1][..i] == containers[..i];
      if containers[i].Some? { sorted := sorted + [containers[i].value]; }
    }
    assert containers[..|containers|] == containers;
    ContainerLessCompares();
    sorted := SortSlice(sorted, ContainerLess);
  }

  method SelectedMounts(mounts: seq<Mount>, scope: Scope) returns (selected: seq<Mount>)
    ensures Sorted(selected, MountLess)
    ensures forall m :: m in selected <==> m in mounts && IsEligible(m, scope)
  {
    hide IsEligible, MountLess;
    MountLessCompares();
    var sorted := SortSlice(mounts, MountLess);
    forall m ensures m in sorted <==> m in mounts { assert m in multiset(sorted) <==> m in multiset(mounts); }
    selected := [];
    for i := 0 to |sorted|
      invariant Sorted(selected, MountLess)
      invariant forall j, k :: 0 <= j < |selected| && i <= k < |sorted| ==> !MountLess(sorted[k], selected[j])
      invariant forall m :: m in selected <==> m in sorted[..i] && IsEligible(m, scope)
    {
      assert sorted[..i + 1] == sorted[..i] + [sorted[i]];
      if IsEligible(sorted[i], scope) { selected := selected + [sorted[i]]; }
    }
    assert sorted[..|sorted|] == sorted;
  }

  /** What the seen set and the targets say of the offers considered so far. */
  ghost predicate Chosen(targets: seq<BackupTarget>, seen: set<string>, offers: set<BackupTarget>, distinct: bool) {
    && Covers(targets, offers)
    && (forall v :: v in seen <==> HasVolume(targets, v))
    && (distinct ==> IsLeast(targets, offers))
  }

  /** An offer that comes no earlier than any before it is taken exactly when its volume has not been seen. */
  lemma OneMoreOffer(targets: seq<BackupTarget>, seen: set<string>, offers: set<BackupTarget>, distinct: bool,
                     o: BackupTarget)
    requires Chosen(targets, seen, offers, distinct)
    requires distinct ==> forall x :: x in offers ==> !TargetLess(o, x)
    ensures Chosen(if o.volume in seen then targets else targets + [o], seen + {o.volume}, offers + {o}, distinct)
  {
    hide TargetLess;
    if o.volume !in seen {
      assert forall t :: t in targets + [o] <==> t in targets || t == o;
      if distinct {
        assert !TargetLess(o, o) by { TargetLessCompares(); }
      }
    }
  }

  method SelectFromContainer(c: Container, domain: string, selected: seq<Mount>, scope: Scope,
                             targets: seq<BackupTarget>, seen: set<string>, ghost before: set<BackupTarget>,
                             ghost distinct: bool)
    returns (targets': seq<BackupTarget>, seen': set<string>)
    requires domain == DomainOf(c) && Sorted(selected, MountLess) && forall m :: m in selected ==> IsEligible(m, scope)
    requires Chosen(targets, seen, before, distinct)
    requires distinct ==> forall x :: x in before ==> PairLess(x.domain, x.containerName, DomainOf(c), c.name)
    ensures Chosen(targets', seen', before + MountOffers(c, selected, scope), distinct)
  {
    hide Chosen, IsEligible, PairLess, MountOffers;
    targets', seen' := targets, seen;
    assert before + MountOffers(c, selected[..0], scope) == before;
    for j := 0 to |selected|
      invariant Chosen(targets', seen', before + MountOffers(c, selected[..j], scope), distinct)
    {
      ghost var offers := before + MountOffers(c, selected[..j], scope);
      var o := BackupTarget(domain, c.name, c.id, selected[j].name, selected[j].destination);
      assert selected[j] in selected;
      if distinct {
        forall x | x in offers ensures !TargetLess(o, x) { NotBefore(c, selected, scope, before, j, x); }
      }
      OneMoreOffer(targets', seen', offers, distinct, o);
      assert before + MountOffers(c, selected[..j + 1], scope) == offers + {o} by {
        OneMoreMount(c, selected, j, scope);
      }
      if o.volume !in seen' {
        seen' := seen' + {o.volume};
        targets' := targets' + [o];
      } else {
        assert seen' + {o.volume} == seen';
      }
    }
    assert selected[..|selected|] == selected;
  }

  lemma OneMoreMount(c: Container, mounts: seq<Mount>, j: nat, scope: Scope)
    requires j < |mounts| && IsEligible(mounts[j], scope)
    ensures MountOffers(c, mounts[..j + 1], scope) == MountOffers(c, mounts[..j], scope) + {Offer(c, mounts[j])}
  {
    assert mounts[..j + 1] == mounts[..j] + [mounts[j]];
    hide IsEligible;
  }

  lemma NotBefore(c: Container, selected: seq<Mount>, scope: Scope, before: set<BackupTarget>, j: nat, x: BackupTarget)
    requires j < |selected| && Sorted(selected, MountLess)
    requires forall y :: y in before ==> PairLess(y.domain, y.containerName, DomainOf(c), c.name)
    requires x in before + MountOffers(c, selected[..j], scope)
    ensures !TargetLess(Offer(c, selected[j]), x)
  {
    hide IsEligible, PairLess;
    var o := Offer(c, selected[j]);
    if x in before {
      PairIrreflexive(x.domain, x.containerName);
      if PairLess(o.domain, o.containerName, x.domain, x.containerName) {
        PairTransitive(x.domain, x.containerName, o.domain, o.containerName, x.domain, x.containerName);
      }
    } else {
      var m :| m in selected[..j] && IsEligible(m, scope) && Offer(c, m) == x;
      var k :| 0 <= k < j && selected[k] == m;
      assert !MountLess(selected[j], selected[k]);
    }
  }

  method SelectFromNext(sorted: seq<Container>, i: nat, scope: Scope, targets: seq<BackupTarget>, seen: set<string>,
                        ghost distinct: bool)
    returns (targets': seq<BackupTarget>, seen': set<string>)
    requires i < |sorted| && Sorted(sorted, ContainerLess) && (distinct ==> DistinctContainers(sorted))
    requires Chosen(targets, seen, Offers(sorted[..i], scope), distinct)
    ensures Chosen(targets', seen', Offers(sorted[..i + 1], scope), distinct)
  {
    var c := sorted[i];
    ghost var before := Offers(sorted[..i], scope);
    assert sorted[..i + 1][..i] == sorted[..i];
    assert Offers(sorted[..i + 1], scope) == before + ContainerOffers(c, scope);
    hide IsSelected, IsEligible, ContainerLess, Chosen, Offers, MountOffers, PairLess, DomainOf;
    if !IsSelected(c, scope) {
      assert before + {} == before;
      return targets, seen;
    }
    var selected := SelectedMounts(c.mounts, scope);
    if distinct {
      forall x | x in before ensures PairLess(x.domain, x.containerName, DomainOf(c), c.name) {
        EarlierOffer(sorted, i, scope, x);
      }
    }
    targets', seen' := SelectFromContainer(c, DomainOf(c), selected, scope, targets, seen, before, distinct);
    SelectedMountsOfferAll(c, selected, scope);
  }

  lemma SelectedMountsOfferAll(c: Container, selected: seq<Mount>, scope: Scope)
    requires forall m :: m in selected <==> m in c.mounts && IsEligible(m, scope)
    ensures MountOffers(c, selected, scope) == MountOffers(c, c.mounts, scope)
  {
    hide IsEligible, Offer;
  }

  method SelectVolumeBackupTargetsForScope(containers: seq<Option<Container>>, scope: Scope)
    returns (targets: seq<BackupTarget>)
    ensures Selection(targets, containers, scope)
    ensures TakesEachVolumeOnce(targets, containers, scope)
    ensures DistinctContainers(NonNil(containers)) ==> TakesFirstPlaces(targets, containers, scope)
  {
    hide *;
    var sorted := SortedContainers(containers);
    ghost var distinct := DistinctContainers(NonNil(containers));
    if distinct { SortedStaysDistinct(NonNil(containers), sorted); }
    targets := [];
    var seen: set<string> := {};
    NothingChosen(sorted[..0], scope, distinct);
    for i := 0 to |sorted|
      invariant Chosen(targets, seen, Offers(sorted[..i], scope), distinct)
    {
      targets, seen := SelectFromNext(sorted, i, scope, targets, seen, distinct);
    }
    assert sorted[..|sorted|] == sorted;
    SamePlacesSameOffers(sorted, NonNil(containers), scope);
    ChosenIsSelection(targets, seen, containers, scope);
    SelectionMeans(targets, containers, scope);
  }

  lemma SamePlacesSameOffers(a: seq<Container>, b: seq<Container>, scope: Scope)
    requires multiset(a) == multiset(b)
    ensures Offers(a, scope) == Offers(b, scope)
  {
    forall c ensures c in a <==> c in b { assert c in multiset(a) <==> c in multiset(b); }
    hide ContainerOffers;
  }

  lemma ChosenIsSelection(targets: seq<BackupTarget>, seen: set<string>, containers: seq<Option<Container>>,
                          scope: Scope)
    requires Chosen(targets, seen, Offers(NonNil(containers), scope), DistinctContainers(NonNil(containers)))
    ensures Selection(targets, containers, scope)
  {
  }

  lemma NothingChosen(none: seq<Container>, scope: Scope, distinct: bool)
    requires none == []
    ensures Chosen([], {}, Offers(none, scope), distinct)
  {
  }

  lemma EarlierOffer(sorted: seq<Container>, i: nat, scope: Scope, x: BackupTarget)
    requires i < |sorted| && Sorted(sorted, ContainerLess) && DistinctContainers(sorted)
    requires x in Offers(sorted[..i], scope)
    ensures PairLess(x.domain, x.containerName, DomainOf(sorted[i]), sorted[i].name)
  {
    hide IsSelected, IsEligible, DomainOf;
    var c :| c in sorted[..i] && x in ContainerOffers(c, scope);
    var k :| 0 <= k < i && sorted[k] == c;
    assert !ContainerLess(sorted[i], sorted[k]);
    LessTotal(DomainOf(c), DomainOf(sorted[i]));
    LessTotal(c.name, sorted[i].name);
  }

  lemma SortedStaysDistinct(s: seq<Container>, sorted: seq<Container>)
    requires DistinctContainers(s) && multiset(sorted) == multiset(s)
    ensures DistinctContainers(sorted)
  {
    hide DomainOf;
    assert Distinct(s);
    PermutationKeepsDistinct(s, sorted);
    forall i, j | 0 <= i < j < |sorted|
      ensures !(DomainOf(sorted[i]) == DomainOf(sorted[j]) && sorted[i].name == sorted[j].name)
    {
      assert sorted[i] in s && sorted[j] in s;
      var a :| 0 <= a < |s| && s[a] == sorted[i];
      var b :| 0 <= b < |s| && s[b] == sorted[j];
    }
  }

  // ------------------------------------------------------------------ the order of the inputs is irrelevant

  /** Among distinct containers, an offer's domain and container name determine the container. */
  lemma OffersIdentify(containers: seq<Container>, scope: Scope, a: BackupTarget, b: BackupTarget)
    requires DistinctContainers(containers) && a in Offers(containers, scope) && b in Offers(containers, scope)
    requires SameContainer(a, b)
    ensures a.containerID == b.containerID
  {
    hide IsSelected, IsEligible, DomainOf;
    var c :| c in containers && a in ContainerOffers(c, scope);
    var d :| d in containers && b in ContainerOffers(d, scope);
    var i :| 0 <= i < |containers| && containers[i] == c;
    var j :| 0 <= j < |containers| && containers[j] == d;
  }

  /** The least choice is the only one. */
  lemma LeastIsUnique(containers: seq<Container>, scope: Scope, s: seq<BackupTarget>, t: seq<BackupTarget>)
    requires DistinctContainers(containers)
    requires Covers(s, Offers(containers, scope)) && IsLeast(s, Offers(containers, scope))
    requires Covers(t, Offers(containers, scope)) && IsLeast(t, Offers(containers, scope))
    ensures s == t
  {
    hide TargetLess, Offers, DistinctContainers;
    SameElements(containers, scope, s, t);
    SameElements(containers, scope, t, s);
    assert Distinct(s) && Distinct(t);
    SameMultiset(s, t);
    TargetLessCompares();
    forall x, y | x in s && y in s ensures x == y || TargetLess(x, y) || TargetLess(y, x) {
      TargetsAreOrdered(x, y);
      if SameContainer(x, y) { OffersIdentify(containers, scope, x, y); }
    }
    SortedUnique(s, t, TargetLess);
  }

  lemma OffersTie(containers: seq<Container>, scope: Scope, x: BackupTarget, y: BackupTarget)
    requires DistinctContainers(containers) && x in Offers(containers, scope) && y in Offers(containers, scope)
    requires x.volume == y.volume && !TargetLess(x, y) && !TargetLess(y, x)
    ensures x == y
  {
    TargetsAreOrdered(x, y);
    OffersIdentify(containers, scope, x, y);
  }

  lemma SameElements(containers: seq<Container>, scope: Scope, s: seq<BackupTarget>, t: seq<BackupTarget>)
    requires DistinctContainers(containers)
    requires Covers(s, Offers(containers, scope)) && IsLeast(s, Offers(containers, scope))
    requires Covers(t, Offers(containers, scope)) && IsLeast(t, Offers(containers, scope))
    ensures forall x :: x in s ==> x in t
  {
    hide *;
    forall x | x in s ensures x in t {
      IsOffered(s, Offers(containers, scope), x);
      var y := TargetOf(t, Offers(containers, scope), x);
      NoneIsLess(s, Offers(containers, scope), x, y);
      NoneIsLess(t, Offers(containers, scope), y, x);
      OffersTie(containers, scope, x, y);
    }
  }

  lemma IsOffered(targets: seq<BackupTarget>, offers: set<BackupTarget>, t: BackupTarget)
    requires Covers(targets, offers) && t in targets
    ensures t in offers
  {
  }

  lemma TargetOf(targets: seq<BackupTarget>, offers: set<BackupTarget>, o: BackupTarget) returns (t: BackupTarget)
    requires Covers(targets, offers) && o in offers
    ensures t in targets && t in offers && t.volume == o.volume
  {
    t :| t in targets && t.volume == o.volume;
  }

  lemma NoneIsLess(targets: seq<BackupTarget>, offers: set<BackupTarget>, t: BackupTarget, o: BackupTarget)
    requires IsLeast(targets, offers) && t in targets && o in offers && o.volume == t.volume
    ensures !TargetLess(o, t)
  {
  }

  lemma SameMultiset<T>(s: seq<T>, t: seq<T>)
    requires Distinct(s) && Distinct(t)
    requires (forall x :: x in s ==> x in t) && forall x :: x in t ==> x in s
    ensures multiset(s) == multiset(t)
  {
    forall x ensures multiset(s)[x] == multiset(t)[x] {
      OnceEach(s, x);
      OnceEach(t, x);
      assert x in multiset(s) <==> x in s;
      assert x in multiset(t) <==> x in t;
    }
  }

  /** The same containers with each mount list permuted. */
  ghost predicate MountsPermuted(a: seq<Option<Container>>, b: seq<Option<Container>>) {
    |a| == |b| && forall i :: 0 <= i < |a| ==>
      if a[i].None? then b[i].None?
      else b[i].Some? && multiset(b[i].value.mounts) == multiset(a[i].value.mounts)
           && b[i].value == a[i].value.(mounts := b[i].value.mounts)
  }

  lemma PermutedMountsOfferTheSame(a: Container, b: Container, scope: Scope)
    requires multiset(b.mounts) == multiset(a.mounts) && b == a.(mounts := b.mounts)
    ensures ContainerOffers(a, scope) == ContainerOffers(b, scope)
    ensures DomainOf(a) == DomainOf(b)
  {
    forall m ensures m in a.mounts <==> m in b.mounts { assert m in multiset(a.mounts) <==> m in multiset(b.mounts); }
    assert MountOffers(a, a.mounts, scope) == MountOffers(b, b.mounts, scope) by {
      forall m ensures Offer(a, m) == Offer(b, m) {}
      hide IsEligible, Offer;
    }
  }

  /** Containers that are named alike and offer the same. */
  ghost predicate Alike(s: seq<Container>, t: seq<Container>, scope: Scope) {
    && |s| == |t| && Offers(s, scope) == Offers(t, scope)
    && forall i :: 0 <= i < |s| ==> DomainOf(s[i]) == DomainOf(t[i]) && s[i].name == t[i].name
  }

  lemma AlikeAppend(s: seq<Container>, t: seq<Container>, x: Container, y: Container, scope: Scope)
    requires Alike(s, t, scope) && y == x.(mounts := y.mounts) && multiset(y.mounts) == multiset(x.mounts)
    ensures Alike(s + [x], t + [y], scope)
  {
    PermutedMountsOfferTheSame(x, y, scope);
    OffersAppend(s, Some(x), scope);
    OffersAppend(t, Some(y), scope);
    hide DomainOf, ContainerOffers, Offers;
  }

  lemma {:induction false} PermutedMountsKeep(a: seq<Option<Container>>, b: seq<Option<Container>>, scope: Scope)
    requires MountsPermuted(a, b)
    ensures Alike(NonNil(a), NonNil(b), scope)
  {
    hide Alike;
    if a == [] {
      assert Alike([], [], scope) by { NothingAlike(scope); }
    } else {
      var a0, b0, x, y := a[..|a| - 1], b[..|b| - 1], a[|a| - 1], b[|b| - 1];
      PermutedMountsKeep(a0, b0, scope);
      if x.Some? {
        AlikeAppend(NonNil(a0), NonNil(b0), x.value, y.value, scope);
      } else {
        assert NonNil(a) == NonNil(a0) && NonNil(b) == NonNil(b0);
      }
    }
  }

  lemma NothingAlike(scope: Scope)
    ensures Alike([], [], scope)
  {
  }

  lemma OffersAppend(s: seq<Container>, c: Option<Container>, scope: Scope)
    ensures Offers(s + if c.Some? then [c.value] else [], scope)
            == Offers(s, scope) + if c.Some? then ContainerOffers(c.value, scope) else {}
  {
    if c.Some? {
      assert (s + [c.value])[..|s|] == s;
    } else {
      assert s + [] == s;
    }
  }

  lemma {:induction false} NonNilAppend(a: seq<Option<Container>>, c: Option<Container>)
    ensures NonNil(a + [c]) == NonNil(a) + if c.Some? then [c.value] else []
  {
    assert (a + [c])[..|a|] == a;
  }

  /** Removing one entry removes its container, and nothing else, from the multiset of containers. */
  lemma {:induction false} NonNilRemove(a: seq<Option<Container>>, i: nat)
    requires i < |a|
    ensures multiset(NonNil(a))
            == multiset(NonNil(a[..i] + a[i + 1..])) + if a[i].Some? then multiset{a[i].value} else multiset{}
    decreases |a|
  {
    hide NonNil;
    var front, last := a[..|a| - 1], a[|a| - 1];
    assert a == front + [last];
    NonNilAppend(front, last);
    if i == |a| - 1 {
      assert a[..i] + a[i + 1..] == front;
    } else {
      var rest := front[..i] + front[i + 1..];
      NonNilRemove(front, i);
      assert a[..i] + a[i + 1..] == rest + [last];
      NonNilAppend(rest, last);
    }
  }

  lemma {:induction false} PermutedContainersKeep(a: seq<Option<Container>>, b: seq<Option<Container>>)
    requires multiset(a) == multiset(b)
    ensures multiset(NonNil(a)) == multiset(NonNil(b))
    decreases |a|
  {
    hide NonNil;
    if a == [] {
      assert |multiset(b)| == 0;
    } else {
      var front, last := a[..|a| - 1], a[|a| - 1];
      assert a == front + [last];
      NonNilAppend(front, last);
      assert last in multiset(b);
      var i := MultisetElement(b, last);
      RestsAgree(a, b, i);
      NonNilRemove(b, i);
      PermutedContainersKeep(front, b[..i] + b[i + 1..]);
    }
  }

  /** Without one and the same element, permutations are still permutations. */
  lemma RestsAgree<T>(a: seq<T>, b: seq<T>, i: nat)
    requires a != [] && i < |b| && b[i] == a[|a| - 1] && multiset(a) == multiset(b)
    ensures multiset(a[..|a| - 1]) == multiset(b[..i] + b[i + 1..])
  {
    MultisetWithout(a, |a| - 1);
    MultisetWithout(b, i);
    assert a[..|a| - 1] + a[|a| - 1 + 1..] == a[..|a| - 1];
  }

  lemma MultisetWithout<T>(s: seq<T>, i: nat)
    requires i < |s|
    ensures multiset(s[..i] + s[i + 1..]) == multiset(s) - multiset{s[i]}
  {
    assert s == s[..i] + [s[i]] + s[i + 1..];
  }

  /**
   * When containers differ in domain or name, the selection is the same sequence for every order of the containers and
   * of each container's mounts: `b` is a permutation of `mid`, which is `a` with permuted mount lists.
   */
  lemma InputOrderIsIrrelevant(a: seq<Option<Container>>, mid: seq<Option<Container>>, b: seq<Option<Container>>,
                               scope: Scope, s: seq<BackupTarget>, t: seq<BackupTarget>)
    requires MountsPermuted(a, mid) && multiset(mid) == multiset(b) && DistinctContainers(NonNil(a))
    requires Selection(s, a, scope) && Selection(t, b, scope)
    ensures s == t
  {
    PermutedMountsKeep(a, mid, scope);
    PermutedContainersKeep(mid, b);
    assert DistinctContainers(NonNil(mid)) by { hide DomainOf, Offers, IsLeast, Covers; }
    SortedStaysDistinct(NonNil(mid), NonNil(b));
    SamePlacesSameOffers(NonNil(mid), NonNil(b), scope);
    hide Offers, DistinctContainers, IsLeast, Covers, NonNil, MountsPermuted;
    LeastIsUnique(NonNil(a), scope, s, t);
  }
}
