/** What a whole prune guarantees: ownership is respected, and a second prune finds nothing. */
module PruneLaws {
  import opened Options
  import opened Reachability
  import opened ManifestGraph
  import opened Ownership
  import opened Retention
  import opened RegistryState
  import opened Registry
  import opened RegistryService

  /** Manifests that use no `blobs` and no `subject` descriptor. */
  predicate CoreFieldsOnly(m: Manifest) {
    m.Full? ==> NonEmpty(m.extra.blobs) == {} && (m.extra.subject.None? || m.extra.subject.value == "")
  }

  ghost predicate CoreFieldsOnlyIn(repos: Repositories) {
    forall n, r :: n in repos && r in repos[n].entries ==> CoreFieldsOnly(repos[n].entries[r].manifest)
  }

  /** Without the extra fields the ownership walk follows the collector's edges. */
  lemma WalksAgree(ms: Manifests, tag: Reference, r: Reference)
    requires forall x :: x in ms ==> CoreFieldsOnly(ms[x])
    requires Reaches(NestedEdges(ms), tag, r)
    ensures Reaches(ChildEdges(ms), tag, r)
  {
    ReachesMonotone(NestedEdges(ms), ChildEdges(ms), tag, r);
  }

  /** Tags left by retention are kept tags. */
  lemma SurvivingTagsAreKept(repo: Repository, keepLast: nat, t: Reference)
    requires t in PrunedRepository(repo, keepLast).tags
    ensures t in KeptTags(TagTimes(repo), keepLast)
  {
    assert t in RemovedTags(repo, keepLast) || t in KeptTags(TagTimes(repo), keepLast);
  }

  /** A `blobs` or `subject` descriptor of the manifest names the digest. */
  predicate NamedByExtras(m: Manifest, d: Digest) {
    m.Full? && (d in m.extra.blobs || (m.extra.subject.Some? && m.extra.subject.value == d))
  }

  ghost predicate ReachedByChildren(ms: Manifests, tags: seq<Reference>, r: Reference) {
    exists t :: t in tags && Reaches(ChildEdges(ms), t, r)
  }

  /** The ownership walk from `tags` meets a stored manifest that names the digest. */
  ghost predicate OwnerMeets(ms: Manifests, tags: seq<Reference>, r: Reference, d: Digest) {
    r in ms && ms[r].Full? && ReachedFromTags(ms, tags, r) && ReferencesTarget(ms[r], d)
  }

  /**
   * Digests that the ownership walk finds in places the collector does not look: in a `blobs` or `subject` descriptor,
   * or in a manifest that is reached over subject edges only.
   */
  ghost predicate BeyondCollector(ms: Manifests, tags: seq<Reference>, d: Digest) {
    exists r :: OwnerMeets(ms, tags, r, d) && (NamedByExtras(ms[r], d) || !ReachedByChildren(ms, tags, r))
  }

  lemma NamedInCore(m: Manifest, d: Digest)
    requires m.Full? && ReferencesTarget(m, d) && !NamedByExtras(m, d) && d != ""
    ensures d in CoreDigests(m)
  {
    if d in m.core.layers { assert d in [m.core.config] + m.core.layers; }
    if d == m.core.config { assert ([m.core.config] + m.core.layers)[0] == d; }
  }

  lemma OwnedMeans(ms: Manifests, tags: seq<Reference>, d: Digest)
    ensures Owned(ms, tags, d) <==> exists r :: OwnerMeets(ms, tags, r, d)
  {
    if Owned(ms, tags, d) {
      var t, r :| t in tags && r in ms && Reaches(NestedEdges(ms), t, r) && ms[r].Full? && ReferencesTarget(ms[r], d);
      assert OwnerMeets(ms, tags, r, d);
    }
  }

  /** What the collector reaches from the remaining tags is marked. */
  lemma CoreOfReachedIsMarked(repos: Repositories, keepLast: nat, n: RepositoryName, r: Reference, d: Digest)
    requires n in repos
    requires var ms := ManifestsOf(PrunedRepository(repos[n], keepLast));
             && r in ms && ReachedByChildren(ms, PrunedRepository(repos[n], keepLast).tags, r)
             && d in CoreDigests(ms[r])
    ensures d in AllMarks(repos, repos.Keys, keepLast)
  {
    var repo' := PrunedRepository(repos[n], keepLast);
    var t :| t in repo'.tags && Reaches(ChildEdges(ManifestsOf(repo')), t, r);
    SurvivingTagsAreKept(repos[n], keepLast, t);
    hide PrunedRepository, KeptTags, TagTimes, Reaches, CoreDigests;
    assert d in Marks(ManifestsOf(repo'), t);
    assert d in RepositoryMarks(repos[n], keepLast);
  }

  /** Every digest the ownership walk finds, and the collector could see, is marked. */
  lemma OwnedIsMarkedOrBeyond(repos: Repositories, keepLast: nat, n: RepositoryName, d: Digest)
    requires n in repos && d != ""
    requires var repo' := PrunedRepository(repos[n], keepLast); Owned(ManifestsOf(repo'), repo'.tags, d)
    ensures var repo' := PrunedRepository(repos[n], keepLast);
            d in AllMarks(repos, repos.Keys, keepLast) || BeyondCollector(ManifestsOf(repo'), repo'.tags, d)
  {
    var repo' := PrunedRepository(repos[n], keepLast);
    var ms := ManifestsOf(repo');
    OwnedMeans(ms, repo'.tags, d);
    var r :| OwnerMeets(ms, repo'.tags, r, d);
    if !NamedByExtras(ms[r], d) && ReachedByChildren(ms, repo'.tags, r) {
      NamedInCore(ms[r], d);
      CoreOfReachedIsMarked(repos, keepLast, n, r, d);
    }
  }

  lemma BeyondIsOwned(ms: Manifests, tags: seq<Reference>, d: Digest)
    requires BeyondCollector(ms, tags, d)
    ensures Owned(ms, tags, d)
  {
    OwnedMeans(ms, tags, d);
  }

  ghost predicate IsBeyond(repo: Repository, d: Digest) {
    BeyondCollector(ManifestsOf(repo), repo.tags, d)
  }

  /** Every stored blob that some repository owns after the prune is still stored. */
  ghost predicate OwnedBlobsSurvive(repos': Repositories, blobs: map<Digest, nat>, blobs': map<Digest, nat>) {
    forall n, d :: n in repos' && d in blobs && Owned(ManifestsOf(repos'[n]), repos'[n].tags, d) ==> d in blobs'
  }

  /** The stored digests that only the ownership walk finds are marked from elsewhere or freshly pending. */
  ghost predicate BeyondIsKept(repos: Repositories, blobs: map<Digest, nat>, pending: map<Digest, int>, keepLast: nat,
                               now: int) {
    forall n, d :: n in repos && d in blobs && IsDigest(d) && IsBeyond(PrunedRepository(repos[n], keepLast), d) ==>
      d in AllMarks(repos, repos.Keys, keepLast) || d in FreshPending(pending, now)
  }

  /**
   * Exactly when the depth-first mark and the breadth-first ownership walk agree on blobs: after a successful prune
   * every owned blob survives if and only if each stored digest that a remaining tag reaches only through `blobs`
   * descriptors or subjects is marked from elsewhere or freshly pending.
   */
  lemma OwnedBlobsSurviveIff(repos: Repositories, blobs: map<Digest, nat>, pending: map<Digest, int>, keepLast: nat,
                             now: int, repos': Repositories, blobs': map<Digest, nat>, pending': map<Digest, int>)
    requires Pruned(repos, blobs, pending, keepLast, now, repos', blobs', pending')
    ensures OwnedBlobsSurvive(repos', blobs, blobs') <==> BeyondIsKept(repos, blobs, pending, keepLast, now)
  {
    hide AllMarks, Owned, BeyondCollector, PrunedRepository, FreshPending;
    if OwnedBlobsSurvive(repos', blobs, blobs') {
      forall n, d | n in repos && d in blobs && IsDigest(d) && IsBeyond(PrunedRepository(repos[n], keepLast), d)
        ensures d in AllMarks(repos, repos.Keys, keepLast) || d in FreshPending(pending, now)
      {
        BeyondIsOwned(ManifestsOf(repos'[n]), repos'[n].tags, d);
        assert d in blobs';
      }
    }
    if BeyondIsKept(repos, blobs, pending, keepLast, now) {
      forall n, d | n in repos' && d in blobs && Owned(ManifestsOf(repos'[n]), repos'[n].tags, d) ensures d in blobs' {
        if IsDigest(d) { OwnedIsMarkedOrBeyond(repos, keepLast, n, d); }
      }
    }
  }

  lemma NothingBeyondCoreFields(ms: Manifests, tags: seq<Reference>, d: Digest)
    requires (forall x :: x in ms ==> CoreFieldsOnly(ms[x])) && d != ""
    ensures !BeyondCollector(ms, tags, d)
  {
    forall r | OwnerMeets(ms, tags, r, d) ensures !NamedByExtras(ms[r], d) && ReachedByChildren(ms, tags, r) {
      assert d !in NonEmpty(ms[r].extra.blobs);
      var t :| t in tags && Reaches(NestedEdges(ms), t, r);
      WalksAgree(ms, t, r);
    }
  }

  /**
   * With manifests that use only config, layers and manifests the two walks agree: a blob that existed before a
   * successful prune, and that some repository owns afterwards, still exists.
   */
  lemma OwnedBlobSurvives(repos: Repositories, blobs: map<Digest, nat>, pending: map<Digest, int>, keepLast: nat,
                          now: int, repos': Repositories, blobs': map<Digest, nat>, pending': map<Digest, int>,
                          n: RepositoryName, d: Digest)
    requires Pruned(repos, blobs, pending, keepLast, now, repos', blobs', pending')
    requires CoreFieldsOnlyIn(repos) && d in blobs
    requires n in repos' && Justified(ManifestsOf(repos'[n]), repos'[n].tags, d, Referenced(true))
    ensures d in blobs'
  {
    forall m, x | m in repos && IsDigest(x) ensures !IsBeyond(PrunedRepository(repos[m], keepLast), x) {
      NothingBeyondInCore(repos, keepLast, m, x);
    }
    hide IsBeyond, IsDigest, PrunedRepository, AllMarks, FreshPending, Owned, SweptBlobs;
    OwnedBlobsSurviveIff(repos, blobs, pending, keepLast, now, repos', blobs', pending');
    assert Owned(ManifestsOf(repos'[n]), repos'[n].tags, d);
  }

  lemma NothingBeyondInCore(repos: Repositories, keepLast: nat, n: RepositoryName, d: Digest)
    requires CoreFieldsOnlyIn(repos) && n in repos && IsDigest(d)
    ensures !IsBeyond(PrunedRepository(repos[n], keepLast), d)
  {
    var ms := ManifestsOf(PrunedRepository(repos[n], keepLast));
    forall r | r in ms ensures CoreFieldsOnly(ms[r]) { assert r in repos[n].entries; }
    hide CoreFieldsOnly;
    NothingBeyondCoreFields(ms, PrunedRepository(repos[n], keepLast).tags, d);
  }

  /** A repository whose single tag holds a manifest with no children. */
  function LeafRepository(m: Manifest): Repository {
    Repository(map["v1" := Entry(m, 0)], ["v1"])
  }

  lemma LeafRepositoryMarks(m: Manifest)
    requires !m.Undecodable? && CoreChildren(m) == {}
    ensures var repo := LeafRepository(m);
            && RemovedTags(repo, 1) == {}
            && RepositoryCollects(repo, 1)
            && RepositoryMarks(repo, 1) == CoreDigests(m)
  {
    LeafKeepsItsTag(m);
    LeafReaches(m);
    hide KeptTags, NewerTags, CoreDigests, CoreChildren, Reaches;
  }

  lemma LeafKeepsItsTag(m: Manifest)
    ensures var repo := LeafRepository(m);
            TagTimes(repo) == map["v1" := 0] && KeptTags(TagTimes(repo), 1) == {"v1"} && RemovedTags(repo, 1) == {}
  {
    var repo := LeafRepository(m);
    NewerIsComparator();
    assert repo.tags[0] == "v1";
    assert TagTimes(repo) == map["v1" := 0];
    assert NewerTags(TagTimes(repo), "v1") == {};
    assert KeptTags(TagTimes(repo), 1) == {"v1"};
  }

  lemma LeafReaches(m: Manifest)
    requires !m.Undecodable? && CoreChildren(m) == {}
    ensures var ms := ManifestsOf(LeafRepository(m));
            AllReachedDecode(ms, "v1") && Marks(ms, "v1") == CoreDigests(m)
  {
    var ms := ManifestsOf(LeafRepository(m));
    assert ms == map["v1" := m];
    hide CoreDigests, Reaches;
    ReachesSelf(ChildEdges(ms), "v1");
    forall d ensures d in Marks(ms, "v1") <==> d in CoreDigests(m) {
      if d in CoreDigests(m) { assert "v1" in ms && d in CoreDigests(ms["v1"]); }
    }
  }

  /** A blob named only by a `blobs` descriptor is owned by its repository, and a prune deletes it. */
  lemma BlobsDescriptorIsNotCollected(d: Digest)
    requires IsDigest(d)
    ensures
      var repo := LeafRepository(Full(Core("", [], []), Extra([d], None)));
      var repos: Repositories := map["app" := repo];
      && Owned(ManifestsOf(repo), repo.tags, d)
      && RepositoryCollects(repo, 1)
      && Pruned(repos, map[d := 1], map[], 1, 0, repos, map[], map[])
  {
    var m := Full(Core("", [], []), Extra([d], None));
    LeafRepositoryMarks(m);
    LeafOwns(m, d);
    assert CoreDigests(m) == {};
    LeafPruned(LeafRepository(m), d);
  }

  /** A prune of one repository that marks nothing and removes no tag deletes the only blob. */
  lemma LeafPruned(repo: Repository, d: Digest)
    requires RemovedTags(repo, 1) == {} && RepositoryMarks(repo, 1) == {} && IsDigest(d)
    ensures Pruned(map["app" := repo], map[d := 1], map[], 1, 0, map["app" := repo], map[], map[])
  {
    var repos: Repositories := map["app" := repo];
    assert AllMarks(repos, repos.Keys, 1) == {} by { hide RepositoryMarks, IsDigest; }
    assert PrunedRepositories(repos, repos.Keys, 1) == repos;
    assert FreshPending(map[], 0) == map[];
    assert SweptBlobs(map[d := 1], {}) == map[];
    assert AllMarks(repos, repos.Keys, 1) + FreshPending(map[], 0).Keys == {};
  }

  lemma LeafOwns(m: Manifest, d: Digest)
    requires m.Full? && d in m.extra.blobs
    ensures Owned(ManifestsOf(LeafRepository(m)), LeafRepository(m).tags, d)
  {
    var repo := LeafRepository(m);
    ReachesSelf(NestedEdges(ManifestsOf(repo)), "v1");
    assert repo.tags[0] == "v1";
  }

  /** Kept references that look like digests and leave the tag list because another tag is deleted. */
  function DroppedDigests(repo: Repository, keepLast: nat): set<Tag> {
    if RemovedTags(repo, keepLast) == {} then {} else set t | t in KeptTags(TagTimes(repo), keepLast) && IsDigest(t)
  }

  lemma TagTimesAfterPrune(repo: Repository, keepLast: nat)
    requires forall t :: t in repo.tags ==> t in repo.entries
    ensures var times' := TagTimes(PrunedRepository(repo, keepLast));
            && times'.Keys == KeptTags(TagTimes(repo), keepLast) - DroppedDigests(repo, keepLast)
            && forall t :: t in times' ==> times'[t] == TagTimes(repo)[t]
    ensures forall t :: t in PrunedRepository(repo, keepLast).tags ==> t in PrunedRepository(repo, keepLast).entries
  {
    var repo', removed, kept := PrunedRepository(repo, keepLast), RemovedTags(repo, keepLast),
        KeptTags(TagTimes(repo), keepLast);
    assert forall t :: t in repo.tags <==> t in removed || t in kept;
    assert forall t :: t in repo'.tags <==> t in kept && t !in DroppedDigests(repo, keepLast);
    assert forall t :: t in kept ==> t in repo'.entries && repo'.entries[t] == repo.entries[t];
  }

  /** Retention of a repository already pruned changes nothing. */
  lemma PruneRepositoryTwice(repo: Repository, keepLast: nat)
    requires forall t :: t in repo.tags ==> t in repo.entries
    ensures var repo' := PrunedRepository(repo, keepLast);
            && PrunedRepository(repo', keepLast) == repo'
            && RemovedTags(repo', keepLast) == {}
            && KeptTags(TagTimes(repo'), keepLast)
               == KeptTags(TagTimes(repo), keepLast) - DroppedDigests(repo, keepLast)
  {
    var repo' := PrunedRepository(repo, keepLast);
    TagTimesAfterPrune(repo, keepLast);
    KeptStaysKept(TagTimes(repo), TagTimes(repo'), keepLast);
    TagTimesAreListed(repo');
  }

  /** The digests the first prune marks only through references it drops from a tag list. */
  ghost function LostMarks(repos: Repositories, names: set<RepositoryName>, keepLast: nat): set<Digest> {
    set n, d | n in names && n in repos && d in DroppedMarks(repos[n], keepLast) :: d
  }

  ghost function DroppedMarks(repo: Repository, keepLast: nat): set<Digest> {
    MarksOf(ManifestsOf(PrunedRepository(repo, keepLast)), DroppedDigests(repo, keepLast))
  }

  lemma RepositoryMarksSplit(repo: Repository, keepLast: nat)
    requires RepositoryCollects(repo, keepLast)
    ensures RepositoryMarks(repo, keepLast)
         == RepositoryMarks(PrunedRepository(repo, keepLast), keepLast) + DroppedMarks(repo, keepLast)
  {
    PruneRepositoryTwice(repo, keepLast);
    var kept, dropped := KeptTags(TagTimes(repo), keepLast), DroppedDigests(repo, keepLast);
    assert dropped <= kept;
    hide Marks, PrunedRepository, KeptTags, DroppedDigests;
  }

  lemma PrunedAt(repos: Repositories, keepLast: nat, n: RepositoryName)
    requires n in repos
    ensures n in PrunedRepositories(repos, repos.Keys, keepLast)
    ensures PrunedRepositories(repos, repos.Keys, keepLast)[n] == PrunedRepository(repos[n], keepLast)
  {
  }

  lemma LostMarksGrow(repos: Repositories, done: set<RepositoryName>, n: RepositoryName, keepLast: nat)
    requires n in repos
    ensures LostMarks(repos, done + {n}, keepLast)
            == LostMarks(repos, done, keepLast) + DroppedMarks(repos[n], keepLast)
  {
    hide DroppedMarks;
  }

  lemma NothingMarked(repos: Repositories, repos': Repositories, keepLast: nat)
    ensures AllMarks(repos, {}, keepLast) == AllMarks(repos', {}, keepLast) == LostMarks(repos, {}, keepLast) == {}
  {
  }

  lemma {:induction false} MarksSplit(repos: Repositories, done: set<RepositoryName>, keepLast: nat)
    requires forall n :: n in repos ==> RepositoryCollects(repos[n], keepLast)
    requires done <= repos.Keys
    ensures var repos' := PrunedRepositories(repos, repos.Keys, keepLast);
            AllMarks(repos, done, keepLast) == AllMarks(repos', done, keepLast) + LostMarks(repos, done, keepLast)
  {
    hide *;
    var repos' := PrunedRepositories(repos, repos.Keys, keepLast);
    if done == {} {
      NothingMarked(repos, repos', keepLast);
    } else {
      var n :| n in done;
      PrunedAt(repos, keepLast, n);
      RepositoryMarksSplit(repos[n], keepLast);
      MarksSplit(repos, done - {n}, keepLast);
      AllMarksGrow(repos, done - {n}, n, keepLast);
      AllMarksGrow(repos', done - {n}, n, keepLast);
      LostMarksGrow(repos, done - {n}, n, keepLast);
      assert done == done - {n} + {n};
    }
  }

  lemma PruneAgain(repos: Repositories, keepLast: nat)
    requires forall n :: n in repos ==> RepositoryCollects(repos[n], keepLast)
    ensures var repos' := PrunedRepositories(repos, repos.Keys, keepLast);
            && (forall n :: n in repos' ==> RepositoryCollects(repos'[n], keepLast))
            && PrunedRepositories(repos', repos'.Keys, keepLast) == repos'
  {
    var repos' := PrunedRepositories(repos, repos.Keys, keepLast);
    forall n | n in repos
      ensures PrunedRepository(repos'[n], keepLast) == repos'[n] && RepositoryCollects(repos'[n], keepLast)
    {
      PrunedAt(repos, keepLast, n);
      CollectsAgain(repos[n], keepLast);
    }
  }

  lemma CollectsAgain(repo: Repository, keepLast: nat)
    requires RepositoryCollects(repo, keepLast)
    ensures var repo' := PrunedRepository(repo, keepLast);
            PrunedRepository(repo', keepLast) == repo' && RepositoryCollects(repo', keepLast)
  {
    PruneRepositoryTwice(repo, keepLast);
    TagTimesAfterPrune(repo, keepLast);
  }

  /**
   * A second prune at the same clock with no push between succeeds and leaves tags, manifests and pending entries
   * alone. It deletes no blob exactly when every stored blob marked only through a dropped digest reference was pending
   * or reachable from a remaining tag.
   */
  lemma SecondPrune(repos: Repositories, blobs: map<Digest, nat>, pending: map<Digest, int>, keepLast: nat, now: int,
                    repos1: Repositories, blobs1: map<Digest, nat>, pending1: map<Digest, int>, repos2: Repositories,
                    blobs2: map<Digest, nat>, pending2: map<Digest, int>)
    requires forall n :: n in repos ==> RepositoryCollects(repos[n], keepLast)
    requires Pruned(repos, blobs, pending, keepLast, now, repos1, blobs1, pending1)
    requires Pruned(repos1, blobs1, pending1, keepLast, now, repos2, blobs2, pending2)
    ensures forall n :: n in repos1 ==> RepositoryCollects(repos1[n], keepLast)
    ensures repos2 == repos1 && pending2 == pending1
    ensures blobs2 == blobs1 <==>
              forall d :: d in blobs && IsDigest(d) && d in LostMarks(repos, repos.Keys, keepLast) ==>
                d in AllMarks(repos1, repos1.Keys, keepLast) || d in pending1
  {
    hide AllMarks, LostMarks, PrunedRepositories, SweptBlobs, RepositoryCollects, FreshPending;
    PruneAgain(repos, keepLast);
    FreshTwice(pending, now);
    MarksSplit(repos, repos.Keys, keepLast);
    KeysStay(repos, keepLast);
    SweepTwice(blobs, AllMarks(repos1, repos1.Keys, keepLast) + pending1.Keys, LostMarks(repos, repos.Keys, keepLast));
    assert AllMarks(repos, repos.Keys, keepLast) + pending1.Keys
        == AllMarks(repos1, repos1.Keys, keepLast) + pending1.Keys + LostMarks(repos, repos.Keys, keepLast);
  }

  lemma FreshTwice(pending: map<Digest, int>, now: int)
    ensures FreshPending(FreshPending(pending, now), now) == FreshPending(pending, now)
  {
  }

  lemma KeysStay(repos: Repositories, keepLast: nat)
    ensures PrunedRepositories(repos, repos.Keys, keepLast).Keys == repos.Keys
  {
  }

  lemma SweepTwice(blobs: map<Digest, nat>, keep: set<Digest>, lost: set<Digest>)
    ensures SweptBlobs(SweptBlobs(blobs, keep + lost), keep) == SweptBlobs(blobs, keep + lost) <==>
              forall d :: d in blobs && IsDigest(d) && d in lost ==> d in keep
  {
    if forall d :: d in blobs && IsDigest(d) && d in lost ==> d in keep {
    } else {
      var d :| d in blobs && IsDigest(d) && d in lost && d !in keep;
      assert d in SweptBlobs(blobs, keep + lost) && d !in SweptBlobs(SweptBlobs(blobs, keep + lost), keep);
    }
  }

  /** With no digest in a tag list, as every list written by a push is, a second prune removes nothing. */
  lemma SecondPruneRemovesNothing(repos: Repositories, blobs: map<Digest, nat>, pending: map<Digest, int>,
                                  keepLast: nat, now: int, repos1: Repositories, blobs1: map<Digest, nat>,
                                  pending1: map<Digest, int>, repos2: Repositories, blobs2: map<Digest, nat>,
                                  pending2: map<Digest, int>)
    requires forall n :: n in repos ==> RepositoryCollects(repos[n], keepLast)
    requires forall n, t :: n in repos && t in repos[n].tags ==> !IsDigest(t)
    requires Pruned(repos, blobs, pending, keepLast, now, repos1, blobs1, pending1)
    requires Pruned(repos1, blobs1, pending1, keepLast, now, repos2, blobs2, pending2)
    ensures repos2 == repos1 && blobs2 == blobs1 && pending2 == pending1
  {
    SecondPrune(repos, blobs, pending, keepLast, now, repos1, blobs1, pending1, repos2, blobs2, pending2);
    assert LostMarks(repos, repos.Keys, keepLast) == {};
  }

  /**
   * A tag list left over from before digests were filtered: one tag, and a newer digest whose manifest has one blob.
   */
  function LegacyRepository(held: Digest, blob: Digest): Repository {
    Repository(map["v1" := Entry(CoreOnly(Core("", [], [])), 0), held := Entry(CoreOnly(Core(blob, [], [])), 1)],
        ["v1", held])
  }

  lemma LegacyRetention(held: Digest, blob: Digest)
    requires IsDigest(held)
    ensures var repo := LegacyRepository(held, blob);
            && KeptTags(TagTimes(repo), 1) == {held} && RemovedTags(repo, 1) == {"v1"}
            && PrunedRepository(repo, 1).tags == []
  {
    var repo := LegacyRepository(held, blob);
    NewerIsComparator();
    assert repo.tags[0] == "v1" && repo.tags[1] == held && |"v1"| == 2;
    var times := TagTimes(repo);
    assert times == map["v1" := 0, held := 1];
    assert NewerTags(times, held) == {} && NewerTags(times, "v1") == {held};
    assert KeptTags(times, 1) == {held};
    assert ["v1", held][1..] == [held] && [held][1..] == [];
    assert KeepTags([held], {"v1"}) == [];
  }

  lemma LegacyRepositoryPruned(held: Digest, blob: Digest)
    requires IsDigest(held) && blob != ""
    ensures var repo := LegacyRepository(held, blob);
            PrunedRepository(repo, 1).tags == [] && blob in RepositoryMarks(repo, 1)
  {
    var repo := LegacyRepository(held, blob);
    LegacyRetention(held, blob);
    assert held != "v1" by { assert |"v1"| == 2; }
    hide KeptTags, RemovedTags, IsDigest, TagTimes;
    var repo' := PrunedRepository(repo, 1);
    var ms := ManifestsOf(repo');
    ReachesSelf(ChildEdges(ms), held);
    assert repo'.entries == repo.entries - {"v1"};
    assert held in ms && ms[held] == CoreOnly(Core(blob, [], []));
    assert ([blob] + [])[0] == blob;
    assert blob in CoreDigests(ms[held]);
    assert blob in Marks(ms, held);
  }

  lemma SingleRepositoryMarks(repo: Repository)
    ensures AllMarks(map["app" := repo], {"app"}, 1) == RepositoryMarks(repo, 1)
    ensures PrunedRepositories(map["app" := repo], {"app"}, 1) == map["app" := PrunedRepository(repo, 1)]
  {
    hide RepositoryMarks, PrunedRepository;
  }

  /** There the second of two prunes deletes a blob the first one kept. */
  lemma LegacyDigestLosesItsBlob(held: Digest, blob: Digest)
    requires IsDigest(held) && IsDigest(blob)
    ensures
      var repos: Repositories := map["app" := LegacyRepository(held, blob)];
      var repos1 := PrunedRepositories(repos, {"app"}, 1);
      var blobs1 := SweptBlobs(map[blob := 1], AllMarks(repos, {"app"}, 1));
      blob in blobs1 && blob !in SweptBlobs(blobs1, AllMarks(repos1, {"app"}, 1))
  {
    var repo := LegacyRepository(held, blob);
    LegacyRepositoryPruned(held, blob);
    NothingToPrune(PrunedRepository(repo, 1), 1);
    SingleRepositoryMarks(repo);
    SingleRepositoryMarks(PrunedRepository(repo, 1));
    hide RepositoryMarks, PrunedRepository, PrunedRepositories, AllMarks, LegacyRepository;
  }
}
