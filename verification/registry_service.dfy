/** The registry operations over shared mutable storage. */
module RegistryService {
  import opened ManifestGraph
  import opened Marking
  import opened Retention
  import opened RegistryState
  import opened Registry
  import opened Sorting
  import opened Sums
  import opened Text

  lemma NothingDeleted(repo: Repository, infos: seq<TagInfo>, kept: set<Tag>)
    ensures Names(infos, 0) - kept == {} && Without(repo, Names(infos, 0) - kept) == repo
  {
  }

  lemma ListedIsStored(repo: Repository, infos: seq<TagInfo>, i: nat)
    requires Listing(infos, TagTimes(repo)) && i < |infos|
    ensures infos[i].name in repo.entries
  {
  }

  lemma OneMoreName(infos: seq<TagInfo>, times: map<Tag, int>, kept: set<Tag>, i: nat)
    requires Listing(infos, times) && i < |infos|
    ensures var before, after := Names(infos, i) - kept, Names(infos, i + 1) - kept;
            if infos[i].name in kept then after == before
            else infos[i].name !in before && after == before + {infos[i].name} && |after| == |before| + 1
  {
    NameBefore(infos, times, i, i);
    hide Listing;
    assert Names(infos, i + 1) - kept
           == (Names(infos, i) - kept) + if infos[i].name in kept then {} else {infos[i].name};
  }

  class Service {
    var repos: Repositories
    var blobs: map<Digest, nat>
    const state: State

    constructor (state: State)
      ensures repos == map[] && blobs == map[] && this.state == state
    {
      repos, blobs := map[], map[];
      this.state := state;
    }

    /** Stores a blob, then records it as pending. */
    method PutBlob(digest: Digest, size: nat, now: int)
      modifies this`blobs, state
      ensures blobs == old(blobs)[digest := size]
      ensures state.pending == old(state.pending)[digest := now]
    {
      blobs := blobs[digest := size];
      state.AddPending(digest, now);
    }

    /** A digest-addressed manifest whose content does not match changes nothing. */
    method PutManifest(name: RepositoryName, reference: Reference, manifest: Manifest, now: int, contentMatches: bool)
      returns (ok: bool)
      modifies this`repos, state
      ensures ok <==> !IsDigest(reference) || contentMatches
      ensures !ok ==> unchanged(this) && unchanged(state)
      ensures ok ==>
                var before := if name in old(repos) then old(repos)[name] else Repository(map[], []);
                repos == old(repos)[name := PutEntry(before, reference, Entry(manifest, now))]
      ensures ok ==> state.pending == old(state.pending) - (set d | d in PublishedDigests(manifest))
      ensures old(WellFormed(repos)) ==> WellFormed(repos)
    {
      if IsDigest(reference) && !contentMatches {
        return false;
      }
      var before := if name in repos then repos[name] else Repository(map[], []);
      repos := repos[name := PutEntry(before, reference, Entry(manifest, now))];
      state.MarkPublished(PublishedDigests(manifest));
      return true;
    }

    method DeleteManifest(name: RepositoryName, reference: Reference) returns (ok: bool)
      modifies this`repos
      ensures ok <==> name in old(repos) && reference in old(repos)[name].entries
      ensures repos == if ok then old(repos)[name := Without(old(repos)[name], {reference})] else old(repos)
      ensures old(WellFormed(repos)) ==> WellFormed(repos)
    {
      if name !in repos || reference !in repos[name].entries {
        return false;
      }
      repos := repos[name := Without(repos[name], {reference})];
      return true;
    }

    method LoadRepositoryTagInfos(name: RepositoryName) returns (ok: bool, infos: seq<TagInfo>)
      requires name in repos && WellFormed(repos)
      ensures ok <==> forall t :: t in repos[name].tags ==> t in repos[name].entries
      ensures ok ==> Listing(infos, TagTimes(repos[name])) && |infos| == |repos[name].tags|
      ensures ok ==> forall i, j :: 0 <= i < j < |infos| ==>
                       || infos[i].modTime > infos[j].modTime
                       || (infos[i].modTime == infos[j].modTime && Less(infos[j].name, infos[i].name))
    {
      var repo := repos[name];
      infos := [];
      for i := 0 to |repo.tags|
        invariant |infos| == i
        invariant forall j :: 0 <= j < i ==>
                repo.tags[j] in repo.entries && infos[j] == TagInfo(repo.tags[j], repo.entries[repo.tags[j]].modTime)
      {
        if repo.tags[i] !in repo.entries {
          return false, infos;
        }
        infos := infos + [TagInfo(repo.tags[i], repo.entries[repo.tags[i]].modTime)];
      }
      NewerIsComparator();
      var sorted := SortSlice(infos, Newer);
      SortedTagsAreListing(repo, infos, sorted);
      ListingDescends(sorted, TagTimes(repo));
      assert |multiset(sorted)| == |sorted| && |multiset(infos)| == |infos|;
      return true, sorted;
    }

    /** Deletes the listed tags outside `kept`, one manifest at a time. */
    method DeleteUnkeptManifests(name: RepositoryName, infos: seq<TagInfo>, kept: set<Tag>) returns (removed: nat)
      requires name in repos && Listing(infos, TagTimes(repos[name]))
      modifies this`repos
      ensures repos == old(repos)[name := Without(old(repos)[name], TagTimes(old(repos)[name]).Keys - kept)]
      ensures removed == |TagTimes(old(repos)[name]).Keys - kept|
    {
      hide Names, TagTimes, Listing, Without;
      ghost var repo, times := repos[name], TagTimes(repos[name]);
      NothingDeleted(repo, infos, kept);
      removed := 0;
      for i := 0 to |infos|
        invariant repos == old(repos)[name := Without(repo, Names(infos, i) - kept)]
        invariant removed == |Names(infos, i) - kept|
      {
        OneMoreName(infos, times, kept, i);
        ListedIsStored(repo, infos, i);
        if infos[i].name !in kept {
          DeleteOneMore(repo, Names(infos, i) - kept, infos[i].name);
          var ok := DeleteManifest(name, infos[i].name);
          removed := removed + 1;
        }
      }
      NamesAreListed(infos, times, |infos|);
    }

    /** Retention and marking of one repository; a failure leaves it as it was or already pruned. */
    method PruneRepository(name: RepositoryName, keepLast: nat, referenced: set<Digest>)
      returns (ok: bool, removed: nat, referenced': set<Digest>)
      requires name in repos && WellFormed(repos)
      modifies this`repos
      ensures ok <==> RepositoryCollects(old(repos)[name], keepLast)
      ensures repos == old(repos) || repos == PruneOne(old(repos), name, keepLast)
      ensures ok ==>
                && repos == PruneOne(old(repos), name, keepLast)
                && referenced' == referenced + RepositoryMarks(old(repos)[name], keepLast)
                && removed == |RemovedTags(old(repos)[name], keepLast)|
    {
      hide RepositoryMarks, RepositoryCollects, PrunedRepository, RemovedTags, KeptTags, MarksOf, Marks,
          AllReachedDecode, Listing;
      var repo := repos[name];
      referenced', removed := referenced, 0;
      var infos;
      ok, infos := LoadRepositoryTagInfos(name);
      if !ok {
        MissingManifestFails(repo, keepLast);
        return;
      }
      PruneInSteps(repo, keepLast);
      if |infos| == 0 {
        NothingToPrune(repo, keepLast);
        assert repos == repos[name := repo];
        return;
      }
      var kept := BuildKeptTagSet(infos, TagTimes(repo), keepLast);
      removed := DeleteUnkeptManifests(name, infos, kept);
      NamesAreListed(infos, TagTimes(repo), |infos|);
      ok, referenced' := CollectKeptTagDigests(ManifestsOf(repos[name]), infos, kept, referenced);
    }

    /** Retention and marking of every repository, in any order. */
    method PruneRepositories(keepLast: nat) returns (ok: bool, removed: nat, referenced: set<Digest>)
      requires WellFormed(repos)
      modifies this`repos
      ensures WellFormed(repos)
      ensures ok <==> forall n :: n in old(repos) ==> RepositoryCollects(old(repos)[n], keepLast)
      ensures ok ==> Collected(old(repos), old(repos).Keys, keepLast, repos, removed, referenced)
    {
      hide RepositoryMarks, RepositoryCollects, PrunedRepository, Collected, WellFormed;
      ghost var repos0, done := repos, {};
      var todo;
      todo, referenced, removed := repos.Keys, {}, 0;
      NothingCollectedYet(repos, keepLast);
      while todo != {}
        invariant forall n :: n in repos0 <==> n in done || n in todo
        invariant forall n :: n in todo ==> n !in done
        invariant Collected(repos0, done, keepLast, repos, removed, referenced) && WellFormed(repos)
        invariant forall n :: n in done ==> RepositoryCollects(repos0[n], keepLast)
        decreases todo
      {
        var name :| name in todo;
        CollectOneMore(repos0, done, name, keepLast, repos, removed, referenced);
        PruneOneKeepsWellFormed(repos, name, keepLast);
        var count;
        ok, count, referenced := PruneRepository(name, keepLast, referenced);
        if !ok {
          return;
        }
        removed := removed + count;
        todo, done := todo - {name}, done + {name};
      }
      assert done == repos0.Keys;
      ok := true;
    }

    /**
     * Retention and garbage collection. On success every repository holds exactly its kept tags, the expired pending
     * entries are gone, and exactly the listed blobs neither marked nor freshly pending are deleted; the bytes
     * reclaimed and the bytes left add up to the bytes before. It fails exactly when some repository cannot be
     * collected, and then deletes no blob and drops no pending entry.
     */
    method PruneRegistry(keepLast: int, now: int) returns (ok: bool, report: PruneReport)
      requires WellFormed(repos)
      modifies this, state
      ensures WellFormed(repos)
      ensures keepLast <= 0 ==> ok && report == EMPTY_REPORT && unchanged(this) && unchanged(state)
      ensures keepLast > 0 ==> (ok <==> forall n :: n in old(repos) ==> RepositoryCollects(old(repos)[n], keepLast))
      ensures keepLast > 0 && ok ==>
                && Pruned(old(repos), old(blobs), old(state.pending), keepLast, now, repos, blobs, state.pending)
                && report.tagsRemoved == Sum(RemovedCount(old(repos), keepLast), old(repos).Keys)
      ensures keepLast > 0 && ok ==> RepositoriesRetained(old(repos), repos, keepLast)
      ensures keepLast > 0 && ok ==>
                forall d :: d in state.pending <==> d in old(state.pending)
                                                    && now - old(state.pending)[d] <= 86_400_000_000_000
      ensures keepLast > 0 && ok ==>
                forall d :: d in blobs <==>
                            && d in old(blobs)
                            && (!IsDigest(d) || d in state.pending || NamedInSomeRepository(old(repos), repos, d))
      ensures report.spaceReclaimed + TotalBytes(blobs) == TotalBytes(old(blobs))
      ensures report.blobsRemoved + |blobs| == |old(blobs)|
      ensures !ok ==> blobs == old(blobs) && state.pending == old(state.pending)
    {
      report := EMPTY_REPORT;
      if keepLast <= 0 {
        return true, report;
      }
      var removed, referenced;
      ok, removed, referenced := PruneRepositories(keepLast);
      if !ok {
        return;
      }
      var pending := state.PendingDigests(now);
      var deleted, reclaimed := SweepBlobs(referenced + pending);
      report := PruneReport(removed, deleted, reclaimed);
      PrunedInPlainTerms(old(repos), old(blobs), old(state.pending), keepLast, now, repos, blobs, state.pending);
    }

    /** The sweep: the listed blobs outside `referenced` are deleted one by one. */
    method SweepBlobs(referenced: set<Digest>) returns (deleted: nat, reclaimed: nat)
      modifies this`blobs
      ensures blobs == SweptBlobs(old(blobs), referenced)
      ensures deleted + |blobs| == |old(blobs)|
      ensures reclaimed + TotalBytes(blobs) == TotalBytes(old(blobs))
    {
      deleted, reclaimed := 0, 0;
      var todo := set d | d in blobs && IsDigest(d);
      while todo != {}
        invariant forall d :: d in todo ==> d in blobs && IsDigest(d)
        invariant forall d :: d in blobs ==> d in old(blobs) && blobs[d] == old(blobs)[d]
        invariant forall d :: d in old(blobs) ==> (d in blobs <==> !IsDigest(d) || d in referenced || d in todo)
        invariant deleted + |blobs| == |old(blobs)|
        invariant reclaimed + TotalBytes(blobs) == TotalBytes(old(blobs))
        decreases todo
      {
        var digest :| digest in todo;
        todo := todo - {digest};
        if digest !in referenced {
          DeleteBlobBytes(blobs, digest);
          deleted, reclaimed := deleted + 1, reclaimed + blobs[digest];
          blobs := blobs - {digest};
        }
      }
    }
  }

  method CollectKeptTagDigests(ms: Manifests, infos: seq<TagInfo>, kept: set<Tag>, referenced: set<Digest>)
    returns (ok: bool, referenced': set<Digest>)
    requires kept <= Names(infos, |infos|)
    ensures ok <==> forall t :: t in kept ==> AllReachedDecode(ms, t)
    ensures ok ==> referenced' == referenced + MarksOf(ms, kept)
  {
    hide MarksOf, Marks, AllReachedDecode;
    referenced' := referenced;
    NoMarks(ms);
    assert Names(infos, 0) * kept == {};
    for i := 0 to |infos|
      invariant forall t :: t in Names(infos, i) * kept ==> AllReachedDecode(ms, t)
      invariant referenced' == referenced + MarksOf(ms, Names(infos, i) * kept)
    {
      NamesStep(infos, i, kept);
      if infos[i].name in kept {
        ok, referenced' := CollectFromTag(ms, infos[i].name, referenced');
        if !ok {
          return;
        }
        MarksGrow(ms, Names(infos, i) * kept, infos[i].name);
        assert Names(infos, i + 1) * kept == Names(infos, i) * kept + {infos[i].name};
      } else {
        assert Names(infos, i + 1) * kept == Names(infos, i) * kept;
      }
    }
    assert Names(infos, |infos|) * kept == kept;
    ok := true;
  }

  lemma NamesStep(infos: seq<TagInfo>, i: nat, kept: set<Tag>)
    requires i < |infos|
    ensures Names(infos, i + 1) * kept == Names(infos, i) * kept + if infos[i].name in kept then {infos[i].name} else {}
  {
  }

  function RemovedCount(repos: Repositories, keepLast: nat): RepositoryName -> nat {
    n => if n in repos then |RemovedTags(repos[n], keepLast)| else 0
  }

  function PruneOne(repos: Repositories, name: RepositoryName, keepLast: nat): Repositories
    requires name in repos
  {
    repos[name := PrunedRepository(repos[name], keepLast)]
  }

  /** What retention and marking of the repositories in `done` have produced. */
  ghost predicate Collected(repos: Repositories, done: set<RepositoryName>, keepLast: nat, repos': Repositories,
                            removed: nat, referenced: set<Digest>)
  {
    && repos' == PrunedRepositories(repos, done, keepLast)
    && removed == Sum(RemovedCount(repos, keepLast), done)
    && referenced == AllMarks(repos, done, keepLast)
  }

  lemma MissingManifestFails(repo: Repository, keepLast: nat)
    requires exists t :: t in repo.tags && t !in repo.entries
    ensures !RepositoryCollects(repo, keepLast)
  {
  }

  lemma NothingCollectedYet(repos: Repositories, keepLast: nat)
    ensures Collected(repos, {}, keepLast, repos, 0, {})
  {
  }

  /** The steps of the source, deletion then traversal, put together. */
  lemma PruneInSteps(repo: Repository, keepLast: nat)
    requires forall t :: t in repo.tags ==> t in repo.entries
    ensures var times := TagTimes(repo);
            var kept := KeptTags(times, keepLast);
            && kept <= times.Keys == (set t | t in repo.tags)
            && RemovedTags(repo, keepLast) == times.Keys - kept
            && PrunedRepository(repo, keepLast) == Without(repo, times.Keys - kept)
            && RepositoryMarks(repo, keepLast) == MarksOf(ManifestsOf(PrunedRepository(repo, keepLast)), kept)
            && (RepositoryCollects(repo, keepLast) <==>
                forall t :: t in kept ==> AllReachedDecode(ManifestsOf(PrunedRepository(repo, keepLast)), t))
  {
    TagTimesAreListed(repo);
  }

  lemma NothingToPrune(repo: Repository, keepLast: nat)
    requires repo.tags == []
    ensures RemovedTags(repo, keepLast) == {} && RepositoryMarks(repo, keepLast) == {}
        && RepositoryCollects(repo, keepLast)
  {
    assert KeptTags(TagTimes(repo), keepLast) == {};
  }

  ghost predicate Pruned(repos: Repositories, blobs: map<Digest, nat>, pending: map<Digest, int>, keepLast: nat,
                         now: int, repos': Repositories, blobs': map<Digest, nat>, pending': map<Digest, int>)
  {
    && repos' == PrunedRepositories(repos, repos.Keys, keepLast)
    && pending' == FreshPending(pending, now)
    && blobs' == SweptBlobs(blobs, AllMarks(repos, repos.Keys, keepLast) + pending'.Keys)
  }

  ghost predicate RepositoriesRetained(repos: Repositories, repos': Repositories, keepLast: nat) {
    repos'.Keys == repos.Keys && forall n :: n in repos' ==> Retained(repos[n], repos'[n], keepLast)
  }

  /** A tag that retention kept leads, over the manifests left, to one that names the digest. */
  ghost predicate NamedFromAKeptTag(repo: Repository, repo': Repository, d: Digest) {
    exists t :: t in repo.tags && t in repo'.entries
                && NamedByChain(map r | r in repo'.entries :: repo'.entries[r].manifest, t, d)
  }

  ghost predicate NamedInSomeRepository(repos: Repositories, repos': Repositories, d: Digest) {
    exists n :: n in repos && n in repos' && NamedFromAKeptTag(repos[n], repos'[n], d)
  }

  lemma KeptTagsStay(repo: Repository, keepLast: nat)
    requires forall t :: t in repo.tags ==> t in repo.entries
    ensures KeptTags(TagTimes(repo), keepLast)
         == set t | t in repo.tags && t in PrunedRepository(repo, keepLast).entries
  {
    PruneInSteps(repo, keepLast);
    hide KeptTags, TagTimes;
    OthersAreDeleted(repo, KeptTags(TagTimes(repo), keepLast));
  }

  lemma MarksAreFromKeptTags(repo: Repository, keepLast: nat, d: Digest)
    requires RepositoryCollects(repo, keepLast)
    ensures d in RepositoryMarks(repo, keepLast) <==> NamedFromAKeptTag(repo, PrunedRepository(repo, keepLast), d)
  {
    KeptTagsStay(repo, keepLast);
    var repo' := PrunedRepository(repo, keepLast);
    assert ManifestsOf(repo') == map r | r in repo'.entries :: repo'.entries[r].manifest;
    forall t ensures d in Marks(ManifestsOf(repo'), t) <==> NamedByChain(ManifestsOf(repo'), t, d) {
      MarksAreNamed(ManifestsOf(repo'), t, d);
    }
    hide KeptTags, PrunedRepository, Marks, NamedByChain, TagTimes, RepositoryCollects;
  }

  lemma AllMarksAreFromKeptTags(repos: Repositories, keepLast: nat, repos': Repositories, d: Digest)
    requires forall n :: n in repos ==> RepositoryCollects(repos[n], keepLast)
    requires repos' == PrunedRepositories(repos, repos.Keys, keepLast)
    ensures d in AllMarks(repos, repos.Keys, keepLast) <==> NamedInSomeRepository(repos, repos', d)
  {
    hide RepositoryMarks, RepositoryCollects, NamedFromAKeptTag, PrunedRepository;
    forall n | n in repos ensures d in RepositoryMarks(repos[n], keepLast) <==>
                                  NamedFromAKeptTag(repos[n], repos'[n], d) {
      MarksAreFromKeptTags(repos[n], keepLast, d);
    }
  }

  lemma CollectedIsRetained(repo: Repository, keepLast: nat)
    requires RepositoryCollects(repo, keepLast)
    ensures Retained(repo, PrunedRepository(repo, keepLast), keepLast)
  {
    PrunedIsRetained(repo, keepLast);
  }

  lemma AllAreRetained(repos: Repositories, keepLast: nat)
    requires forall n :: n in repos ==> RepositoryCollects(repos[n], keepLast)
    ensures RepositoriesRetained(repos, PrunedRepositories(repos, repos.Keys, keepLast), keepLast)
  {
    hide Retained, PrunedRepository, RepositoryCollects;
    forall n | n in repos ensures Retained(repos[n], PrunedRepository(repos[n], keepLast), keepLast) {
      CollectedIsRetained(repos[n], keepLast);
    }
  }

  lemma PrunedInPlainTerms(repos: Repositories, blobs: map<Digest, nat>, pending: map<Digest, int>, keepLast: nat,
                           now: int, repos': Repositories, blobs': map<Digest, nat>, pending': map<Digest, int>)
    requires forall n :: n in repos ==> RepositoryCollects(repos[n], keepLast)
    requires Pruned(repos, blobs, pending, keepLast, now, repos', blobs', pending')
    ensures RepositoriesRetained(repos, repos', keepLast)
    ensures forall d :: d in pending' <==> d in pending && now - pending[d] <= 86_400_000_000_000
    ensures forall d :: d in blobs' <==>
                        d in blobs && (!IsDigest(d) || d in pending' || NamedInSomeRepository(repos, repos', d))
  {
    AllAreRetained(repos, keepLast);
    assert forall d :: d in pending' <==> d in pending && now - pending[d] <= 86_400_000_000_000;
    hide RepositoriesRetained, PrunedRepositories, NamedInSomeRepository, AllMarks, RepositoryCollects, IsDigest;
    forall d ensures d in AllMarks(repos, repos.Keys, keepLast) <==> NamedInSomeRepository(repos, repos', d) {
      AllMarksAreFromKeptTags(repos, keepLast, repos', d);
    }
  }

  ghost function MarksOf(ms: Manifests, tags: set<Tag>): set<Digest> {
    set t, d | t in tags && d in Marks(ms, t) :: d
  }

  lemma NoMarks(ms: Manifests)
    ensures MarksOf(ms, {}) == {}
  {
  }

  lemma MarksGrow(ms: Manifests, tags: set<Tag>, t: Tag)
    ensures MarksOf(ms, tags + {t}) == MarksOf(ms, tags) + Marks(ms, t)
  {
  }

  lemma DeleteOneMore(repo: Repository, removed: set<Tag>, t: Tag)
    ensures Without(Without(repo, removed), {t}) == Without(repo, removed + {t})
    ensures t in repo.entries && t !in removed ==> t in Without(repo, removed).entries
  {
    if removed == {} {
      assert removed + {t} == {t};
    } else {
      KeepTagsTwice(repo.tags, removed, {t});
      assert repo.entries - removed - {t} == repo.entries - (removed + {t});
    }
  }

  lemma PruneOneMore(repos: Repositories, done: set<RepositoryName>, name: RepositoryName, keepLast: nat)
    requires name in repos && name !in done
    ensures var repos' := PrunedRepositories(repos, done, keepLast);
            && repos'.Keys == repos.Keys && repos'[name] == repos[name]
            && PruneOne(repos', name, keepLast) == PrunedRepositories(repos, done + {name}, keepLast)
  {
    hide PrunedRepository;
  }

  lemma CollectOneMore(repos: Repositories, done: set<RepositoryName>, name: RepositoryName, keepLast: nat,
                       repos': Repositories, removed: nat, referenced: set<Digest>)
    requires Collected(repos, done, keepLast, repos', removed, referenced)
    requires WellFormed(repos') && name in repos && name !in done
    ensures name in repos' && repos'[name] == repos[name]
    ensures Collected(repos, done + {name}, keepLast, PruneOne(repos', name, keepLast),
                      removed + |RemovedTags(repos[name], keepLast)|,
                      referenced + RepositoryMarks(repos[name], keepLast))
  {
    hide PrunedRepository, PrunedRepositories, AllMarks, RepositoryMarks, WellFormed, RemovedTags, Sum;
    PruneOneMore(repos, done, name, keepLast);
    AllMarksGrow(repos, done, name, keepLast);
    SumRemove(RemovedCount(repos, keepLast), done + {name}, name);
    assert done + {name} - {name} == done;
  }

  lemma PruneOneKeepsWellFormed(repos: Repositories, name: RepositoryName, keepLast: nat)
    requires WellFormed(repos) && name in repos
    ensures WellFormed(PruneOne(repos, name, keepLast))
  {
  }

  lemma AllMarksGrow(repos: Repositories, done: set<RepositoryName>, name: RepositoryName, keepLast: nat)
    requires name in repos
    ensures AllMarks(repos, done + {name}, keepLast) == AllMarks(repos, done, keepLast) + RepositoryMarks(repos[name],
        keepLast)
  {
  }

  lemma DeleteBlobBytes(blobs: map<Digest, nat>, digest: Digest)
    requires digest in blobs
    ensures TotalBytes(blobs) == blobs[digest] + TotalBytes(blobs - {digest})
    ensures |blobs| == 1 + |blobs - {digest}|
  {
    SumRemove(SizeIn(blobs), blobs.Keys, digest);
    assert (blobs - {digest}).Keys == blobs.Keys - {digest};
    SumSame(SizeIn(blobs), SizeIn(blobs - {digest}), blobs.Keys - {digest});
  }
}
