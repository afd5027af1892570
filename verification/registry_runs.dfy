/**
 * Every interleaving of registry writes, uploads, a prune and daemon restarts. Writers hold the lock for reading, a
 * prune holds it for writing, and a finished chunked upload holds nothing.
 *
 * A step of a writer is one storage call, one clock reading or one critical section of the pending table. The retention
 * and marking of a repository is one step, because nothing else touches repositories while the prune holds the lock;
 * for the same reason the prune's clock reading and its pass over the pending table are one step. A restart may leave
 * any repositories, so it may come in the middle of such a step.
 */
module RegistryRuns {
  import opened ManifestGraph
  import opened Retention
  import opened RegistryState
  import opened Registry

  type ThreadId = nat

  /** Where a thread that holds the read lock stands; a tag list is read and written back in two steps. */
  datatype Writer =
    | BlobArriving(digest: Digest, size: nat)
    | BlobStored(digest: Digest)
    | BlobTimed(digest: Digest, at: int)
    | ManifestArriving(name: RepositoryName, reference: Reference, manifest: Manifest)
    | ManifestWritten(name: RepositoryName, reference: Reference, manifest: Manifest)
    | TagsRead(name: RepositoryName, reference: Reference, manifest: Manifest, tags: seq<Reference>)
    | ManifestStored(manifest: Manifest)
    | Deleting(name: RepositoryName, reference: Reference)
    | EntryDeleted(name: RepositoryName, reference: Reference)
    | DeletionTagsRead(name: RepositoryName, reference: Reference, tags: seq<Reference>)
    | Leaving

  datatype Prune =
    | NoPrune
    | Scanning(keepLast: nat, todo: set<RepositoryName>, marked: set<Digest>)
    | Marked(marked: set<Digest>)
    | Sweeping(marked: set<Digest>, todo: set<Digest>)

  datatype System = System(
    repos: Repositories,
    blobs: map<Digest, nat>,
    pending: map<Digest, int>,
    now: int,
    writers: map<ThreadId, Writer>,
    prune: Prune)

  datatype Step =
    | Tick(elapsed: nat)
    | AcquireRead(thread: ThreadId, writer: Writer)
    | StoreBlob(thread: ThreadId)
    | ReadClock(thread: ThreadId)
    | AddPending(thread: ThreadId)
    | WriteManifest(thread: ThreadId)
    | ReadTags(thread: ThreadId)
    | WriteTags(thread: ThreadId)
    | MarkPublished(thread: ThreadId)
    | DeleteEntry(thread: ThreadId)
    | ReadTagsToDelete(thread: ThreadId)
    | WriteTagsWithout(thread: ThreadId)
    | ReleaseRead(thread: ThreadId)
    | FinishUpload(digest: Digest, size: nat)
    | BeginPrune(keepLast: nat)
    | PruneRepository(name: RepositoryName)
    | HonourPending
    | ListBlobs
    | DeleteBlob(digest: Digest)
    | SkipBlob(digest: Digest)
    | EndPrune
    | Restart(left: Repositories)  // what interrupted operations left of the repositories

  predicate Starts(w: Writer) {
    w.BlobArriving? || w.ManifestArriving? || w.Deleting?
  }

  predicate Enabled(s: System, step: Step) {
    match step
    case Tick(_) => true
    case AcquireRead(t, w) => t !in s.writers && s.prune.NoPrune? && Starts(w)
    case StoreBlob(t) => t in s.writers && s.writers[t].BlobArriving?
    case ReadClock(t) => t in s.writers && s.writers[t].BlobStored?
    case AddPending(t) => t in s.writers && s.writers[t].BlobTimed?
    case WriteManifest(t) => t in s.writers && s.writers[t].ManifestArriving?
    case ReadTags(t) => t in s.writers && s.writers[t].ManifestWritten? && s.writers[t].name in s.repos
    case WriteTags(t) => t in s.writers && s.writers[t].TagsRead? && s.writers[t].name in s.repos
    case MarkPublished(t) => t in s.writers && s.writers[t].ManifestStored?
    case DeleteEntry(t) =>
      && t in s.writers && s.writers[t].Deleting?
      && s.writers[t].name in s.repos && s.writers[t].reference in s.repos[s.writers[t].name].entries
    case ReadTagsToDelete(t) => t in s.writers && s.writers[t].EntryDeleted? && s.writers[t].name in s.repos
    case WriteTagsWithout(t) => t in s.writers && s.writers[t].DeletionTagsRead? && s.writers[t].name in s.repos
    case ReleaseRead(t) => t in s.writers
    case FinishUpload(_, _) => true
    case BeginPrune(k) => s.prune.NoPrune? && s.writers == map[] && k > 0
    case PruneRepository(n) => s.prune.Scanning? && n in s.prune.todo && n in s.repos
    case HonourPending => s.prune.Scanning? && s.prune.todo == {}
    case ListBlobs => s.prune.Marked?
    case DeleteBlob(d) => s.prune.Sweeping? && d in s.prune.todo && d !in s.prune.marked
    case SkipBlob(d) => s.prune.Sweeping? && d in s.prune.todo && d in s.prune.marked
    case EndPrune => !s.prune.NoPrune?
    case Restart(_) => true
  }

  ghost function Apply(s: System, step: Step): System
    requires Enabled(s, step)
  {
    match step
    case Tick(elapsed) => s.(now := s.now + elapsed)
    case AcquireRead(t, w) => s.(writers := s.writers[t := w])
    case StoreBlob(t) =>
      var w := s.writers[t];
      s.(blobs := s.blobs[w.digest := w.size], writers := s.writers[t := BlobStored(w.digest)])
    case ReadClock(t) => s.(writers := s.writers[t := BlobTimed(s.writers[t].digest, s.now)])
    case AddPending(t) =>
      s.(pending := s.pending[s.writers[t].digest := s.writers[t].at], writers := s.writers[t := Leaving])
    case WriteManifest(t) =>
      var w := s.writers[t];
      var repo := if w.name in s.repos then s.repos[w.name] else Repository(map[], []);
      var repo' := Repository(repo.entries[w.reference := Entry(w.manifest, s.now)], repo.tags);
      s.(repos := s.repos[w.name := repo'], writers := s.writers[t := ManifestWritten(w.name, w.reference, w.manifest)])
    case ReadTags(t) =>
      var w := s.writers[t];
      s.(writers := s.writers[t := TagsRead(w.name, w.reference, w.manifest, s.repos[w.name].tags)])
    case WriteTags(t) =>
      var w := s.writers[t];
      var unwritten := TagsAfterPut(w.tags, w.reference) == w.tags;
      var tags := if unwritten then s.repos[w.name].tags else TagsAfterPut(w.tags, w.reference);
      s.(repos := s.repos[w.name := Repository(s.repos[w.name].entries, tags)],
         writers := s.writers[t := ManifestStored(w.manifest)])
    case MarkPublished(t) =>
      s.(pending := s.pending - Published(s, t), writers := s.writers[t := Leaving])
    case DeleteEntry(t) =>
      var w := s.writers[t];
      var repo := s.repos[w.name];
      s.(repos := s.repos[w.name := Repository(repo.entries - {w.reference}, repo.tags)],
         writers := s.writers[t := EntryDeleted(w.name, w.reference)])
    case ReadTagsToDelete(t) =>
      var w := s.writers[t];
      s.(writers := s.writers[t := DeletionTagsRead(w.name, w.reference, s.repos[w.name].tags)])
    case WriteTagsWithout(t) =>
      var w := s.writers[t];
      var repo' := Repository(s.repos[w.name].entries, KeepTags(w.tags, {w.reference}));
      s.(repos := s.repos[w.name := repo'], writers := s.writers[t := Leaving])
    case ReleaseRead(t) => s.(writers := s.writers - {t})
    case FinishUpload(d, size) => s.(blobs := s.blobs[d := size])
    case BeginPrune(k) => s.(prune := Scanning(k, s.repos.Keys, {}))
    case PruneRepository(n) =>
      var k := s.prune.keepLast;
      s.(repos := s.repos[n := PrunedRepository(s.repos[n], k)],
         prune := Scanning(k, s.prune.todo - {n}, s.prune.marked + RepositoryMarks(s.repos[n], k)))
    case HonourPending =>
      var honoured := FreshPending(s.pending, s.now);
      s.(pending := honoured, prune := Marked(s.prune.marked + honoured.Keys))
    case ListBlobs => s.(prune := Sweeping(s.prune.marked, set d | d in s.blobs && IsDigest(d)))
    case DeleteBlob(d) => s.(blobs := s.blobs - {d}, prune := Sweeping(s.prune.marked, s.prune.todo - {d}))
    case SkipBlob(d) => s.(prune := Sweeping(s.prune.marked, s.prune.todo - {d}))
    case EndPrune => s.(prune := NoPrune)
    case Restart(left) => System(left, s.blobs, map[], s.now, map[], NoPrune)
  }

  /** The digests a manifest publication removes from the pending table. */
  function Published(s: System, t: ThreadId): set<Digest>
    requires t in s.writers && s.writers[t].ManifestStored?
  {
    set d | d in PublishedDigests(s.writers[t].manifest)
  }

  /** A daemon that has just started over whatever is stored: nothing is pending and nobody holds the lock. */
  predicate Fresh(s: System) {
    s.pending == map[] && s.writers == map[] && s.prune.NoPrune?
  }

  /** `run` starts with a fresh daemon over any storage, and `steps` lead from each state to the next. */
  ghost predicate Run(run: seq<System>, steps: seq<Step>) {
    && |run| == |steps| + 1 && Fresh(run[0])
    && forall i :: 0 <= i < |steps| ==> Enabled(run[i], steps[i]) && run[i + 1] == Apply(run[i], steps[i])
  }

  /** Named by a manifest some tag of some repository reaches. */
  ghost predicate ReachableFromTag(repos: Repositories, d: Digest) {
    exists n, t :: n in repos && t in repos[n].tags && d in Marks(ManifestsOf(repos[n]), t)
  }

  /** Everything the tags of the repositories in `done` reach is marked. */
  ghost predicate Covers(repos: Repositories, done: set<RepositoryName>, marked: set<Digest>) {
    forall n, t :: n in done && n in repos && t in repos[n].tags ==> Marks(ManifestsOf(repos[n]), t) <= marked
  }

  ghost predicate LockDiscipline(s: System) {
    s.prune.NoPrune? || s.writers == map[]
  }

  ghost predicate PendingStored(s: System) {
    && (forall d :: d in s.pending ==> d in s.blobs)
    && (forall t :: t in s.writers && (s.writers[t].BlobStored? || s.writers[t].BlobTimed?) ==>
          s.writers[t].digest in s.blobs)
  }

  ghost predicate MarkingCovers(s: System) {
    match s.prune
    case NoPrune => true
    case Scanning(_, todo, marked) => Covers(s.repos, s.repos.Keys - todo, marked)
    case Marked(marked) => Covers(s.repos, s.repos.Keys, marked) && s.pending.Keys <= marked
    case Sweeping(marked, _) => Covers(s.repos, s.repos.Keys, marked) && s.pending.Keys <= marked
  }

  ghost predicate Invariant(s: System) {
    LockDiscipline(s) && PendingStored(s) && MarkingCovers(s)
  }

  lemma LockStep(s: System, step: Step)
    requires Invariant(s) && Enabled(s, step)
    ensures LockDiscipline(Apply(s, step))
  {
  }

  lemma PendingStep(s: System, step: Step)
    requires Invariant(s) && Enabled(s, step)
    ensures PendingStored(Apply(s, step))
  {
    hide KeepTags, TagsAfterPut, PrunedRepository, RepositoryMarks, PublishedDigests, IsDigest;
    if step.DeleteBlob? {
      assert s.writers == map[];
    }
  }

  /** Retention of one repository leaves only tags whose reach was marked in that step. */
  lemma PrunedRepositoryCovered(repo: Repository, keepLast: nat, t: Reference)
    requires t in PrunedRepository(repo, keepLast).tags
    ensures Marks(ManifestsOf(PrunedRepository(repo, keepLast)), t) <= RepositoryMarks(repo, keepLast)
  {
    assert t in RemovedTags(repo, keepLast) || t in KeptTags(TagTimes(repo), keepLast);
  }

  lemma ScanStep(s: System, n: RepositoryName)
    requires Invariant(s) && Enabled(s, PruneRepository(n))
    ensures MarkingCovers(Apply(s, PruneRepository(n)))
  {
    var s' := Apply(s, PruneRepository(n));
    forall m, t | m in s'.repos.Keys - s'.prune.todo && t in s'.repos[m].tags
      ensures Marks(ManifestsOf(s'.repos[m]), t) <= s'.prune.marked
    {
      if m == n {
        PrunedRepositoryCovered(s.repos[n], s.prune.keepLast, t);
      } else {
        assert m in s.repos.Keys - s.prune.todo && s'.repos[m] == s.repos[m];
      }
    }
  }

  lemma MarkingStep(s: System, step: Step)
    requires Invariant(s) && Enabled(s, step)
    ensures MarkingCovers(Apply(s, step))
  {
    if step.PruneRepository? {
      ScanStep(s, step.name);
    }
  }

  lemma {:induction false} InvariantHolds(run: seq<System>, steps: seq<Step>, i: nat)
    requires Run(run, steps) && i < |run|
    ensures Invariant(run[i])
  {
    if i > 0 {
      InvariantHolds(run, steps, i - 1);
      LockStep(run[i - 1], steps[i - 1]);
      PendingStep(run[i - 1], steps[i - 1]);
      MarkingStep(run[i - 1], steps[i - 1]);
      assert run[i - 1 + 1] == Apply(run[i - 1], steps[i - 1]);
    }
  }

  /**
   * Safety over every interleaving: at the moment a prune deletes a blob, no remaining tag of any repository reaches a
   * manifest naming it, and no upload is waiting for it to be published.
   */
  lemma DeletedBlobsAreUnreachable(run: seq<System>, steps: seq<Step>, i: nat)
    requires Run(run, steps) && i < |steps| && steps[i].DeleteBlob?
    ensures !ReachableFromTag(run[i].repos, steps[i].digest)
    ensures steps[i].digest !in run[i].pending
  {
    InvariantHolds(run, steps, i);
    var s, d := run[i], steps[i].digest;
    forall n, t | n in s.repos && t in s.repos[n].tags ensures d !in Marks(ManifestsOf(s.repos[n]), t) {
      assert Marks(ManifestsOf(s.repos[n]), t) <= s.prune.marked;
    }
  }

  /** No upload of the digest has read, or will record, a clock reading before `since`. */
  ghost predicate ReadSince(s: System, d: Digest, since: int) {
    && since <= s.now
    && (forall t :: t in s.writers && s.writers[t].BlobTimed? && s.writers[t].digest == d ==> since <= s.writers[t].at)
    && (d in s.pending ==> since <= s.pending[d])
  }

  lemma ReadSinceStep(s: System, step: Step, d: Digest, since: int)
    requires Enabled(s, step) && ReadSince(s, d, since)
    ensures ReadSince(Apply(s, step), d, since)
  {
    hide KeepTags, TagsAfterPut, PrunedRepository, RepositoryMarks, PublishedDigests, IsDigest;
  }

  /** One step keeps a pending entry that has not expired, unless it publishes the digest or restarts the daemon. */
  lemma PendingEntryStep(s: System, step: Step, d: Digest, since: int)
    requires Enabled(s, step) && d in s.pending && ReadSince(s, d, since) && !step.Restart?
    requires step.MarkPublished? ==> d !in Published(s, step.thread)
    requires Apply(s, step).now - since <= PENDING_BLOB_TTL
    ensures d in Apply(s, step).pending
  {
    hide KeepTags, TagsAfterPut, PrunedRepository, RepositoryMarks, PublishedDigests, IsDigest;
  }

  lemma ClockStep(s: System, step: Step)
    requires Enabled(s, step)
    ensures s.now <= Apply(s, step).now
  {
    hide KeepTags, TagsAfterPut, PrunedRepository, RepositoryMarks, PublishedDigests, IsDigest;
  }

  lemma RunLength(run: seq<System>, steps: seq<Step>)
    requires Run(run, steps)
    ensures |run| == |steps| + 1
  {
  }

  lemma StepAt(run: seq<System>, steps: seq<Step>, i: nat)
    requires Run(run, steps) && i < |steps|
    ensures Enabled(run[i], steps[i]) && run[i + 1] == Apply(run[i], steps[i])
  {
  }

  lemma {:induction false} ClockIsMonotone(run: seq<System>, steps: seq<Step>, i: nat, j: nat)
    requires Run(run, steps) && i <= j < |run|
    ensures run[i].now <= run[j].now
  {
    hide *;
    RunLength(run, steps);
    if i < j {
      ClockIsMonotone(run, steps, i, j - 1);
      StepAt(run, steps, j - 1);
      ClockStep(run[j - 1], steps[j - 1]);
    }
  }

  /** Between `i` and `j` no manifest naming the digest is published. */
  ghost predicate Unpublished(run: seq<System>, steps: seq<Step>, i: nat, j: nat, d: Digest)
    requires Run(run, steps) && j < |run|
  {
    forall k :: i <= k < j && steps[k].MarkPublished? ==> d !in Published(run[k], steps[k].thread)
  }

  ghost predicate NoRestart(steps: seq<Step>, i: nat, j: nat)
    requires j <= |steps|
  {
    forall k :: i <= k < j ==> !steps[k].Restart?
  }

  lemma {:induction false} PendingEntryLasts(run: seq<System>, steps: seq<Step>, i: nat, j: nat, d: Digest, since: int)
    requires Run(run, steps) && i <= j < |run| && d in run[i].pending && ReadSince(run[i], d, since)
    requires Unpublished(run, steps, i, j, d) && NoRestart(steps, i, j) && run[j].now - since <= PENDING_BLOB_TTL
    ensures d in run[j].pending && ReadSince(run[j], d, since)
  {
    if i < j {
      var s, step := run[j - 1], steps[j - 1];
      assert Enabled(s, step) && run[j - 1 + 1] == Apply(s, step);
      assert step.MarkPublished? ==> d !in Published(s, step.thread);
      hide Apply, Enabled, Published, ReadSince, Unpublished;
      ClockIsMonotone(run, steps, j - 1, j);
      assert Unpublished(run, steps, i, j - 1, d) by { UnpublishedPrefix(run, steps, i, j, d); }
      PendingEntryLasts(run, steps, i, j - 1, d, since);
      ReadSinceStep(s, step, d, since);
      PendingEntryStep(s, step, d, since);
    }
  }

  lemma UnpublishedPrefix(run: seq<System>, steps: seq<Step>, i: nat, j: nat, d: Digest)
    requires Run(run, steps) && 0 < j < |run| && Unpublished(run, steps, i, j, d)
    ensures Unpublished(run, steps, i, j - 1, d)
  {
  }

  lemma ForgottenStep(s: System, step: Step, d: Digest)
    requires Enabled(s, step) && d !in s.pending
    requires step.AddPending? ==> s.writers[step.thread].digest != d
    ensures d !in Apply(s, step).pending
  {
    hide KeepTags, TagsAfterPut, PrunedRepository, RepositoryMarks, PublishedDigests, IsDigest;
  }

  /** An entry that is gone stays gone until the digest is recorded again. */
  lemma {:induction false} ForgottenStaysForgotten(run: seq<System>, steps: seq<Step>, i: nat, j: nat, d: Digest)
    requires Run(run, steps) && i <= j < |run| && d !in run[i].pending
    requires forall k :: i <= k < j && steps[k].AddPending? ==> run[k].writers[steps[k].thread].digest != d
    ensures d !in run[j].pending
  {
    if i < j {
      ForgottenStaysForgotten(run, steps, i, j - 1, d);
      assert Enabled(run[j - 1], steps[j - 1]) && run[j - 1 + 1] == Apply(run[j - 1], steps[j - 1]);
      ForgottenStep(run[j - 1], steps[j - 1], d);
    }
  }

  /**
   * Exactly when a pending entry outlives its 24 hours' claim: unless it is recorded again or a manifest naming it is
   * published, it is still there if and only if the daemon has not been restarted.
   */
  lemma PendingEntryLastsIff(run: seq<System>, steps: seq<Step>, i: nat, j: nat, d: Digest, since: int)
    requires Run(run, steps) && i <= j < |run| && d in run[i].pending && ReadSince(run[i], d, since)
    requires Unpublished(run, steps, i, j, d) && run[j].now - since <= PENDING_BLOB_TTL
    requires forall k :: i <= k < j && steps[k].AddPending? ==> run[k].writers[steps[k].thread].digest != d
    ensures d in run[j].pending <==> NoRestart(steps, i, j)
  {
    if NoRestart(steps, i, j) {
      PendingEntryLasts(run, steps, i, j, d, since);
    } else {
      var k :| i <= k < j && steps[k].Restart?;
      assert run[k + 1] == Apply(run[k], steps[k]);
      ForgottenStaysForgotten(run, steps, k + 1, j, d);
    }
  }

  /**
   * Protection of uploads over every interleaving: a blob that PutBlob recorded as pending at step `i` is present until
   * 24 hours after `since`, unless a manifest naming it is published or the daemon restarts. `since` is the clock
   * reading that is recorded, or an earlier one that another upload of the same digest has yet to record.
   */
  lemma UploadedBlobIsProtected(run: seq<System>, steps: seq<Step>, i: nat, j: nat, d: Digest, since: int)
    requires Run(run, steps) && i < j < |run|
    requires steps[i].AddPending? && run[i].writers[steps[i].thread].digest == d
    requires since <= run[i].now
    requires forall t :: t in run[i].writers && run[i].writers[t].BlobTimed? && run[i].writers[t].digest == d ==>
               since <= run[i].writers[t].at
    requires Unpublished(run, steps, i + 1, j, d) && NoRestart(steps, i + 1, j)
    requires run[j].now - since <= PENDING_BLOB_TTL
    ensures d in run[j].blobs
  {
    assert run[i + 1] == Apply(run[i], steps[i]);
    PendingEntryLasts(run, steps, i + 1, j, d, since);
    InvariantHolds(run, steps, j);
  }

  /** A run in which the daemon restarts after an upload and then prunes. */
  function RestartStep(d: Digest, i: nat): Step
    requires i < 10
  {
    if i == 0 then AcquireRead(0, BlobArriving(d, 1)) else if i == 1 then StoreBlob(0) else if i == 2 then ReadClock(0)
    else if i == 3 then AddPending(0) else if i == 4 then ReleaseRead(0) else if i == 5 then Restart(map[])
    else if i == 6 then BeginPrune(1) else if i == 7 then HonourPending else if i == 8 then ListBlobs else DeleteBlob(d)
  }

  /** Nothing stored but perhaps the one blob. */
  function OnlyBlob(blobs: map<Digest, nat>, pending: map<Digest, int>, writers: map<ThreadId, Writer>,
                    prune: Prune): System {
    System(map[], blobs, pending, 0, writers, prune)
  }

  function RestartState(d: Digest, i: nat): System
    requires i <= 10
  {
    var none: map<Digest, nat> := map[];
    var stored := map[d := 1];
    if i == 0 then OnlyBlob(none, map[], map[], NoPrune)
    else if i == 1 then OnlyBlob(none, map[], map[0 := BlobArriving(d, 1)], NoPrune)
    else if i == 2 then OnlyBlob(stored, map[], map[0 := BlobStored(d)], NoPrune)
    else if i == 3 then OnlyBlob(stored, map[], map[0 := BlobTimed(d, 0)], NoPrune)
    else if i == 4 then OnlyBlob(stored, map[d := 0], map[0 := Leaving], NoPrune)
    else if i == 5 then OnlyBlob(stored, map[d := 0], map[], NoPrune)
    else if i == 6 then OnlyBlob(stored, map[], map[], NoPrune)
    else if i == 7 then OnlyBlob(stored, map[], map[], Scanning(1, {}, {}))
    else if i == 8 then OnlyBlob(stored, map[], map[], Marked({}))
    else if i == 9 then OnlyBlob(stored, map[], map[], Sweeping({}, {d}))
    else OnlyBlob(none, map[], map[], Sweeping({}, {}))
  }

  /** The step leads from the `i`-th state of the run to the next. */
  ghost predicate RestartLeads(d: Digest, i: nat)
    requires i < 10
  {
    var s, step := RestartState(d, i), RestartStep(d, i);
    Enabled(s, step) && RestartState(d, i + 1) == Apply(s, step)
  }

  lemma RestartUploads(d: Digest, i: nat)
    requires i < 7
    ensures RestartLeads(d, i)
  {
    hide KeepTags, TagsAfterPut, PrunedRepository, RepositoryMarks, FreshPending, PublishedDigests, IsDigest;
    var s := RestartState(d, i);
    if i == 4 { assert s.writers - {0} == map[]; }
    if i == 6 { assert s.repos.Keys == {}; }
  }

  lemma RestartSweeps(d: Digest, i: nat)
    requires IsDigest(d) && 7 <= i < 10
    ensures RestartLeads(d, i)
  {
    var s := RestartState(d, i);
    assert FreshPending(map[], 0) == map[];
    hide KeepTags, TagsAfterPut, PrunedRepository, RepositoryMarks, FreshPending, PublishedDigests, IsDigest;
    if i == 7 { assert {} + FreshPending(map[], 0).Keys == {}; }
    if i == 8 { assert (set x | x in s.blobs && IsDigest(x)) == {d}; }
    if i == 9 { assert s.blobs - {d} == map[] && {d} - {d} == {}; }
  }

  /** A restart forgets uploads: this run deletes a blob the moment after it was uploaded and recorded as pending. */
  lemma RestartForgetsUploads(d: Digest) returns (run: seq<System>, steps: seq<Step>)
    requires IsDigest(d)
    ensures Run(run, steps) && |steps| == 10
    ensures steps[3] == AddPending(0) && d in run[4].pending && d !in run[10].blobs && run[10].now == run[4].now
  {
    run := seq(11, i requires 0 <= i < 11 => RestartState(d, i));
    steps := seq(10, i requires 0 <= i < 10 => RestartStep(d, i));
    forall i | 0 <= i < 10 ensures Enabled(run[i], steps[i]) && run[i + 1] == Apply(run[i], steps[i]) {
      if i < 7 { RestartUploads(d, i); } else { RestartSweeps(d, i); }
      assert RestartLeads(d, i);
      hide Enabled, Apply, RestartState, RestartStep;
    }
    hide Enabled, Apply;
  }
}
