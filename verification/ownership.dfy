/** The bounded breadth-first walk that decides whether a repository owns a digest (registry service). */
module Ownership {
  import opened Options
  import opened Reachability
  import opened ManifestGraph
  import opened Sums

  const MAX_MANIFEST_TRAVERSAL := 10000

  datatype Answer =
    | Referenced(yes: bool)
    | TooManyTags
    | MissingManifest(reference: Reference)
    | DecodeFailed(reference: Reference)
    | LimitExceeded

  /** `appendManifestDigests`. */
  method AppendManifestDigests(queue: seq<Reference>, descriptors: seq<Digest>) returns (queue': seq<Reference>)
    ensures |queue| <= |queue'| <= |queue| + |descriptors|
    ensures forall r :: r in queue' <==> r in queue || r in NonEmpty(descriptors)
  {
    queue' := queue;
    for i := 0 to |descriptors|
      invariant |queue| <= |queue'| <= |queue| + i
      invariant forall r :: r in queue' <==> r in queue || r in NonEmpty(descriptors[..i])
    {
      assert descriptors[..i + 1] == descriptors[..i] + [descriptors[i]];
      if descriptors[i] != "" {
        queue' := queue' + [descriptors[i]];
      }
    }
    assert descriptors[..|descriptors|] == descriptors;
  }

  ghost predicate ReachedFromTags(ms: Manifests, tags: seq<Reference>, r: Reference) {
    exists t :: t in tags && Reaches(NestedEdges(ms), t, r)
  }

  /** Every visited reference is stored, decodes, misses the target, and has its nested manifests queued or visited. */
  ghost predicate Searched(ms: Manifests, seen: set<Reference>, queue: seq<Reference>, target: Digest) {
    forall r :: r in seen ==>
      && r in ms && ms[r].Full? && !ReferencesTarget(ms[r], target)
      && forall n :: n in Nested(ms, r) ==> n in seen || n in queue
  }

  ghost predicate Frontier(ms: Manifests, tags: seq<Reference>, seen: set<Reference>, queue: seq<Reference>) {
    && (forall t :: t in tags ==> t in seen || t in queue)
    && (forall r :: r in queue ==> ReachedFromTags(ms, tags, r))
  }

  lemma TagsAreReached(ms: Manifests, tags: seq<Reference>)
    ensures Frontier(ms, tags, {}, tags)
  {
    forall t | t in tags ensures ReachedFromTags(ms, tags, t) {
      ReachesSelf(NestedEdges(ms), t);
    }
  }

  lemma NestedIsReached(ms: Manifests, tags: seq<Reference>, r: Reference)
    requires ReachedFromTags(ms, tags, r)
    ensures forall n :: n in Nested(ms, r) ==> ReachedFromTags(ms, tags, n)
  {
    var t :| t in tags && Reaches(NestedEdges(ms), t, r);
    forall n | n in Nested(ms, r) ensures ReachedFromTags(ms, tags, n) {
      ReachesLast(NestedEdges(ms), t, r, n);
    }
  }

  /** With an empty queue the visited set is closed, so nothing a tag reaches was missed. */
  lemma ExhaustedMeansUnowned(ms: Manifests, tags: seq<Reference>, seen: set<Reference>, target: Digest)
    requires Searched(ms, seen, [], target) && Frontier(ms, tags, seen, [])
    ensures !Owned(ms, tags, target)
  {
    assert Closed(NestedEdges(ms), seen);
    forall t, r | t in tags && Reaches(NestedEdges(ms), t, r) ensures r in seen {
      ReachesStaysInside(NestedEdges(ms), seen, t, r);
    }
  }

  /** Then every walk from a tag ends in a stored manifest that decodes and misses the target. */
  lemma ExhaustedMeansMissed(ms: Manifests, tags: seq<Reference>, seen: set<Reference>, target: Digest)
    requires Searched(ms, seen, [], target) && Frontier(ms, tags, seen, [])
    ensures EveryWalkMisses(ms, tags, target)
  {
    assert Closed(NestedEdges(ms), seen);
    forall p | NestedChain(ms, p) && p[0] in tags
      ensures p[|p| - 1] in ms && ms[p[|p| - 1]].Full? && !EndNames(ms, p, target)
    {
      NestedChainIsPath(ms, p);
      PathStaysInside(NestedEdges(ms), seen, p, |p| - 1);
    }
  }

  /** Whatever the collector would mark from a tag over fully decoded manifests is owned. */
  lemma MarkedIsOwned(ms: Manifests, tags: seq<Reference>, p: seq<Reference>, d: Digest)
    requires ChildChain(ms, p) && p[0] in tags && p[|p| - 1] in ms && EndNamesInCore(ms, p, d)
    requires forall i :: 0 <= i < |p| ==> p[i] in ms && ms[p[i]].Full?
    ensures Owned(ms, tags, d)
  {
    assert NestedChain(ms, p) && EndNames(ms, p, d);
    OwnedByChain(ms, tags, d);
  }

  function NestedCount(ms: Manifests): Reference -> nat {
    r => if r in ms then |NestedDescriptors(ms[r])| else 0
  }

  /** Whether a walk that starts from `tags` can meet no more than the permitted number of references. */
  ghost predicate WithinLimit(ms: Manifests, tags: seq<Reference>) {
    |tags| + Sum(NestedCount(ms), ms.Keys) <= 10000
  }

  /** What each outcome of the walk tells the caller. */
  ghost predicate Justified(ms: Manifests, tags: seq<Reference>, target: Digest, answer: Answer) {
    match answer
    case Referenced(yes) => |tags| <= MAX_MANIFEST_TRAVERSAL && (yes <==> Owned(ms, tags, target))
    case TooManyTags => |tags| > MAX_MANIFEST_TRAVERSAL
    case MissingManifest(r) => r !in ms && ReachedFromTags(ms, tags, r)
    case DecodeFailed(r) => r in ms && !ms[r].Full? && ReachedFromTags(ms, tags, r)
    case LimitExceeded => !WithinLimit(ms, tags)
  }

  /** The walk skips a reference it has visited before. */
  lemma SkipVisited(ms: Manifests, tags: seq<Reference>, seen: set<Reference>, queue: seq<Reference>, target: Digest)
    requires queue != [] && queue[0] in seen
    requires Searched(ms, seen, queue, target) && Frontier(ms, tags, seen, queue)
    ensures Searched(ms, seen, queue[1..], target) && Frontier(ms, tags, seen, queue[1..])
  {
    assert queue == [queue[0]] + queue[1..];
  }

  /** The walk visits the head of the queue and appends what it nests. */
  lemma VisitHead(ms: Manifests, tags: seq<Reference>, seen: set<Reference>, queue: seq<Reference>,
                  queue': seq<Reference>, target: Digest)
    requires queue != [] && queue[0] !in seen
    requires Searched(ms, seen, queue, target) && Frontier(ms, tags, seen, queue)
    requires queue[0] in ms && ms[queue[0]].Full? && !ReferencesTarget(ms[queue[0]], target)
    requires forall r :: r in queue' <==> r in queue[1..] || r in Nested(ms, queue[0])
    ensures Searched(ms, seen + {queue[0]}, queue', target) && Frontier(ms, tags, seen + {queue[0]}, queue')
  {
    assert queue == [queue[0]] + queue[1..];
    assert ReachedFromTags(ms, tags, queue[0]);
    NestedIsReached(ms, tags, queue[0]);
    hide ReachedFromTags, Nested, ReferencesTarget;
  }

  /** One fetched reference: an outcome that ends the walk, or nothing. */
  function Inspect(ms: Manifests, r: Reference, target: Digest): Option<Answer> {
    if r !in ms then Some(MissingManifest(r))
    else if !ms[r].Full? then Some(DecodeFailed(r))
    else if ReferencesTarget(ms[r], target) then Some(Referenced(true))
    else None
  }

  lemma InspectIsJustified(ms: Manifests, tags: seq<Reference>, r: Reference, target: Digest)
    requires |tags| <= MAX_MANIFEST_TRAVERSAL && ReachedFromTags(ms, tags, r)
    ensures Inspect(ms, r, target).Some? ==> Justified(ms, tags, target, Inspect(ms, r, target).value)
  {
  }

  lemma NestedCountGrows(ms: Manifests, seen: set<Reference>, r: Reference)
    requires r !in seen && r in ms
    ensures Sum(NestedCount(ms), seen + {r}) == Sum(NestedCount(ms), seen) + |NestedDescriptors(ms[r])|
  {
    SumRemove(NestedCount(ms), seen + {r}, r);
    assert seen + {r} - {r} == seen;
  }

  /** What holds at the head of the walk's loop. */
  ghost predicate WalkInvariant(ms: Manifests, tags: seq<Reference>, target: Digest, seen: set<Reference>,
                                queue: seq<Reference>) {
    && |seen| + |queue| <= MAX_MANIFEST_TRAVERSAL
    && |seen| + |queue| <= |tags| + Sum(NestedCount(ms), seen)
    && Searched(ms, seen, queue, target)
    && Frontier(ms, tags, seen, queue)
  }

  /** The part of the loop body that handles a reference not visited before. */
  method VisitReference(ms: Manifests, ghost tags: seq<Reference>, target: Digest, seen: set<Reference>,
                        queue: seq<Reference>)
    returns (stop: Option<Answer>, seen': set<Reference>, queue': seq<Reference>)
    requires |tags| <= MAX_MANIFEST_TRAVERSAL && queue != [] && queue[0] !in seen
    requires WalkInvariant(ms, tags, target, seen, queue)
    ensures stop.Some? ==> Justified(ms, tags, target, stop.value) && stop.value != Referenced(false)
    ensures stop.None? ==> WalkInvariant(ms, tags, target, seen', queue') && |seen'| == |seen| + 1
  {
    var reference := queue[0];
    queue' := queue[1..];
    seen' := seen + {reference};
    if |seen'| > MAX_MANIFEST_TRAVERSAL {
      assert false;
    }
    stop := Inspect(ms, reference, target);
    if stop.Some? {
      InspectIsJustified(ms, tags, reference, target);
      return;
    }
    var nested := NestedDescriptors(ms[reference]);
    NestedCountGrows(ms, seen, reference);
    if |seen'| + |queue'| + |nested| > MAX_MANIFEST_TRAVERSAL {
      SumSubset(NestedCount(ms), seen', ms.Keys);
      stop := Some(LimitExceeded);
      return;
    }
    queue' := AppendManifestDigests(queue', nested);
    VisitHead(ms, tags, seen, queue, queue', target);
  }

  /**
   * `repositoryReferencesDigest` over the tag list and manifests of one repository. Without an error it answers exactly
   * whether some tag reaches a manifest naming the target. The limit on visited references never fires, because the
   * visited and queued references together stay within the limit.
   */
  method RepositoryReferencesDigest(ms: Manifests, tags: seq<Reference>, target: Digest) returns (answer: Answer)
    ensures Justified(ms, tags, target, answer)
    ensures answer == TooManyTags <==> |tags| > 10000
    ensures answer == Referenced(true) ==> SomeTagLeadsTo(ms, tags, target)
    ensures answer == Referenced(false) ==> EveryWalkMisses(ms, tags, target)
  {
    if Owned(ms, tags, target) { OwnedByChain(ms, tags, target); }
    hide SomeTagLeadsTo, EveryWalkMisses, Owned;
    if |tags| > MAX_MANIFEST_TRAVERSAL {
      return TooManyTags;
    }
    var queue, seen := tags, {};
    TagsAreReached(ms, tags);
    while |queue| > 0
      invariant WalkInvariant(ms, tags, target, seen, queue)
      decreases MAX_MANIFEST_TRAVERSAL - |seen|, |queue|
    {
      if queue[0] in seen {
        SkipVisited(ms, tags, seen, queue, target);
        queue := queue[1..];
        continue;
      }
      var stop;
      stop, seen, queue := VisitReference(ms, tags, target, seen, queue);
      if stop.Some? {
        return stop.value;
      }
    }
    ExhaustedMeansUnowned(ms, tags, seen, target);
    ExhaustedMeansMissed(ms, tags, seen, target);
    return Referenced(false);
  }
}
