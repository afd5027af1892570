/** The garbage collector's depth-first marking (images service). */
module Marking {
  import opened Reachability
  import opened ManifestGraph

  /** Digests named by the stored manifests of `rs`. */
  function DigestsOf(ms: Manifests, rs: set<Reference>): set<Digest> {
    set r, d | r in rs && r in ms && d in CoreDigests(ms[r]) :: d
  }

  /**
   * Everything visited between `before` and `after` is reached from `source`, decodes, and has its children visited.
   */
  ghost predicate Explored(ms: Manifests, source: Reference, before: set<Reference>, after: set<Reference>) {
    && before <= after
    && (forall r :: r in after - before ==> Reaches(ChildEdges(ms), source, r))
    && (forall r :: r in after - before && r in ms ==> !ms[r].Undecodable?)
    && (forall r :: r in after - before ==> Children(ms, r) <= after)
  }

  lemma ExploredStep(ms: Manifests, source: Reference, child: Reference, before: set<Reference>, mid: set<Reference>,
                     after: set<Reference>)
    requires Explored(ms, source, before, mid) && Explored(ms, child, mid, after)
    requires child in Children(ms, source)
    ensures Explored(ms, source, before, after)
  {
    forall r | r in after - before ensures Reaches(ChildEdges(ms), source, r) {
      if r !in mid { ReachesFirst(ChildEdges(ms), source, child, r); }
    }
  }

  /** The visit of `source` itself, once its children are explored. */
  lemma ExploredFinish(ms: Manifests, source: Reference, before: set<Reference>, after: set<Reference>)
    requires source in ms && !ms[source].Undecodable?
    requires Explored(ms, source, before + {source}, after) && Children(ms, source) <= after
    ensures Explored(ms, source, before, after)
  {
    ReachesSelf(ChildEdges(ms), source);
    forall r | r in after - before
      ensures Reaches(ChildEdges(ms), source, r) && Children(ms, r) <= after && (r in ms ==> !ms[r].Undecodable?)
    {
      if r != source { assert r in after - (before + {source}); }
    }
  }

  lemma NonEmptyGrows(digests: seq<Digest>, i: nat)
    requires i < |digests|
    ensures NonEmpty(digests[..i + 1]) == NonEmpty(digests[..i]) + if digests[i] == "" then {} else {digests[i]}
  {
    assert digests[..i + 1] == digests[..i] + [digests[i]];
  }

  /** One more child accounted for in the digests gathered so far. */
  lemma GatheredStep(ms: Manifests, base: set<Digest>, done: seq<Digest>, child: Digest, start: set<Reference>,
                     mid: set<Reference>, after: set<Reference>, gathered: set<Digest>)
    requires start <= mid <= after
    requires gathered == base + NonEmpty(done) + DigestsOf(ms, mid - start)
    ensures gathered + {child} + DigestsOf(ms, after - mid) == base + (NonEmpty(done) + {child}) + DigestsOf(ms,
        after - start)
  {
    DigestsOfUnion(ms, mid - start, after - mid);
    assert after - start == (mid - start) + (after - mid);
  }

  lemma GatheredFinish(ms: Manifests, source: Reference, before: set<Reference>, after: set<Reference>)
    requires source in ms && source !in before && before + {source} <= after
    ensures DigestsOf(ms, after - before) == CoreDigests(ms[source]) + DigestsOf(ms, after - (before + {source}))
  {
    DigestsOfUnion(ms, {source}, after - (before + {source}));
    assert after - before == {source} + (after - (before + {source}));
  }

  /**
   * The recursive traversal. `visited` and `referenced` are the maps the calls share; the measure is the number of
   * stored manifests not yet visited.
   */
  method CollectReferencedDigests(ms: Manifests, reference: Reference, referenced: set<Digest>, visited: set<Reference>)
    returns (ok: bool, referenced': set<Digest>, visited': set<Reference>)
    ensures ok ==> reference in visited' && Explored(ms, reference, visited, visited')
    ensures ok ==> referenced' == referenced + DigestsOf(ms, visited' - visited)
    ensures !ok ==> exists r :: r in ms && ms[r].Undecodable? && Reaches(ChildEdges(ms), reference, r)
    decreases |ms.Keys - visited|, 1
  {
    referenced', visited' := referenced, visited;
    if reference in visited {
      return true, referenced', visited';
    }
    visited' := visited + {reference};
    ReachesSelf(ChildEdges(ms), reference);
    if reference !in ms {
      return true, referenced', visited';
    }
    if ms[reference].Undecodable? {
      return false, referenced', visited';
    }
    referenced' := referenced' + CoreBlobs(ms[reference]);
    assert reference in ms.Keys - visited;
    MeasureShrinks(ms.Keys - visited', ms.Keys - visited);
    ok, referenced', visited' := CollectChildren(ms, reference, referenced', visited');
    if ok {
      ExploredFinish(ms, reference, visited, visited');
      GatheredFinish(ms, reference, visited, visited');
    }
  }

  lemma NothingGathered(ms: Manifests, reference: Reference, visited: set<Reference>)
    ensures NonEmpty([]) == {} && DigestsOf(ms, visited - visited) == {} && Explored(ms, reference, visited, visited)
  {
  }

  lemma ExploredGrows(ms: Manifests, source: Reference, before: set<Reference>, after: set<Reference>)
    requires Explored(ms, source, before, after)
    ensures before <= after
  {
  }

  /** A child that is not empty is among the children of its manifest. */
  lemma ChildIsListed(children: seq<Digest>, i: nat)
    requires i < |children| && children[i] != ""
    ensures children[i] in NonEmpty(children)
  {
  }

  /** The traversal's loop over the child manifests of a stored, already visited `reference`. */
  method CollectChildren(ms: Manifests, reference: Reference, referenced: set<Digest>, visited: set<Reference>)
    returns (ok: bool, referenced': set<Digest>, visited': set<Reference>)
    requires reference in ms && !ms[reference].Undecodable? && reference in visited
    ensures ok ==> Explored(ms, reference, visited, visited') && Children(ms, reference) <= visited'
    ensures ok ==> referenced' == referenced + CoreChildren(ms[reference]) + DigestsOf(ms, visited' - visited)
    ensures !ok ==> exists r :: r in ms && ms[r].Undecodable? && Reaches(ChildEdges(ms), reference, r)
    decreases |ms.Keys - visited|, 2
  {
    var children := ms[reference].core.manifests;
    referenced', visited' := referenced, visited;
    NothingGathered(ms, reference, visited);
    assert Children(ms, reference) == CoreChildren(ms[reference]) == NonEmpty(children);
    assert ChildEdges(ms)(reference) == NonEmpty(children);
    hide Explored, DigestsOf, NonEmpty, CoreChildren, Children, ChildEdges, Reaches;
    for i := 0 to |children|
      invariant Explored(ms, reference, visited, visited')
      invariant NonEmpty(children[..i]) <= visited'
      invariant referenced' == referenced + NonEmpty(children[..i]) + DigestsOf(ms, visited' - visited)
    {
      NonEmptyGrows(children, i);
      if children[i] != "" {
        ghost var mid, gathered := visited', referenced';
        ChildIsListed(children, i);
        assert visited <= visited' by { ExploredGrows(ms, reference, visited, visited'); }
        MeasureShrinks(ms.Keys - visited', ms.Keys - visited);
        ok, referenced', visited' := CollectReferencedDigests(ms, children[i], referenced' + {children[i]}, visited');
        if !ok {
          ghost var r :| r in ms && ms[r].Undecodable? && Reaches(ChildEdges(ms), children[i], r);
          ReachesFirst(ChildEdges(ms), reference, children[i], r);
          return;
        }
        assert mid <= visited' by { ExploredGrows(ms, children[i], mid, visited'); }
        ExploredStep(ms, reference, children[i], visited, mid, visited');
        GatheredStep(ms, referenced, children[..i], children[i], visited, mid, visited', gathered);
      }
    }
    assert children[..|children|] == children;
    ok := true;
  }

  lemma MeasureShrinks<T>(smaller: set<T>, larger: set<T>)
    requires smaller <= larger
    ensures |smaller| <= |larger|
    ensures smaller < larger ==> |smaller| < |larger|
  {
    var rest := larger - smaller;
    assert larger == smaller + rest;
  }

  lemma DigestsOfUnion(ms: Manifests, a: set<Reference>, b: set<Reference>)
    ensures DigestsOf(ms, a + b) == DigestsOf(ms, a) + DigestsOf(ms, b)
  {
  }

  /** What one traversal with a fresh visited map explores is exactly what the tag reaches. */
  lemma FreshTraversalIsReachability(ms: Manifests, tag: Reference, visited: set<Reference>)
    requires tag in visited && Explored(ms, tag, {}, visited)
    ensures forall r :: r in visited <==> Reaches(ChildEdges(ms), tag, r)
    ensures DigestsOf(ms, visited) == Marks(ms, tag)
    ensures AllReachedDecode(ms, tag)
  {
    assert Closed(ChildEdges(ms), visited);
    forall r | Reaches(ChildEdges(ms), tag, r) ensures r in visited {
      ReachesStaysInside(ChildEdges(ms), visited, tag, r);
    }
  }

  lemma DecodeByChain(ms: Manifests, tag: Reference)
    ensures AllReachedDecode(ms, tag) <==>
              forall p :: ChildChain(ms, p) && p[0] == tag && p[|p| - 1] in ms ==> !ms[p[|p| - 1]].Undecodable?
  {
    forall p ensures ChildChain(ms, p) <==> Path(ChildEdges(ms), p) { ChildChainIsPath(ms, p); }
    hide ChildChain, ChildEdges;
  }

  /** Marking is exact, and it fails exactly when a reachable stored manifest does not decode. */
  method CollectFromTag(ms: Manifests, tag: Reference, referenced: set<Digest>)
      returns (ok: bool, referenced': set<Digest>)
    ensures ok <==> AllReachedDecode(ms, tag)
    ensures ok ==> referenced' == referenced + Marks(ms, tag)
    ensures ok ==> forall d :: d in referenced' <==> d in referenced || NamedByChain(ms, tag, d)
    ensures ok <==> forall p :: ChildChain(ms, p) && p[0] == tag && p[|p| - 1] in ms ==> !ms[p[|p| - 1]].Undecodable?
  {
    forall d ensures d in Marks(ms, tag) <==> NamedByChain(ms, tag, d) { MarksAreNamed(ms, tag, d); }
    DecodeByChain(ms, tag);
    hide NamedByChain, ChildChain, AllReachedDecode;
    var visited;
    ok, referenced', visited := CollectReferencedDigests(ms, tag, referenced, {});
    if ok {
      FreshTraversalIsReachability(ms, tag, visited);
      assert visited - {} == visited;
    }
  }
}
