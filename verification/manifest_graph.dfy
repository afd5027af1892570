/** Reachability along a successor function. */
module Reachability {

  ghost predicate Path<T(!new)>(next: T -> set<T>, p: seq<T>) {
    && p != []
    && forall i :: 0 <= i < |p| - 1 ==> p[i + 1] in next(p[i])
  }

  ghost predicate Reaches<T(!new)>(next: T -> set<T>, source: T, target: T) {
    exists p :: Path(next, p) && p[0] == source && p[|p| - 1] == target
  }

  ghost predicate Closed<T(!new)>(next: T -> set<T>, s: set<T>) {
    forall x :: x in s ==> next(x) <= s
  }

  lemma ReachesSelf<T(!new)>(next: T -> set<T>, x: T)
    ensures Reaches(next, x, x)
  {
    assert Path(next, [x]);
  }

  lemma ReachesFirst<T(!new)>(next: T -> set<T>, x: T, y: T, z: T)
    requires y in next(x) && Reaches(next, y, z)
    ensures Reaches(next, x, z)
  {
    var p :| Path(next, p) && p[0] == y && p[|p| - 1] == z;
    assert Path(next, [x] + p);
  }

  lemma ReachesLast<T(!new)>(next: T -> set<T>, x: T, y: T, z: T)
    requires Reaches(next, x, y) && z in next(y)
    ensures Reaches(next, x, z)
  {
    var p :| Path(next, p) && p[0] == x && p[|p| - 1] == y;
    assert Path(next, p + [z]);
  }

  lemma {:induction false} PathStaysInside<T(!new)>(next: T -> set<T>, s: set<T>, p: seq<T>, k: nat)
    requires Closed(next, s) && Path(next, p) && p[0] in s && k < |p|
    ensures p[k] in s
  {
    if k > 0 {
      PathStaysInside(next, s, p, k - 1);
      assert p[k - 1 + 1] in next(p[k - 1]);
    }
  }

  lemma ReachesStaysInside<T(!new)>(next: T -> set<T>, s: set<T>, x: T, y: T)
    requires Closed(next, s) && x in s && Reaches(next, x, y)
    ensures y in s
  {
    var p :| Path(next, p) && p[0] == x && p[|p| - 1] == y;
    PathStaysInside(next, s, p, |p| - 1);
  }

  /** A successor function with more successors reaches at least as much. */
  lemma ReachesMonotone<T(!new)>(fewer: T -> set<T>, more: T -> set<T>, x: T, y: T)
    requires forall z :: fewer(z) <= more(z)
    requires Reaches(fewer, x, y)
    ensures Reaches(more, x, y)
  {
    var p :| Path(fewer, p) && p[0] == x && p[|p| - 1] == y;
    assert Path(more, p);
  }
}

/** Manifests of one repository and the two edge relations the code follows between them. */
module ManifestGraph {
  import opened Options
  import opened Reachability

  type Reference = string
  type Digest = string

  /** What the garbage collector decodes; an absent descriptor decodes to the empty digest. */
  datatype Core = Core(config: Digest, layers: seq<Digest>, manifests: seq<Digest>)

  /** What the ownership walk decodes in addition. */
  datatype Extra = Extra(blobs: seq<Digest>, subject: Option<Digest>)

  /**
   * Stored manifest bytes, by what JSON decoding makes of them. The collector's target struct is smaller than the
   * registry's, so bytes may decode for the collector only.
   */
  datatype Manifest = Undecodable | CoreOnly(core: Core) | Full(core: Core, extra: Extra)

  type Manifests = map<Reference, Manifest>

  function NonEmpty(digests: seq<Digest>): set<Digest> {
    set d | d in digests && d != ""
  }

  /** Config and layer digests. */
  function CoreBlobs(m: Manifest): set<Digest> {
    if m.Undecodable? then {} else NonEmpty([m.core.config] + m.core.layers)
  }

  function CoreChildren(m: Manifest): set<Digest> {
    if m.Undecodable? then {} else NonEmpty(m.core.manifests)
  }

  /** Everything one manifest makes the collector keep. */
  function CoreDigests(m: Manifest): set<Digest> {
    CoreBlobs(m) + CoreChildren(m)
  }

  function Children(ms: Manifests, r: Reference): set<Reference> {
    if r in ms then CoreChildren(ms[r]) else {}
  }

  function ChildEdges(ms: Manifests): Reference -> set<Reference> {
    r => Children(ms, r)
  }

  /** Digests of the manifests the ownership walk descends into. */
  function NestedDescriptors(m: Manifest): seq<Digest> {
    if !m.Full? then []
    else if m.extra.subject.Some? && m.extra.subject.value != "" then m.core.manifests + [m.extra.subject.value]
    else m.core.manifests
  }

  function Nested(ms: Manifests, r: Reference): set<Reference> {
    if r in ms then NonEmpty(NestedDescriptors(ms[r])) else {}
  }

  function NestedEdges(ms: Manifests): Reference -> set<Reference> {
    r => Nested(ms, r)
  }

  /** The digests a traversal from `tag` along child edges names, over every stored manifest it reaches. */
  ghost function Marks(ms: Manifests, tag: Reference): set<Digest> {
    set r, d | r in ms && Reaches(ChildEdges(ms), tag, r) && d in CoreDigests(ms[r]) :: d
  }

  ghost predicate AllReachedDecode(ms: Manifests, tag: Reference) {
    forall r :: r in ms && Reaches(ChildEdges(ms), tag, r) ==> !ms[r].Undecodable?
  }

  /** `manifestReferencesTarget`. */
  predicate ReferencesTarget(m: Manifest, target: Digest)
    requires m.Full?
  {
    || m.core.config == target
    || target in m.core.layers
    || target in m.core.manifests
    || target in m.extra.blobs
    || (m.extra.subject.Some? && m.extra.subject.value == target)
  }

  ghost predicate Owned(ms: Manifests, tags: seq<Reference>, target: Digest) {
    exists t, r :: t in tags && r in ms && Reaches(NestedEdges(ms), t, r) && ms[r].Full?
        && ReferencesTarget(ms[r], target)
  }

  /** A stored manifest that decodes for the collector names the other one in its `manifests` list. */
  ghost predicate ListsChild(ms: Manifests, r: Reference, child: Reference) {
    r in ms && !ms[r].Undecodable? && child != "" && child in ms[r].core.manifests
  }

  ghost predicate ChildChain(ms: Manifests, p: seq<Reference>) {
    p != [] && forall i :: 0 <= i < |p| - 1 ==> ListsChild(ms, p[i], p[i + 1])
  }

  /** The config, a layer or a child of a stored manifest at the end of such a walk. */
  ghost predicate NamedByChain(ms: Manifests, tag: Reference, d: Digest) {
    exists p :: ChildChain(ms, p) && p[0] == tag && p[|p| - 1] in ms && EndNamesInCore(ms, p, d)
  }

  ghost predicate EndNamesInCore(ms: Manifests, p: seq<Reference>, d: Digest)
    requires p != [] && p[|p| - 1] in ms
  {
    var m := ms[p[|p| - 1]];
    !m.Undecodable? && d != "" && (d == m.core.config || d in m.core.layers || d in m.core.manifests)
  }

  lemma ChildChainIsPath(ms: Manifests, p: seq<Reference>)
    ensures ChildChain(ms, p) <==> Path(ChildEdges(ms), p)
  {
    assert forall r, child :: child in ChildEdges(ms)(r) <==> ListsChild(ms, r, child);
    hide ChildEdges, ListsChild;
  }

  lemma CoreDigestsAreNamed(m: Manifest, d: Digest)
    ensures d in CoreDigests(m) <==>
              !m.Undecodable? && d != "" && (d == m.core.config || d in m.core.layers || d in m.core.manifests)
  {
    if !m.Undecodable? { assert ([m.core.config] + m.core.layers)[0] == m.core.config; }
  }

  /** The marks of a tag, by the fields of the manifests. */
  lemma MarksAreNamed(ms: Manifests, tag: Reference, d: Digest)
    ensures d in Marks(ms, tag) <==> NamedByChain(ms, tag, d)
  {
    if d in Marks(ms, tag) {
      var r :| r in ms && Reaches(ChildEdges(ms), tag, r) && d in CoreDigests(ms[r]);
      var p :| Path(ChildEdges(ms), p) && p[0] == tag && p[|p| - 1] == r;
      ChildChainIsPath(ms, p);
      CoreDigestsAreNamed(ms[r], d);
      assert EndNamesInCore(ms, p, d);
    }
    if NamedByChain(ms, tag, d) {
      var p :| ChildChain(ms, p) && p[0] == tag && p[|p| - 1] in ms && EndNamesInCore(ms, p, d);
      ChildChainIsPath(ms, p);
      CoreDigestsAreNamed(ms[p[|p| - 1]], d);
    }
  }

  /** A fully decoded manifest names the other one in its `manifests` list or as its `subject`. */
  ghost predicate Nests(ms: Manifests, r: Reference, other: Reference) {
    && r in ms && ms[r].Full? && other != ""
    && (other in ms[r].core.manifests || ms[r].extra.subject == Some(other))
  }

  ghost predicate NestedChain(ms: Manifests, p: seq<Reference>) {
    p != [] && forall i :: 0 <= i < |p| - 1 ==> Nests(ms, p[i], p[i + 1])
  }

  /** The fully decoded manifest at the end of a walk names the digest in one of its five places. */
  ghost predicate EndNames(ms: Manifests, p: seq<Reference>, d: Digest)
    requires p != []
  {
    var r := p[|p| - 1];
    && r in ms && ms[r].Full?
    && (|| d == ms[r].core.config || d in ms[r].core.layers || d in ms[r].core.manifests
        || d in ms[r].extra.blobs || ms[r].extra.subject == Some(d))
  }

  ghost predicate SomeTagLeadsTo(ms: Manifests, tags: seq<Reference>, d: Digest) {
    exists p :: NestedChain(ms, p) && p[0] in tags && EndNames(ms, p, d)
  }

  /** Every walk from a tag ends in a stored manifest that fully decodes and names the digest nowhere. */
  ghost predicate EveryWalkMisses(ms: Manifests, tags: seq<Reference>, d: Digest) {
    forall p :: NestedChain(ms, p) && p[0] in tags ==>
      p[|p| - 1] in ms && ms[p[|p| - 1]].Full? && !EndNames(ms, p, d)
  }

  lemma NestedMember(ms: Manifests, r: Reference, other: Reference)
    ensures other in NestedEdges(ms)(r) <==> Nests(ms, r, other)
  {
    if r in ms && ms[r].Full? && ms[r].extra.subject == Some(other) && other != "" {
      assert NestedDescriptors(ms[r])[|ms[r].core.manifests|] == other;
    }
  }

  lemma NestedChainIsPath(ms: Manifests, p: seq<Reference>)
    ensures NestedChain(ms, p) <==> Path(NestedEdges(ms), p)
  {
    forall r, other ensures other in NestedEdges(ms)(r) <==> Nests(ms, r, other) { NestedMember(ms, r, other); }
    hide NestedEdges, Nests;
  }

  /** Ownership, by the fields of the manifests. */
  lemma OwnedByChain(ms: Manifests, tags: seq<Reference>, d: Digest)
    ensures Owned(ms, tags, d) <==> SomeTagLeadsTo(ms, tags, d)
  {
    if Owned(ms, tags, d) {
      var t, r :| t in tags && r in ms && Reaches(NestedEdges(ms), t, r) && ms[r].Full? && ReferencesTarget(ms[r], d);
      var p :| Path(NestedEdges(ms), p) && p[0] == t && p[|p| - 1] == r;
      NestedChainIsPath(ms, p);
      assert EndNames(ms, p, d);
    }
    forall p | NestedChain(ms, p) && p[0] in tags && EndNames(ms, p, d) ensures Owned(ms, tags, d) {
      NestedChainIsPath(ms, p);
      assert Reaches(NestedEdges(ms), p[0], p[|p| - 1]);
    }
  }
}
