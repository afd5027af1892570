/** The registry: repositories, blobs, and the operations that change them (registry and images services). */
module Registry {
  import opened ManifestGraph
  import opened Options
  import opened Retention
  import opened Sorting
  import opened Sums
  import opened Text

  type RepositoryName = string

  datatype Entry = Entry(manifest: Manifest, modTime: int)

  /** One repository's storage: its manifests by reference, and its tag list. */
  datatype Repository = Repository(entries: map<Reference, Entry>, tags: seq<Reference>)

  type Repositories = map<RepositoryName, Repository>

  /** `validation.IsDigest`. */
  predicate IsDigest(s: string) {
    || (HasPrefix(s, "sha256:") && |s| == 7 + 64 && forall i :: 7 <= i < |s| ==> IsLowerHex(s[i]))
    || (HasPrefix(s, "sha512:") && |s| == 7 + 128 && forall i :: 7 <= i < |s| ==> IsLowerHex(s[i]))
  }

  predicate IsLowerHex(c: char) {
    'a' <= c <= 'f' || '0' <= c <= '9'
  }

  function ManifestsOf(repo: Repository): Manifests {
    map r | r in repo.entries :: repo.entries[r].manifest
  }

  function TagTimes(repo: Repository): map<Tag, int> {
    map t | t in repo.tags && t in repo.entries :: repo.entries[t].modTime
  }

  /** The store never lists a tag twice. */
  ghost predicate WellFormed(repos: Repositories) {
    forall n :: n in repos ==> Distinct(repos[n].tags)
  }

  /** Rewriting a tag list drops digest entries along with the removed references. */
  function KeepTags(tags: seq<Reference>, removed: set<Reference>): (rest: seq<Reference>)
    ensures forall t :: t in rest <==> t in tags && t !in removed && !IsDigest(t)
    ensures Distinct(tags) ==> Distinct(rest)
  {
    if tags == [] then []
    else
      var rest := KeepTags(tags[1..], removed);
      if tags[0] in removed || IsDigest(tags[0]) then rest else [tags[0]] + rest
  }

  lemma {:induction false} KeepTagsTwice(tags: seq<Reference>, a: set<Reference>, b: set<Reference>)
    ensures KeepTags(KeepTags(tags, a), b) == KeepTags(tags, a + b)
  {
    if tags != [] { KeepTagsTwice(tags[1..], a, b); }
  }

  /** Deleting a set of manifests rewrites the tag list only when there is something to delete. */
  function Without(repo: Repository, removed: set<Reference>): Repository {
    if removed == {} then repo
    else Repository(repo.entries - removed, KeepTags(repo.tags, removed))
  }

  /** `updateTagsList`: nothing is written for a digest, or for a tag that is listed already. */
  function TagsAfterPut(tags: seq<Reference>, reference: Reference): seq<Reference> {
    if IsDigest(reference) || reference in KeepTags(tags, {}) then tags else KeepTags(tags, {}) + [reference]
  }

  function PutEntry(repo: Repository, reference: Reference, entry: Entry): Repository {
    Repository(repo.entries[reference := entry], TagsAfterPut(repo.tags, reference))
  }

  function RemovedTags(repo: Repository, keepLast: nat): set<Tag> {
    (set t | t in repo.tags) - KeptTags(TagTimes(repo), keepLast)
  }

  /** A repository after retention. */
  function PrunedRepository(repo: Repository, keepLast: nat): Repository {
    Without(repo, RemovedTags(repo, keepLast))
  }

  /** What the collector marks for one repository: everything the kept tags reach once the other tags are gone. */
  ghost function RepositoryMarks(repo: Repository, keepLast: nat): set<Digest> {
    set t, d | t in KeptTags(TagTimes(repo), keepLast)
               && d in Marks(ManifestsOf(PrunedRepository(repo, keepLast)), t) :: d
  }

  ghost predicate RepositoryCollects(repo: Repository, keepLast: nat) {
    && (forall t :: t in repo.tags ==> t in repo.entries)
    && forall t :: t in KeptTags(TagTimes(repo), keepLast) ==>
         AllReachedDecode(ManifestsOf(PrunedRepository(repo, keepLast)), t)
  }

  /** The repositories after retention ran on those in `done`. */
  function PrunedRepositories(repos: Repositories, done: set<RepositoryName>, keepLast: nat): Repositories {
    map n | n in repos :: if n in done then PrunedRepository(repos[n], keepLast) else repos[n]
  }

  ghost function AllMarks(repos: Repositories, done: set<RepositoryName>, keepLast: nat): set<Digest> {
    set n, d | n in done && n in repos && d in RepositoryMarks(repos[n], keepLast) :: d
  }

  /** The blobs a sweep leaves; the store lists only blobs whose name is a digest. */
  function SweptBlobs(blobs: map<Digest, nat>, referenced: set<Digest>): map<Digest, nat> {
    map d | d in blobs && (!IsDigest(d) || d in referenced) :: blobs[d]
  }

  function SizeIn(blobs: map<Digest, nat>): Digest -> nat {
    d => if d in blobs then blobs[d] else 0
  }

  ghost function TotalBytes(blobs: map<Digest, nat>): nat {
    Sum(SizeIn(blobs), blobs.Keys)
  }

  datatype PruneReport = PruneReport(tagsRemoved: nat, blobsRemoved: nat, spaceReclaimed: nat)

  const EMPTY_REPORT := PruneReport(0, 0, 0)

  /** `manifestReferencedDigests`. */
  function PublishedDigests(m: Manifest): seq<Digest> {
    if !m.Full? then []
    else
      NonEmptyList([m.core.config]) + NonEmptyList(m.core.layers) + NonEmptyList(m.core.manifests)
      + NonEmptyList(m.extra.blobs) + (if m.extra.subject.Some? then NonEmptyList([m.extra.subject.value]) else [])
  }

  function NonEmptyList(digests: seq<Digest>): (rest: seq<Digest>)
    ensures forall d :: d in rest <==> d in digests && d != ""
  {
    if digests == [] then []
    else (if digests[0] == "" then [] else [digests[0]]) + NonEmptyList(digests[1..])
  }

  lemma TagTimesAreListed(repo: Repository)
    requires forall t :: t in repo.tags ==> t in repo.entries
    ensures TagTimes(repo).Keys == set t | t in repo.tags
  {
  }

  /** Sorting the loaded tags gives a listing of the repository's tag times. */
  lemma SortedTagsAreListing(repo: Repository, infos: seq<TagInfo>, sorted: seq<TagInfo>)
    requires Distinct(repo.tags) && |infos| == |repo.tags|
    requires forall i :: 0 <= i < |infos| ==>
            repo.tags[i] in repo.entries && infos[i] == TagInfo(repo.tags[i], repo.entries[repo.tags[i]].modTime)
    requires Sorted(sorted, Newer) && multiset(sorted) == multiset(infos)
    ensures Listing(sorted, TagTimes(repo))
  {
    forall info | info in sorted ensures info in infos { assert info in multiset(infos); }
    forall info | info in infos ensures info in sorted { assert info in multiset(sorted); }
    forall i | 0 <= i < |sorted| ensures sorted[i].name in TagTimes(repo)
        && sorted[i].modTime == TagTimes(repo)[sorted[i].name] {
      assert sorted[i] in sorted;
    }
    forall t | t in TagTimes(repo) ensures TagInfo(t, TagTimes(repo)[t]) in sorted {
      var i :| 0 <= i < |repo.tags| && repo.tags[i] == t;
      assert infos[i] in infos;
    }
    forall i, j | 0 <= i < j < |sorted| ensures sorted[i].name != sorted[j].name {
      DistinctInfos(repo, infos, sorted, i, j);
    }
  }

  lemma DistinctInfos(repo: Repository, infos: seq<TagInfo>, sorted: seq<TagInfo>, i: nat, j: nat)
    requires Distinct(repo.tags) && |infos| == |repo.tags|
    requires forall k :: 0 <= k < |infos| ==>
            repo.tags[k] in repo.entries && infos[k] == TagInfo(repo.tags[k], repo.entries[repo.tags[k]].modTime)
    requires multiset(sorted) == multiset(infos) && i < j < |sorted|
    ensures sorted[i].name != sorted[j].name
  {
    if sorted[i].name == sorted[j].name {
      var a := MultisetElement(infos, sorted[i]) by { assert sorted[i] in sorted; }
      var b := MultisetElement(infos, sorted[j]) by { assert sorted[j] in sorted; }
      assert a == b;
      TwiceInMultiset(sorted, i, j);
      OnceInMultiset(infos, a);
      assert false;
    }
  }

  lemma OnceInMultiset<T>(s: seq<T>, i: nat)
    requires i < |s| && forall j :: 0 <= j < |s| && j != i ==> s[j] != s[i]
    ensures multiset(s)[s[i]] == 1
  {
    assert s == s[..i] + [s[i]] + s[i + 1..];
    assert s[i] !in s[..i] && s[i] !in s[i + 1..];
  }

  /**
   * A digest is an algorithm, a colon and lower-case hexadecimal digits, 64 for "sha256" and 128 for "sha512". A name
   * without a colon is none.
   */
  lemma DigestForm(algorithm: string, hex: string)
    requires ':' !in algorithm
    ensures !IsDigest(algorithm)
    ensures IsDigest(algorithm + ":" + hex) <==>
              && (forall c :: c in hex ==> c in "0123456789abcdef")
              && ((algorithm == "sha256" && |hex| == 64) || (algorithm == "sha512" && |hex| == 128))
  {
    var s := algorithm + ":" + hex;
    assert algorithm + "" == algorithm && s == algorithm + (":" + hex);
    if HasPrefix(algorithm, "sha256:") || HasPrefix(algorithm, "sha512:") { PrefixHasColon(algorithm, ""); }
    if HasPrefix(s, "sha256:") || HasPrefix(s, "sha512:") { PrefixHasColon(algorithm, ":" + hex); }
    if algorithm == "sha256" || algorithm == "sha512" {
      assert |s| == 7 + |hex| && s[..7] == algorithm + ":" && s[7..] == hex;
      assert HasPrefix(s, "sha256:") <==> algorithm == "sha256" by { assert s[..7][3] == algorithm[3]; }
      assert HasPrefix(s, "sha512:") <==> algorithm == "sha512" by { assert s[..7][3] == algorithm[3]; }
      SuffixIsHex(s, hex);
      hide HasPrefix, IsLowerHex;
    }
  }

  lemma PrefixHasColon(algorithm: string, rest: string)
    requires ':' !in algorithm && (rest == "" || rest[0] == ':')
    requires HasPrefix(algorithm + rest, "sha256:") || HasPrefix(algorithm + rest, "sha512:")
    ensures rest != "" && (algorithm == "sha256" || algorithm == "sha512")
  {
    var s := algorithm + rest;
    var head := s[..7];
    assert head[6] == ':' && forall i :: 0 <= i < 6 ==> head[i] != ':';
    assert forall i :: 0 <= i < 7 ==> s[i] == head[i];
    forall i | 0 <= i < |algorithm| ensures s[i] != ':' { assert s[i] == algorithm[i]; }
    assert s[6] == ':' && |algorithm| <= 6;
    assert rest != "" && s[|algorithm|] == ':';
    assert head[..6] == algorithm;
  }

  lemma SuffixIsHex(s: string, hex: string)
    requires |s| == 7 + |hex| && s[7..] == hex
    ensures (forall i :: 7 <= i < |s| ==> IsLowerHex(s[i])) <==> forall c :: c in hex ==> c in "0123456789abcdef"
  {
    forall c: char ensures IsLowerHex(c) <==> c in "0123456789abcdef" { HexDigits(c); }
    hide IsLowerHex;
    forall i | 7 <= i < |s| ensures s[i] == hex[i - 7] && hex[i - 7] in hex {}
    forall c | c in hex ensures exists i :: 7 <= i < |s| && s[i] == c {
      var k :| 0 <= k < |hex| && hex[k] == c;
      assert s[k + 7] == c;
    }
  }

  lemma HexDigits(c: char)
    ensures IsLowerHex(c) <==> c in "0123456789abcdef"
  {
    var digits := "0123456789abcdef";
    assert digits[0] == '0' && digits[1] == '1' && digits[2] == '2' && digits[3] == '3' && digits[4] == '4'
        && digits[5] == '5' && digits[6] == '6' && digits[7] == '7' && digits[8] == '8' && digits[9] == '9'
        && digits[10] == 'a' && digits[11] == 'b' && digits[12] == 'c' && digits[13] == 'd' && digits[14] == 'e'
        && digits[15] == 'f';
    if IsLowerHex(c) {
      assert c == digits[if c <= '9' then (c - '0') as int else (c - 'a') as int + 10];
    }
  }

  /** A push stores the manifest under its reference and lists the reference unless it is a digest. */
  lemma PutEntryStores(repo: Repository, reference: Reference, entry: Entry)
    ensures var repo' := PutEntry(repo, reference, entry);
            && repo'.entries.Keys == repo.entries.Keys + {reference}
            && repo'.entries[reference] == entry
            && (forall r :: r in repo.entries && r != reference ==> repo'.entries[r] == repo.entries[r])
            && (IsDigest(reference) ==> repo'.tags == repo.tags)
            && forall t :: !IsDigest(t) ==>
                 (t in repo'.tags <==> t in repo.tags || (t == reference && !IsDigest(reference)))
  {
  }

  /** Deleting references removes their entries and their tags, and nothing else but listed digests. */
  lemma WithoutRemoves(repo: Repository, removed: set<Reference>)
    ensures var repo' := Without(repo, removed);
            && (forall r :: r in repo'.entries <==> r in repo.entries && r !in removed)
            && (forall r :: r in repo'.entries ==> repo'.entries[r] == repo.entries[r])
            && (removed == {} ==> repo'.tags == repo.tags)
            && (removed != {} ==> forall t :: t in repo'.tags <==> t in repo.tags && t !in removed && !IsDigest(t))
  {
  }

  /** A published manifest takes out of the pending table what its five kinds of descriptors name. */
  lemma PublishedAreNamed(m: Manifest, d: Digest)
    ensures d in PublishedDigests(m) <==>
              && m.Full? && d != ""
              && (|| d == m.core.config || d in m.core.layers || d in m.core.manifests || d in m.extra.blobs
                  || m.extra.subject == Some(d))
  {
  }

  /** Of the listed tags exactly those in `kept` remain, with their entries; everything not listed is as it was. */
  ghost predicate OnlyTheseStay(repo: Repository, repo': Repository, kept: set<Tag>) {
    && (forall r :: r in repo'.entries <==> r in repo.entries && (r in repo.tags ==> r in kept))
    && (forall r :: r in repo'.entries ==> repo'.entries[r] == repo.entries[r])
    && if repo'.entries == repo.entries then repo'.tags == repo.tags
       else forall t :: t in repo'.tags <==> t in repo.tags && t in kept && !IsDigest(t)
  }

  /** What retention has made of a repository, by tags, times and entries. */
  ghost predicate Retained(repo: Repository, repo': Repository, keepLast: nat) {
    && (forall t :: t in repo.tags ==> t in repo.entries)
    && var kept := set t | t in repo.tags && t in repo'.entries;
       && KeepsTheNewest(map t | t in repo.tags && t in repo.entries :: repo.entries[t].modTime, kept, keepLast)
       && OnlyTheseStay(repo, repo', kept)
  }

  lemma OthersAreDeleted(repo: Repository, kept: set<Tag>)
    requires forall t :: t in repo.tags ==> t in repo.entries
    requires forall t :: t in kept ==> t in repo.tags
    ensures var repo' := Without(repo, (set t | t in repo.tags) - kept);
            kept == (set t | t in repo.tags && t in repo'.entries) && OnlyTheseStay(repo, repo', kept)
  {
    var removed := (set t | t in repo.tags) - kept;
    var repo' := Without(repo, removed);
    WithoutRemoves(repo, removed);
    hide IsDigest, KeepTags;
    if removed != {} {
      var t :| t in removed;
      assert t in repo.entries && t !in repo'.entries;
    }
  }

  lemma PrunedIsRetained(repo: Repository, keepLast: nat)
    requires forall t :: t in repo.tags ==> t in repo.entries
    ensures Retained(repo, PrunedRepository(repo, keepLast), keepLast)
  {
    var kept := KeptTags(TagTimes(repo), keepLast);
    KeptByTime(TagTimes(repo), keepLast);
    TagTimesAreListed(repo);
    hide KeptTags, KeepsTheNewest, OnlyTheseStay, Without;
    OthersAreDeleted(repo, kept);
  }
}
