/** Which tags of a repository a prune keeps (images service). */
module Retention {
  import opened Text
  import opened Sorting

  type Tag = string

  datatype TagInfo = TagInfo(name: Tag, modTime: int)

  const LATEST: Tag := "latest"

  predicate Newer(a: TagInfo, b: TagInfo) {
    if a.modTime == b.modTime then Less(b.name, a.name) else a.modTime > b.modTime
  }

  lemma NewerIsComparator()
    ensures Comparator(Newer)
  {
    forall x: TagInfo ensures !Newer(x, x) { LessIrreflexive(x.name); }
    forall x: TagInfo, y: TagInfo, z: TagInfo | Newer(x, y) && Newer(y, z) ensures Newer(x, z) {
      if x.modTime == y.modTime && y.modTime == z.modTime { LessTransitive(z.name, y.name, x.name); }
    }
  }

  lemma NewerIsTotal(a: TagInfo, b: TagInfo)
    requires a != b
    ensures Newer(a, b) || Newer(b, a)
  {
    LessTotal(a.name, b.name);
  }

  /** The tags of `times` other than "latest" that are newer than `t`. */
  function NewerTags(times: map<Tag, int>, t: Tag): set<Tag>
    requires t in times
  {
    set u | u in times && u != LATEST && Newer(TagInfo(u, times[u]), TagInfo(t, times[t]))
  }

  /** "latest" and every tag that fewer than `keepLast` other tags are newer than. */
  function KeptTags(times: map<Tag, int>, keepLast: nat): set<Tag> {
    set t | t in times && (t == LATEST || |NewerTags(times, t)| < keepLast)
  }

  /** Names of the first `n` tags. */
  function Names(infos: seq<TagInfo>, n: nat): set<Tag>
    requires n <= |infos|
  {
    if n == 0 then {} else Names(infos, n - 1) + {infos[n - 1].name}
  }

  /** `infos` lists the tags of `times`, newest first, each once. */
  ghost predicate Listing(infos: seq<TagInfo>, times: map<Tag, int>) {
    && Sorted(infos, Newer)
    && (forall i :: 0 <= i < |infos| ==> infos[i].name in times && infos[i].modTime == times[infos[i].name])
    && (forall t :: t in times ==> TagInfo(t, times[t]) in infos)
    && (forall i, j :: 0 <= i < j < |infos| ==> infos[i].name != infos[j].name)
  }

  /** Names other than "latest" among the first `n` listed tags. */
  function OthersBefore(infos: seq<TagInfo>, n: nat): set<Tag>
    requires n <= |infos|
  {
    Names(infos, n) - {LATEST}
  }

  lemma {:induction false} NamesMember(infos: seq<TagInfo>, n: nat, t: Tag)
    requires n <= |infos|
    ensures t in Names(infos, n) <==> exists i :: 0 <= i < n && infos[i].name == t
  {
    if n > 0 {
      NamesMember(infos, n - 1, t);
      assert t == infos[n - 1].name || forall i :: 0 <= i < n && infos[i].name == t ==> i < n - 1;
    }
  }

  /** In a listing, position decides membership among the first `n` names. */
  lemma NameBefore(infos: seq<TagInfo>, times: map<Tag, int>, i: nat, n: nat)
    requires Listing(infos, times) && i < |infos| && n <= |infos|
    ensures infos[i].name in Names(infos, n) <==> i < n
  {
    NamesMember(infos, n, infos[i].name);
  }

  /** A listing, by times and names alone. */
  lemma ListingDescends(infos: seq<TagInfo>, times: map<Tag, int>)
    requires Listing(infos, times)
    ensures forall i, j :: 0 <= i < j < |infos| ==>
              || infos[i].modTime > infos[j].modTime
              || (infos[i].modTime == infos[j].modTime && Less(infos[j].name, infos[i].name))
  {
    forall i, j | 0 <= i < j < |infos|
      ensures infos[i].modTime > infos[j].modTime
           || (infos[i].modTime == infos[j].modTime && Less(infos[j].name, infos[i].name))
    {
      NewerIsTotal(infos[i], infos[j]);
    }
  }

  lemma TagPosition(infos: seq<TagInfo>, times: map<Tag, int>, t: Tag) returns (i: nat)
    requires Listing(infos, times) && t in times
    ensures i < |infos| && infos[i] == TagInfo(t, times[t])
  {
    i :| i < |infos| && infos[i] == TagInfo(t, times[t]);
  }

  lemma NamesAreListed(infos: seq<TagInfo>, times: map<Tag, int>, n: nat)
    requires Listing(infos, times) && n <= |infos|
    ensures Names(infos, n) <= times.Keys
    ensures n == |infos| ==> Names(infos, n) == times.Keys
  {
    forall t | t in Names(infos, n) ensures t in times { NamesMember(infos, n, t); }
    if n == |infos| {
      forall t | t in times ensures t in Names(infos, n) {
        var i := TagPosition(infos, times, t);
        NameBefore(infos, times, i, n);
      }
    }
  }

  lemma {:induction false} NamesPrefix(infos: seq<TagInfo>, i: nat, n: nat)
    requires i <= n <= |infos|
    ensures Names(infos, i) <= Names(infos, n)
  {
    if i < n { NamesPrefix(infos, i, n - 1); }
  }

  lemma NewerMember(infos: seq<TagInfo>, times: map<Tag, int>, n: nat, u: Tag)
    requires Listing(infos, times) && n < |infos| && u in times && u != LATEST
    ensures u in NewerTags(times, infos[n].name) <==> u in Names(infos, n)
  {
    var i := TagPosition(infos, times, u);
    NameBefore(infos, times, i, n);
    NewerByPosition(infos, i, n);
  }

  lemma NewerByPosition(infos: seq<TagInfo>, i: nat, n: nat)
    requires Sorted(infos, Newer) && i < |infos| && n < |infos| && (i != n ==> infos[i].name != infos[n].name)
    ensures Newer(infos[i], infos[n]) <==> i < n
  {
    NewerIsComparator();
    if i < n {
      NewerIsTotal(infos[i], infos[n]);
    }
  }

  /** In a listing, the tags newer than the one at `n` are exactly those before it. */
  lemma NewerAreBefore(infos: seq<TagInfo>, times: map<Tag, int>, n: nat)
    requires Listing(infos, times) && n < |infos|
    ensures NewerTags(times, infos[n].name) == OthersBefore(infos, n)
  {
    NamesAreListed(infos, times, n);
    forall u | u in times && u != LATEST
      ensures u in NewerTags(times, infos[n].name) <==> u in OthersBefore(infos, n)
    {
      NewerMember(infos, times, n, u);
    }
  }

  method ContainsTag(infos: seq<TagInfo>, name: Tag) returns (found: bool)
    ensures found <==> name in Names(infos, |infos|)
  {
    NamesMember(infos, |infos|, name);
    for i := 0 to |infos|
      invariant forall j :: 0 <= j < i ==> infos[j].name != name
    {
      if infos[i].name == name {
        return true;
      }
    }
    return false;
  }

  /** What the scan of `buildKeptTagSet` has decided after `n` tags. */
  ghost predicate ScanState(infos: seq<TagInfo>, n: nat, kept: set<Tag>, count: nat, keepLast: nat) {
    && n <= |infos|
    && kept - {LATEST} == OthersBefore(infos, n)
    && count == |kept - {LATEST}| <= keepLast
  }

  lemma ScanStart(infos: seq<TagInfo>, keepLast: nat)
    ensures ScanState(infos, 0, {}, 0, keepLast) && ScanState(infos, 0, {LATEST}, 0, keepLast)
  {
    assert {LATEST} - {LATEST} == {};
  }

  lemma ScanWithin(infos: seq<TagInfo>, n: nat, kept: set<Tag>, count: nat, keepLast: nat)
    requires ScanState(infos, n, kept, count, keepLast)
    ensures n <= |infos| && count <= keepLast
  {
  }

  lemma ScanStep(infos: seq<TagInfo>, n: nat, kept: set<Tag>, count: nat, keepLast: nat)
    requires ScanState(infos, n, kept, count, keepLast) && n < |infos| && infos[n].name !in Names(infos, n)
    ensures infos[n].name == LATEST ==> ScanState(infos, n + 1, kept, count, keepLast)
    ensures infos[n].name != LATEST && count < keepLast ==>
              ScanState(infos, n + 1, kept + {infos[n].name}, count + 1, keepLast)
  {
    if infos[n].name != LATEST {
      assert kept + {infos[n].name} - {LATEST} == (kept - {LATEST}) + {infos[n].name};
    }
  }

  /** A tag is among the `n` scanned ones exactly when fewer than `keepLast` others are newer. */
  lemma RankDecides(infos: seq<TagInfo>, times: map<Tag, int>, n: nat, keepLast: nat, t: Tag)
    requires Listing(infos, times) && n <= |infos|
    requires |OthersBefore(infos, n)| <= keepLast && (n == |infos| || |OthersBefore(infos, n)| == keepLast)
    requires t in times && t != LATEST
    ensures t in OthersBefore(infos, n) <==> |NewerTags(times, t)| < keepLast
  {
    var i := TagPosition(infos, times, t);
    NewerAreBefore(infos, times, i);
    NameBefore(infos, times, i, n);
    NameBefore(infos, times, i, i);
    RankAt(infos, i, n, t);
  }

  lemma RankAt(infos: seq<TagInfo>, i: nat, n: nat, t: Tag)
    requires i <= |infos| && n <= |infos| && t != LATEST
    requires t !in Names(infos, i) && (t in Names(infos, n) <==> i < n)
    ensures if i < n then |OthersBefore(infos, i)| < |OthersBefore(infos, n)|
        else |OthersBefore(infos, n)| <= |OthersBefore(infos, i)|
  {
    if i < n {
      NamesPrefix(infos, i, n);
      assert t in OthersBefore(infos, n) - OthersBefore(infos, i);
      ProperSubsetIsSmaller(OthersBefore(infos, i), OthersBefore(infos, n));
    } else {
      NamesPrefix(infos, n, i);
      SubsetIsNoLarger(OthersBefore(infos, n), OthersBefore(infos, i));
    }
  }

  lemma ScanMember(infos: seq<TagInfo>, times: map<Tag, int>, n: nat, kept: set<Tag>, count: nat, keepLast: nat, t: Tag)
    requires Listing(infos, times) && ScanState(infos, n, kept, count, keepLast)
    requires n == |infos| || count == keepLast
    requires LATEST in kept <==> LATEST in times
    ensures t in kept <==> t in KeptTags(times, keepLast)
  {
    NamesAreListed(infos, times, n);
    if t != LATEST {
      assert t in kept <==> t in OthersBefore(infos, n);
      if t in times { RankDecides(infos, times, n, keepLast, t); }
    }
  }

  /** The scan stopped at `n`: at the end of the listing, or because `keepLast` tags are kept. */
  lemma ScanResult(infos: seq<TagInfo>, times: map<Tag, int>, n: nat, kept: set<Tag>, count: nat, keepLast: nat)
    requires Listing(infos, times) && ScanState(infos, n, kept, count, keepLast)
    requires n == |infos| || count == keepLast
    requires LATEST in kept <==> LATEST in times
    ensures kept == KeptTags(times, keepLast)
  {
    forall t ensures t in kept <==> t in KeptTags(times, keepLast) {
      ScanMember(infos, times, n, kept, count, keepLast, t);
    }
  }

  lemma SubsetIsNoLarger<T>(a: set<T>, b: set<T>)
    requires a <= b
    ensures |a| <= |b|
  {
    assert b == a + (b - a);
  }

  lemma ProperSubsetIsSmaller<T>(a: set<T>, b: set<T>)
    requires a < b
    ensures |a| < |b|
  {
    assert b == a + (b - a);
  }

  /** The kept tags other than "latest" are newer than every tag that goes: by time, then by name. */
  lemma KeptAreNewest(times: map<Tag, int>, keepLast: nat, a: Tag, b: Tag)
    requires a in KeptTags(times, keepLast) - {"latest"} && b in times && b !in KeptTags(times, keepLast)
    ensures times[a] > times[b] || (times[a] == times[b] && Less(b, a))
  {
    NewerIsComparator();
    NewerIsTotal(TagInfo(a, times[a]), TagInfo(b, times[b]));
    if Newer(TagInfo(b, times[b]), TagInfo(a, times[a])) {
      assert NewerTags(times, b) <= NewerTags(times, a);
      SubsetIsNoLarger(NewerTags(times, b), NewerTags(times, a));
      assert false;
    }
  }

  /**
   * The rule the registry promises, in times and names alone: "latest" stays when present; of the other tags exactly
   * min(keepLast, count) stay; and a tag that stays was pushed after every tag that goes, or at the same instant with
   * the greater name.
   */
  ghost predicate KeepsTheNewest(times: map<Tag, int>, kept: set<Tag>, keepLast: nat) {
    && kept <= times.Keys && ("latest" in kept <==> "latest" in times)
    && |kept - {"latest"}| == (if keepLast <= |times.Keys - {"latest"}| then keepLast else |times.Keys - {"latest"}|)
    && forall a, b :: a in kept && a != "latest" && b in times && b !in kept ==>
         times[a] > times[b] || (times[a] == times[b] && Less(b, a))
  }

  /** Some tag other than "latest" is older than all the others. */
  lemma {:induction false} OldestTag(times: map<Tag, int>, tags: set<Tag>) returns (t: Tag)
    requires tags <= times.Keys && tags != {}
    ensures t in tags && forall u :: u in tags && u != t ==> Newer(TagInfo(u, times[u]), TagInfo(t, times[t]))
    decreases tags
  {
    t :| t in tags;
    if tags != {t} {
      assert tags - {t} != {};
      var u := OldestTag(times, tags - {t});
      NewerIsComparator();
      NewerIsTotal(TagInfo(u, times[u]), TagInfo(t, times[t]));
      if Newer(TagInfo(t, times[t]), TagInfo(u, times[u])) {
        t := u;
      }
    }
  }

  lemma OldestIsLast(times: map<Tag, int>, oldest: Tag, keepLast: nat)
    requires oldest in times && oldest != LATEST
    requires forall u :: u in times && u != LATEST && u != oldest ==>
            Newer(TagInfo(u, times[u]), TagInfo(oldest, times[oldest]))
    ensures |NewerTags(times, oldest)| == |times.Keys - {LATEST}| - 1
    ensures forall t :: t in times && t != LATEST && t != oldest ==>
              NewerTags(times - {oldest}, t) == NewerTags(times, t)
  {
    NewerIsComparator();
    assert NewerTags(times, oldest) == times.Keys - {LATEST} - {oldest};
    forall t | t in times && t != LATEST && t != oldest
      ensures NewerTags(times - {oldest}, t) == NewerTags(times, t)
    {
      assert !Newer(TagInfo(oldest, times[oldest]), TagInfo(t, times[t]));
    }
  }

  lemma OldestDecides(times: map<Tag, int>, oldest: Tag, keepLast: nat)
    requires oldest in times && oldest != LATEST
    requires |NewerTags(times, oldest)| == |times.Keys - {LATEST}| - 1
    requires forall t :: t in times && t != LATEST && t != oldest ==>
            NewerTags(times - {oldest}, t) == NewerTags(times, t)
    ensures KeptTags(times, keepLast) - {LATEST}
         == var rest := KeptTags(times - {oldest}, keepLast) - {LATEST};
            if |times.Keys - {LATEST}| <= keepLast then rest + {oldest} else rest
    ensures oldest !in KeptTags(times - {oldest}, keepLast)
  {
    hide NewerTags;
  }

  function AtMost(n: nat, limit: nat): nat {
    if limit <= n then limit else n
  }

  lemma CountStep<T>(others: set<T>, oldest: T, keptRest: set<T>, kept: set<T>, keepLast: nat)
    requires oldest in others && oldest !in keptRest
    requires |keptRest| == AtMost(|others - {oldest}|, keepLast)
    requires kept == if |others| <= keepLast then keptRest + {oldest} else keptRest
    ensures |kept| == AtMost(|others|, keepLast)
  {
    assert others == (others - {oldest}) + {oldest};
  }

  /** Exactly min(keepLast, count) tags have fewer than `keepLast` newer ones. */
  lemma {:induction false} KeptCount(times: map<Tag, int>, keepLast: nat)
    ensures |KeptTags(times, keepLast) - {LATEST}| == AtMost(|times.Keys - {LATEST}|, keepLast)
    decreases times.Keys
  {
    if times.Keys - {LATEST} == {} {
      assert KeptTags(times, keepLast) - {LATEST} == {};
    } else {
      hide *;
      var oldest := OldestTag(times, times.Keys - {LATEST});
      KeptCount(times - {oldest}, keepLast);
      OldestIsLast(times, oldest, keepLast);
      OldestDecides(times, oldest, keepLast);
      assert (times - {oldest}).Keys - {LATEST} == times.Keys - {LATEST} - {oldest};
      CountStep(times.Keys - {LATEST}, oldest, KeptTags(times - {oldest}, keepLast) - {LATEST},
                KeptTags(times, keepLast) - {LATEST}, keepLast);
    }
  }

  lemma KeptAreTags(times: map<Tag, int>, keepLast: nat)
    ensures KeptTags(times, keepLast) <= times.Keys
    ensures "latest" in KeptTags(times, keepLast) <==> "latest" in times
  {
    hide NewerTags;
  }

  lemma KeptByTime(times: map<Tag, int>, keepLast: nat)
    ensures KeepsTheNewest(times, KeptTags(times, keepLast), keepLast)
  {
    KeptCount(times, keepLast);
    KeptAreTags(times, keepLast);
    hide KeptTags, NewerTags, Newer, Less;
    forall a, b | a in KeptTags(times, keepLast) && a != "latest" && b in times && b !in KeptTags(times, keepLast)
      ensures times[a] > times[b] || (times[a] == times[b] && Less(b, a))
    {
      KeptAreNewest(times, keepLast, a, b);
    }
  }

  /** `buildKeptTagSet` over the loaded list. */
  method BuildKeptTagSet(infos: seq<TagInfo>, ghost times: map<Tag, int>, keepLast: nat) returns (kept: set<Tag>)
    requires Listing(infos, times)
    ensures KeepsTheNewest(times, kept, keepLast)
    ensures kept == KeptTags(times, keepLast)
  {
    hide *;
    NamesAreListed(infos, times, |infos|);
    ScanStart(infos, keepLast);
    kept := {};
    var hasLatest := ContainsTag(infos, LATEST);
    if hasLatest {
      kept := {LATEST};
    }
    var count, n := 0, 0;
    while n < |infos|
      invariant n <= |infos| && ScanState(infos, n, kept, count, keepLast)
      invariant LATEST in kept <==> LATEST in times
    {
      NameBefore(infos, times, n, n);
      ScanStep(infos, n, kept, count, keepLast);
      if infos[n].name != LATEST {
        if count >= keepLast {
          assert count == keepLast by { ScanWithin(infos, n, kept, count, keepLast); }
          break;
        }
        kept := kept + {infos[n].name};
        count := count + 1;
      }
      n := n + 1;
    }
    ScanResult(infos, times, n, kept, count, keepLast);
    KeptByTime(times, keepLast);
  }

  /** Retention is idempotent: what survives one selection survives the next, whatever subset of it remains. */
  lemma KeptStaysKept(times: map<Tag, int>, rest: map<Tag, int>, keepLast: nat)
    requires rest.Keys <= KeptTags(times, keepLast)
    requires forall t :: t in rest ==> rest[t] == times[t]
    ensures KeptTags(rest, keepLast) == rest.Keys
  {
    forall t | t in rest && t != LATEST ensures |NewerTags(rest, t)| < keepLast {
      SubsetIsNoLarger(NewerTags(rest, t), NewerTags(times, t));
    }
  }
}
