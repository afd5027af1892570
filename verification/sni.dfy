/** Wildcard server names as the traffic graph matches them: `*.suffix` covers every longer name ending in `.suffix`. */
module ServerNames {
  import opened Text

  predicate IsWildcard(name: string) {
    HasPrefix(name, "*.")
  }

  function Suffix(wildcard: string): string
    requires IsWildcard(wildcard)
  {
    AfterPrefix(wildcard, "*.")
  }

  predicate HostMatchesWildcard(host: string, wildcard: string) {
    IsWildcard(wildcard) && host != Suffix(wildcard) && HasSuffix(host, "." + Suffix(wildcard))
  }

  predicate WildcardSNIOverlap(left: string, right: string) {
    && IsWildcard(left) && IsWildcard(right)
    && var l, r := Suffix(left), Suffix(right);
       l == r || HasSuffix(l, "." + r) || HasSuffix(r, "." + l)
  }

  /** The overlap test is exact: it holds for two wildcards precisely when some host matches both. */
  lemma OverlapIsExact(left: string, right: string)
    requires IsWildcard(left) && IsWildcard(right)
    ensures WildcardSNIOverlap(left, right) <==>
              exists host :: HostMatchesWildcard(host, left) && HostMatchesWildcard(host, right)
  {
    var l, r := Suffix(left), Suffix(right);
    if WildcardSNIOverlap(left, right) {
      if l == r {
        CommonHost(left, right);
      } else if HasSuffix(l, "." + r) {
        CommonHost(left, right);
      } else {
        CommonHost(right, left);
      }
    }
    forall host | HostMatchesWildcard(host, left) && HostMatchesWildcard(host, right)
      ensures WildcardSNIOverlap(left, right)
    {
      if |l| <= |r| { CommonSuffix(host, l, r); } else { CommonSuffix(host, r, l); }
    }
  }

  /** A label in front of the longer suffix is a host both wildcards match. */
  lemma CommonHost(longer: string, shorter: string)
    requires IsWildcard(longer) && IsWildcard(shorter)
    requires Suffix(longer) == Suffix(shorter) || HasSuffix(Suffix(longer), "." + Suffix(shorter))
    ensures exists host :: HostMatchesWildcard(host, longer) && HostMatchesWildcard(host, shorter)
  {
    var host := "x" + ("." + Suffix(longer));
    AppendHasSuffix("x", "." + Suffix(longer));
    AppendHasSuffix(".", Suffix(longer));
    SuffixTransitive(host, "." + Suffix(longer), Suffix(longer));
    if Suffix(longer) != Suffix(shorter) {
      SuffixTransitive(host, Suffix(longer), "." + Suffix(shorter));
    }
    assert HostMatchesWildcard(host, longer) && HostMatchesWildcard(host, shorter);
  }

  lemma CommonSuffix(host: string, short: string, long: string)
    requires HasSuffix(host, "." + short) && HasSuffix(host, "." + long) && |short| <= |long|
    ensures short == long || HasSuffix(long, "." + short)
  {
    SuffixesNest(host, "." + short, "." + long);
    if |short| == |long| {
      assert ("." + long)[1..] == long && ("." + short)[1..] == short;
    } else {
      assert long[|long| - |short| - 1..] == ("." + long)[|long| - |short|..];
    }
  }
}
