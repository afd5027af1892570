/** Host names, certificate names, and the targets derived from routes (domain/public_tls.go, publictls/targets.go). */
module Certificates {
  import opened Options
  import opened Text
  import opened Sorting

  predicate IsHostChar(c: char) {
    'a' <= c <= 'z' || 'A' <= c <= 'Z' || '0' <= c <= '9' || c == '.' || c == '-'
  }

  /** `strings.Split(s, ".")`. */
  function Labels(s: string): (labels: seq<string>)
    ensures |labels| > 0
  {
    var dot := IndexOf(s, '.');
    if dot == |s| then [s] else [s[..dot]] + Labels(s[dot + 1..])
  }

  predicate LabelValid(part: string) {
    0 < |part| <= 63 && part[0] != '-' && part[|part| - 1] != '-'
  }

  function DecimalValue(s: string): nat
    requires forall i :: 0 <= i < |s| ==> '0' <= s[i] <= '9'
  {
    if s == "" then 0 else 10 * DecimalValue(s[..|s| - 1]) + (s[|s| - 1] as int - '0' as int)
  }

  predicate IsOctet(s: string) {
    && 0 < |s| <= 3
    && (forall i :: 0 <= i < |s| ==> '0' <= s[i] <= '9')
    && (|s| > 1 ==> s[0] != '0')
    && DecimalValue(s) <= 255
  }

  /** The only address literals made of host characters are dotted IPv4 ones. */
  predicate IsAddressLiteral(s: string) {
    var labels := Labels(s);
    |labels| == 4 && forall l :: l in labels ==> IsOctet(l)
  }

  predicate IsValidRouteDomain(d: string) {
    && d != ""
    && (forall i :: 0 <= i < |d| ==> IsHostChar(d[i]))
    && d[0] != '.' && d[|d| - 1] != '.'
    && (forall i :: 0 <= i < |d| - 1 ==> !(d[i] == '.' && d[i + 1] == '.'))
    && |d| <= 253
    && '.' in d
    && !IsAddressLiteral(d)
    && !HasSuffix(ToLower(d), ".local") && !HasSuffix(ToLower(d), ".internal")
    && !HasPrefix(ToLower(d), "localhost.") && !HasSuffix(ToLower(d), ".localhost")
    && forall l :: l in Labels(d) ==> LabelValid(l)
  }

  function Join(labels: seq<string>): string
    requires |labels| > 0
  {
    if |labels| == 1 then labels[0] else labels[0] + ("." + Join(labels[1..]))
  }

  /** The first label and the rest, when there is a dot. */
  lemma LabelsStep(s: string) returns (front: string, rest: string)
    requires '.' in s
    ensures '.' !in front && s == front + ("." + rest) && Labels(s) == [front] + Labels(rest) && |rest| < |s|
  {
    var dot := IndexOf(s, '.');
    assert dot < |s| by { assert s[..|s|] == s; }
    front, rest := s[..dot], s[dot + 1..];
    assert s[dot..] == "." + rest;
  }

  lemma OneLabel(s: string)
    requires '.' !in s
    ensures Labels(s) == [s]
  {
  }

  /** Splitting at the dots is undone by joining with dots. */
  lemma {:induction false} LabelsJoin(s: string)
    ensures Join(Labels(s)) == s
    ensures forall l :: l in Labels(s) ==> '.' !in l
    ensures |Labels(s)| > 1 <==> '.' in s
    decreases |s|
  {
    hide Labels;
    if '.' in s {
      var front, rest := LabelsStep(s);
      LabelsJoin(rest);
    } else {
      OneLabel(s);
    }
  }

  /** Without an empty label there is no dot at either end and no two dots in a row. */
  lemma {:induction false} NoEmptyLabel(s: string)
    requires forall l :: l in Labels(s) ==> l != ""
    ensures s != "" && s[0] != '.' && s[|s| - 1] != '.'
    ensures forall i :: 0 <= i < |s| - 1 ==> !(s[i] == '.' && s[i + 1] == '.')
    decreases |s|
  {
    hide Labels;
    if '.' in s {
      var front, rest := LabelsStep(s);
      assert front in Labels(s) && forall l :: l in Labels(rest) ==> l in Labels(s);
      NoEmptyLabel(rest);
      forall i | 0 <= i < |s| - 1 ensures !(s[i] == '.' && s[i + 1] == '.') {
        if i < |front| { assert s[i] == front[i]; } else if i > |front| { assert s[i] == rest[i - |front| - 1]; }
      }
      assert s[|s| - 1] == rest[|rest| - 1] && s[0] == front[0];
    } else {
      OneLabel(s);
      assert s in Labels(s);
    }
  }

  lemma {:induction false} LastLabelIsTail(s: string)
    requires '.' in s
    ensures var last := Labels(s)[|Labels(s)| - 1];
            |last| < |s| && s[|s| - |last| - 1] == '.' && s[|s| - |last|..] == last && '.' !in last
    decreases |s|
  {
    hide Labels;
    var front, rest := LabelsStep(s);
    if '.' in rest {
      LastLabelIsTail(rest);
    } else {
      OneLabel(rest);
    }
  }

  lemma TailAfterDot(s: string, n: nat, w: string)
    requires 0 < n <= |s| && s[n - 1] == '.' && '.' !in s[n..] && '.' !in w
    ensures HasSuffix(s, "." + w) <==> s[n..] == w
  {
    var tail := "." + w;
    forall i | n <= i < |s| ensures s[i] != '.' { assert s[i] == s[n..][i - n]; }
    if HasSuffix(s, tail) {
      var k := |s| - |tail|;
      assert s[k] == tail[0];
      forall i | k < i < |s| ensures s[i] != '.' { assert s[i] == tail[i - k] == w[i - k - 1]; }
      assert k == n - 1 && s[n..] == tail[1..];
    }
    if s[n..] == w { assert s[n - 1..] == tail; }
  }

  lemma HeadBeforeDot(s: string, n: nat, w: string)
    requires n < |s| && s[n] == '.' && '.' !in s[..n] && '.' !in w
    ensures HasPrefix(s, w + ".") <==> s[..n] == w
  {
    var head := w + ".";
    forall i | 0 <= i < n ensures s[i] != '.' { assert s[i] == s[..n][i]; }
    if HasPrefix(s, head) {
      assert s[|w|] == head[|w|];
      forall i | 0 <= i < |w| ensures s[i] != '.' { assert s[i] == head[i] == w[i]; }
      assert |w| == n && s[..n] == head[..n] == w;
    }
    if s[..n] == w { assert s[..n + 1] == head; }
  }

  lemma DotsStay(s: string, from: nat, to: nat)
    requires from <= to <= |s|
    ensures |ToLower(s)| == |s| && ToLower(s)[from..to] == ToLower(s[from..to])
    ensures '.' in ToLower(s)[from..to] <==> '.' in s[from..to]
  {
    assert forall i :: 0 <= i < |s| ==> (ToLower(s)[i] == '.' <==> s[i] == '.');
    forall i | from <= i < to
      ensures ToLower(s)[from..to][i - from] == ToLower(s)[i] && s[from..to][i - from] == s[i]
    {
    }
  }

  /** A suffix of one label, dot included, is there exactly when the last label is that one. */
  lemma EndsInLabel(s: string, w: string)
    requires '.' in s && '.' !in w
    ensures HasSuffix(ToLower(s), "." + w) <==> ToLower(Labels(s)[|Labels(s)| - 1]) == w
  {
    hide Labels, HasSuffix, ToLower;
    LastLabelIsTail(s);
    var last := Labels(s)[|Labels(s)| - 1];
    var n := |s| - |last|;
    DotsStay(s, n, |s|);
    assert ToLower(s)[n..|s|] == ToLower(s)[n..] && s[n..|s|] == last;
    DotStays(s, n - 1);
    TailAfterDot(ToLower(s), n, w);
  }

  lemma DotStays(s: string, i: nat)
    requires i < |s| && s[i] == '.'
    ensures |ToLower(s)| == |s| && ToLower(s)[i] == '.'
  {
  }

  lemma StartsWithLabel(s: string, w: string)
    requires '.' in s && '.' !in w
    ensures HasPrefix(ToLower(s), w + ".") <==> ToLower(Labels(s)[0]) == w
  {
    var dot := IndexOf(s, '.');
    assert dot < |s| by { assert s[..|s|] == s; }
    assert Labels(s)[0] == s[..dot] && s[..dot] == s[0..dot];
    DotsStay(s, 0, dot);
    assert ToLower(s)[dot] == '.';
    hide Labels;
    assert ToLower(s)[0..dot] == ToLower(s)[..dot];
    HeadBeforeDot(ToLower(s), dot, w);
  }

  /** Decimal numbers up to 255, without leading zeros. */
  lemma OctetForm(s: string)
    ensures IsOctet(s) <==>
              && 1 <= |s| <= 3 && (forall c :: c in s ==> '0' <= c <= '9') && (|s| > 1 ==> s[0] != '0')
              && (|s| == 3 ==> s[0] == '1' || (s[0] == '2' && (s[1] < '5' || (s[1] == '5' && s[2] <= '5'))))
  {
    assert forall i :: 0 <= i < |s| ==> s[i] in s;
    if 1 <= |s| <= 3 && forall i :: 0 <= i < |s| ==> '0' <= s[i] <= '9' {
      ValueByDigits(s);
      hide DecimalValue;
    }
  }

  lemma ValueByDigits(s: string)
    requires 1 <= |s| <= 3 && forall i :: 0 <= i < |s| ==> '0' <= s[i] <= '9'
    ensures |s| == 1 ==> DecimalValue(s) == s[0] as int - '0' as int
    ensures |s| == 2 ==> DecimalValue(s) == 10 * (s[0] as int - '0' as int) + (s[1] as int - '0' as int)
    ensures |s| == 3 ==>
              DecimalValue(s) == 100 * (s[0] as int - '0' as int) + 10 * (s[1] as int - '0' as int)
                                 + (s[2] as int - '0' as int)
  {
    if |s| == 1 { assert s[..0] == ""; } else { ValueByDigits(s[..|s| - 1]); }
  }

  /** Letters, digits and inner hyphens, 63 at most. */
  ghost predicate IsLabel(l: string) {
    && 1 <= |l| <= 63 && l[0] != '-' && l[|l| - 1] != '-'
    && forall c :: c in l ==> 'a' <= c <= 'z' || 'A' <= c <= 'Z' || '0' <= c <= '9' || c == '-'
  }

  lemma LabelsAreValidIff(d: string)
    ensures (forall l :: l in Labels(d) ==> IsLabel(l)) <==>
              (forall l :: l in Labels(d) ==> LabelValid(l)) && forall i :: 0 <= i < |d| ==> IsHostChar(d[i])
  {
    hide Labels, IsLabel, LabelValid, HostChars;
    LabelsJoin(d);
    forall l | l in Labels(d) ensures IsLabel(l) <==> LabelValid(l) && HostChars(l) { LabelIff(l); }
    CharsOfLabels(d);
    assert HostChars(d) <==> forall i :: 0 <= i < |d| ==> IsHostChar(d[i]) by { HostCharsMeans(d); }
  }

  ghost predicate HostChars(s: string) {
    forall i :: 0 <= i < |s| ==> IsHostChar(s[i])
  }

  lemma HostCharsMeans(s: string)
    ensures HostChars(s) <==> forall i :: 0 <= i < |s| ==> IsHostChar(s[i])
  {
  }

  lemma LabelIff(l: string)
    requires '.' !in l
    ensures IsLabel(l) <==> LabelValid(l) && HostChars(l)
  {
    assert forall i :: 0 <= i < |l| ==> l[i] in l && l[i] != '.';
  }

  lemma HostCharsSplit(front: string, rest: string)
    ensures HostChars(front + ("." + rest)) <==> HostChars(front) && HostChars(rest)
  {
    var s := front + ("." + rest);
    assert forall i :: 0 <= i < |front| ==> s[i] == front[i];
    assert forall i :: 0 <= i < |rest| ==> s[|front| + 1 + i] == rest[i];
  }

  lemma {:induction false} CharsOfLabels(s: string)
    ensures (forall l :: l in Labels(s) ==> HostChars(l)) <==> HostChars(s)
    decreases |s|
  {
    hide Labels, HostChars;
    if '.' in s {
      var front, rest := LabelsStep(s);
      CharsOfLabels(rest);
      HostCharsSplit(front, rest);
      assert forall l :: l in [front] + Labels(rest) <==> l == front || l in Labels(rest);
    } else {
      OneLabel(s);
    }
  }

  /** What a route domain is, label by label. */
  lemma RouteDomainByLabels(d: string)
    ensures var labels := Labels(d);
            IsValidRouteDomain(d) <==>
              && |d| <= 253 && |labels| >= 2
              && (forall l :: l in labels ==> IsLabel(l))
              && !(|labels| == 4 && forall l :: l in labels ==> IsOctet(l))
              && ToLower(labels[0]) != "localhost"
              && ToLower(labels[|labels| - 1]) !in {"local", "internal", "localhost"}
  {
    hide Labels, ToLower, IsOctet, HasSuffix, HasPrefix, IsLabel, IsHostChar;
    LabelsJoin(d);
    LabelsAreValidIff(d);
    if forall l :: l in Labels(d) ==> LabelValid(l) { NoEmptyLabel(d); }
    if '.' in d {
      EndsInLabel(d, "local");
      EndsInLabel(d, "internal");
      EndsInLabel(d, "localhost");
      StartsWithLabel(d, "localhost");
      assert "." + "local" == ".local" && "." + "internal" == ".internal" && "." + "localhost" == ".localhost"
          && "localhost" + "." == "localhost.";
    }
    hide LabelValid;
  }

  function CanonicalRouteDomain(raw: string): Option<string> {
    var canonical := ToLower(TrimSpace(raw));
    if IsValidRouteDomain(canonical) then Some(canonical) else None
  }

  /** The hosts `routeHosts` yields: valid route domains in lower case. */
  predicate IsCanonical(host: string) {
    IsValidRouteDomain(host) && forall i :: 0 <= i < |host| ==> !('A' <= host[i] <= 'Z')
  }

  /** Names that normalisation leaves alone. */
  predicate IsPlain(name: string) {
    && name != "" && name[|name| - 1] != '.'
    && forall i :: 0 <= i < |name| ==> (IsHostChar(name[i]) && !('A' <= name[i] <= 'Z')) || name[i] == '*'
  }

  lemma TrimmedByEnds(s: string)
    requires s != "" && !IsSpace(s[0]) && !IsSpace(s[|s| - 1])
    ensures TrimSpace(s) == s
  {
    assert TrimLeft(s) == s;
  }

  lemma PlainIsNormal(name: string)
    requires IsPlain(name)
    ensures NormalizeHost(name) == name
  {
    TrimmedByEnds(name);
    LowerStays(name);
    assert !HasSuffix(name, ".");
  }

  lemma CanonicalComesOut(raw: string)
    requires CanonicalRouteDomain(raw).Some?
    ensures IsCanonical(CanonicalRouteDomain(raw).value)
  {
  }

  /** Blanks around a route domain and capitals in it do not matter. */
  lemma BlanksAndCapitalsDoNotMatter(front: string, raw: string, back: string, host: string)
    requires forall c :: c in front || c in back ==> c in " \t\r\n"
    requires IsCanonical(host) && |raw| == |host|
    requires forall i :: 0 <= i < |host| ==>
               raw[i] == host[i] || ('a' <= host[i] <= 'z' && raw[i] == (host[i] as int - 32) as char)
    ensures CanonicalRouteDomain(front + raw + back) == Some(host)
  {
    hide IsValidRouteDomain, TrimSpace;
    LowersToHost(host, raw);
    TrimSpaceTakesBlanks(front, raw, back);
  }

  lemma LowersToHost(host: string, raw: string)
    requires IsCanonical(host) && |raw| == |host|
    requires forall i :: 0 <= i < |host| ==>
               raw[i] == host[i] || ('a' <= host[i] <= 'z' && raw[i] == (host[i] as int - 32) as char)
    ensures raw != "" && '!' <= raw[0] <= '~' && '!' <= raw[|raw| - 1] <= '~' && ToLower(raw) == host
  {
    hide Labels, LabelValid, IsAddressLiteral, HasSuffix, HasPrefix;
    forall i | 0 <= i < |host| ensures LowerChar(raw[i]) == host[i] { assert IsHostChar(host[i]); }
  }

  /** One certificate name covers a normalised host: exactly, or with a wildcard in place of its left-most part. */
  predicate NameCovers(name: string, host: string) {
    || name == host
    || (HasPrefix(name, "*.")
        && var suffix := AfterPrefix(name, "*.");
           HasSuffix(host, "." + suffix)
           && var left := TrimSuffix(host, "." + suffix); left != "" && '.' !in left)
  }

  /** The name is the host, or a star in place of the host's first label. */
  ghost predicate NamesHost(name: string, host: string) {
    || name == host
    || exists first: string, base: string ::
         first != "" && '.' !in first && host == first + ("." + base) && name == "*." + base
  }

  lemma CoversIffNames(name: string, host: string)
    ensures NameCovers(name, host) <==> NamesHost(name, host)
  {
    if name != host && NameCovers(name, host) {
      var base := AfterPrefix(name, "*.");
      var first := TrimSuffix(host, "." + base);
      assert host == first + ("." + base) && name == "*." + base;
    }
    forall first: string, base: string |
      first != "" && '.' !in first && host == first + ("." + base) && name == "*." + base
      ensures NameCovers(name, host)
    {
      AppendHasSuffix(first, "." + base);
      assert name[..2] == "*." && AfterPrefix(name, "*.") == base;
    }
  }

  /** `CertificateNamesCoverHost`. */
  predicate NamesCoverHost(names: seq<string>, host: string) {
    && NormalizeHost(host) != ""
    && exists i :: 0 <= i < |names| && NameCovers(NormalizeHost(names[i]), NormalizeHost(host))
  }

  /** `wildcardBase`. */
  function WildcardBase(host: string, zone: string): Option<string> {
    var h, z := NormalizeHost(host), NormalizeHost(zone);
    if h == "" || z == "" then None
    else if h == z then Some(z)
    else if !HasSuffix(h, "." + z) then None
    else
      var trimmed := TrimSuffix(h, "." + z);
      var dot := IndexOf(trimmed, '.');
      if dot == |trimmed| then Some(z) else Some(trimmed[dot + 1..] + "." + z)
  }

  /** Below its zone a host shares the certificate of the name without its first label; the zone is its own base. */
  lemma BaseLacksOneLabel(first: string, base: string, zone: string)
    requires first != "" && '.' !in first
    requires NormalizeHost(first + ("." + base)) == first + ("." + base) && NormalizeHost(zone) == zone != ""
    requires base == zone || HasSuffix(base, "." + zone)
    ensures WildcardBase(first + ("." + base), zone) == Some(base)
    ensures WildcardBase(zone, zone) == Some(zone)
  {
    var host, tail := first + ("." + base), "." + zone;
    hide NormalizeHost;
    if base == zone {
      AppendHasSuffix(first, tail);
      NoDot(first);
    } else {
      var parent := base[..|base| - |tail|];
      var trimmed := first + ("." + parent);
      assert base == parent + tail && host == trimmed + tail;
      AppendHasSuffix(trimmed, tail);
      FirstDot(first, parent);
      assert trimmed[|first| + 1..] + "." + zone == base;
      assert host != zone;
    }
  }

  lemma NoDot(part: string)
    requires '.' !in part
    ensures IndexOf(part, '.') == |part|
  {
  }

  lemma {:induction false} FirstDot(front: string, back: string)
    requires '.' !in front
    ensures IndexOf(front + ("." + back), '.') == |front|
    ensures (front + ("." + back))[|front| + 1..] == back
  {
    if front == "" {
      assert front + ("." + back) == "." + back;
    } else {
      FirstDot(front[1..], back);
      assert (front + ("." + back))[1..] == front[1..] + ("." + back);
    }
  }

  /** The zone a resolver returned encloses the host. */
  predicate Encloses(zone: string, host: string) {
    var z := NormalizeHost(zone);
    z != "" && (host == z || HasSuffix(host, "." + z))
  }

  function BaseNames(base: string): seq<string> { [base, "*." + base] }

  lemma EnclosesIff(zone: string, host: string)
    requires NormalizeHost(zone) == zone
    ensures Encloses(zone, host) <==>
              zone != "" && (host == zone || exists front: string :: host == front + ("." + zone))
  {
    hide NormalizeHost;
    if HasSuffix(host, "." + zone) {
      assert host == host[..|host| - |"." + zone|] + ("." + zone);
    }
    forall front: string | host == front + ("." + zone) ensures HasSuffix(host, "." + zone) {
      AppendHasSuffix(front, "." + zone);
    }
  }

  /** A zone that is neither the host nor a domain above it gives no base. */
  lemma NoBaseOutsideTheZone(host: string, zone: string)
    requires NormalizeHost(host) == host && NormalizeHost(zone) == zone
    ensures WildcardBase(host, zone).Some? <==>
              zone != "" && host != "" && (host == zone || exists front: string :: host == front + ("." + zone))
  {
    hide NormalizeHost;
    EnclosesIff(zone, host);
  }

  /** What the coverage argument needs of a canonical host. */
  predicate IsPlainHost(host: string) {
    IsPlain(host) && host[0] != '.'
  }

  lemma CanonicalIsPlainHost(host: string)
    requires IsCanonical(host)
    ensures IsPlainHost(host)
  {
  }

  /** `base` is the host itself or the host without its left-most part. */
  ghost predicate IsBaseOf(base: string, host: string) {
    host == base || exists part :: part != "" && '.' !in part && host == part + "." + base
  }

  lemma SplitHost(host: string, z: string)
    requires IsPlainHost(host) && HasSuffix(host, "." + z)
    ensures var trimmed := TrimSuffix(host, "." + z);
            var dot := IndexOf(trimmed, '.');
            IsBaseOf(if dot == |trimmed| then z else trimmed[dot + 1..] + "." + z, host)
  {
    var trimmed := TrimSuffix(host, "." + z);
    assert host == trimmed + ("." + z) == trimmed + "." + z;
    var dot := IndexOf(trimmed, '.');
    var part := trimmed[..dot];
    assert part != "" && '.' !in part by { assert host[0] != '.'; }
    if dot < |trimmed| {
      assert host == part + "." + (trimmed[dot + 1..] + "." + z);
    } else {
      assert host == part + "." + z;
    }
  }

  lemma BaseIsBase(host: string, zone: string)
    requires IsPlainHost(host) && Encloses(zone, host)
    ensures WildcardBase(host, zone).Some? && IsBaseOf(WildcardBase(host, zone).value, host)
  {
    PlainIsNormal(host);
    var z := NormalizeHost(zone);
    hide NormalizeHost, IsPlainHost;
    if host != z { SplitHost(host, z); }
  }

  lemma BaseIsPlain(host: string, base: string)
    requires IsPlainHost(host) && IsBaseOf(base, host)
    ensures IsPlain(base) && IsPlain("*." + base)
  {
    if host != base {
      var part :| part != "" && '.' !in part && host == part + "." + base;
      TailIsPlain(part, base);
    }
    WildcardIsPlain(base);
  }

  lemma TailIsPlain(part: string, base: string)
    requires IsPlain(part + "." + base)
    ensures IsPlain(base)
  {
    var name := part + "." + base;
    assert base != "" by { assert name[|name| - 1] != '.'; }
    assert forall i :: 0 <= i < |base| ==> base[i] == name[|part| + 1 + i];
  }

  lemma WildcardIsPlain(base: string)
    requires IsPlain(base)
    ensures IsPlain("*." + base)
  {
    var name := "*." + base;
    assert forall i :: 2 <= i < |name| ==> name[i] == base[i - 2];
  }

  lemma WildcardCoversPart(part: string, base: string)
    requires part != "" && '.' !in part
    ensures NameCovers("*." + base, part + "." + base)
  {
    assert part + "." + base == part + ("." + base);
    AppendHasSuffix(part, "." + base);
    assert AfterPrefix("*." + base, "*.") == base;
  }

  lemma BaseNamesCover(host: string, base: string)
    requires IsPlainHost(host) && IsBaseOf(base, host)
    ensures NamesCoverHost(BaseNames(base), host)
  {
    BaseIsPlain(host, base);
    PlainIsNormal(host);
    PlainIsNormal(base);
    PlainIsNormal("*." + base);
    hide NormalizeHost, IsPlain;
    assert host != "" by { assert IsPlainHost(host); }
    if host == base {
      assert NameCovers(NormalizeHost(BaseNames(base)[0]), host);
    } else {
      var part :| part != "" && '.' !in part && host == part + "." + base;
      WildcardCoversPart(part, base);
      assert NameCovers(NormalizeHost(BaseNames(base)[1]), host);
    }
  }

  /** A DNS-01 target covers every host that resolves to its base. */
  lemma BaseCoversHost(host: string, zone: string)
    requires IsCanonical(host) && Encloses(zone, host)
    ensures WildcardBase(host, zone).Some?
    ensures var base := WildcardBase(host, zone).value;
            IsPlain(base) && IsPlain("*." + base) && NamesCoverHost(BaseNames(base), host)
  {
    CanonicalIsPlainHost(host);
    BaseIsBase(host, zone);
    BaseIsPlain(host, WildcardBase(host, zone).value);
    BaseNamesCover(host, WildcardBase(host, zone).value);
  }

  datatype Challenge = HTTP01 | DNS01

  datatype Target = Target(id: string, names: seq<string>, challenge: Challenge)

  function HTTPTarget(host: string): Target { Target("http01-" + host, [host], HTTP01) }

  function DNSTarget(base: string): Target { Target("dns01-" + base, BaseNames(base), DNS01) }

  lemma LessIsComparator()
    ensures Comparator(Less)
  {
    forall x: string ensures !Less(x, x) { LessIrreflexive(x); }
    forall x: string, y: string, z: string | Less(x, y) && Less(y, z) ensures Less(x, z) { LessTransitive(x, y, z); }
  }

  /** `hosts` holds the canonical forms of the raw hosts, each once. */
  ghost predicate Collects(hosts: seq<string>, raws: set<string>) {
    && Distinct(hosts)
    && forall h :: h in hosts <==> exists raw :: raw in raws && CanonicalRouteDomain(TrimSuffix(raw, ".")) == Some(h)
  }

  /** The closure `addHost`. */
  method AddHost(hosts: seq<string>, raw: string, ghost raws: set<string>) returns (hosts': seq<string>)
    requires Collects(hosts, raws)
    ensures Collects(hosts', raws + {raw})
  {
    hide CanonicalRouteDomain;
    var canonical := CanonicalRouteDomain(TrimSuffix(raw, "."));
    hosts' := hosts;
    if canonical.Some? && canonical.value !in hosts {
      hosts' := hosts + [canonical.value];
    }
  }

  function Elements(list: seq<string>): set<string> {
    set r | r in list
  }

  method AddHosts(hosts: seq<string>, list: seq<string>, ghost raws: set<string>) returns (hosts': seq<string>)
    requires Collects(hosts, raws)
    ensures Collects(hosts', raws + Elements(list))
  {
    hide Collects;
    hosts' := hosts;
    assert raws + Elements(list[..0]) == raws;
    for i := 0 to |list|
      invariant Collects(hosts', raws + Elements(list[..i]))
    {
      hosts' := AddHost(hosts', list[i], raws + Elements(list[..i]));
      assert list[..i + 1] == list[..i] + [list[i]];
      assert raws + Elements(list[..i + 1]) == raws + Elements(list[..i]) + {list[i]};
    }
    assert list[..|list|] == list;
  }

  /** Every raw host name the routes, the external routes and the additional hosts mention. */
  function RawHosts(routes: seq<string>, external: set<string>, additional: seq<string>): set<string> {
    Elements(routes) + external + Elements(additional)
  }

  /** `routeHosts`: the canonical hosts, each once, in sorted order. */
  method RouteHosts(routes: seq<string>, external: set<string>, additional: seq<string>) returns (hosts: seq<string>)
    ensures Collects(hosts, RawHosts(routes, external, additional)) && Sorted(hosts, Less)
    ensures forall h :: h in hosts ==> IsCanonical(h)
  {
    hosts := AddHosts([], routes, {});
    var todo := external;
    ghost var raws := {} + Elements(routes);
    while todo != {}
      invariant todo <= external
      invariant Collects(hosts, raws + (external - todo))
    {
      var raw :| raw in todo;
      hosts := AddHost(hosts, raw, raws + (external - todo));
      assert raws + (external - (todo - {raw})) == raws + (external - todo) + {raw};
      todo := todo - {raw};
    }
    assert external - {} == external;
    hosts := AddHosts(hosts, additional, raws + external);
    assert raws + external + Elements(additional) == RawHosts(routes, external, additional);
    LessIsComparator();
    ghost var collected := hosts;
    hosts := SortSlice(hosts, Less);
    SortedHosts(collected, hosts, RawHosts(routes, external, additional));
  }

  lemma SortedHosts(collected: seq<string>, hosts: seq<string>, raws: set<string>)
    requires Collects(collected, raws) && multiset(hosts) == multiset(collected)
    ensures Collects(hosts, raws) && forall h :: h in hosts ==> IsCanonical(h)
  {
    PermutationKeepsDistinct(collected, hosts);
    forall h | h in hosts ensures IsCanonical(h) {
      var raw :| raw in raws && CanonicalRouteDomain(TrimSuffix(raw, ".")) == Some(h);
      CanonicalComesOut(TrimSuffix(raw, "."));
    }
  }

  ghost predicate CoveredByTargets(host: string, targets: seq<Target>) {
    exists t :: t in targets && NamesCoverHost(t.names, host)
  }

  ghost predicate PlainNames(targets: seq<Target>) {
    forall t, n :: t in targets && n in t.names ==> IsPlain(n)
  }

  method DeriveHTTP01Targets(hosts: seq<string>) returns (targets: seq<Target>)
    requires forall h :: h in hosts ==> IsCanonical(h)
    ensures |targets| == |hosts| && forall i :: 0 <= i < |hosts| ==> targets[i] == HTTPTarget(hosts[i])
    ensures forall i :: 0 <= i < |hosts| ==> targets[i] == Target("http01-" + hosts[i], [hosts[i]], HTTP01)
    ensures PlainNames(targets) && forall h :: h in hosts ==> CoveredByTargets(h, targets)
  {
    targets := [];
    for i := 0 to |hosts|
      invariant |targets| == i && forall j :: 0 <= j < i ==> targets[j] == HTTPTarget(hosts[j])
    {
      targets := targets + [HTTPTarget(hosts[i])];
    }
    HTTPTargetsCover(hosts, targets);
  }

  lemma HTTPTargetsCover(hosts: seq<string>, targets: seq<Target>)
    requires forall h :: h in hosts ==> IsCanonical(h)
    requires |targets| == |hosts| && forall i :: 0 <= i < |hosts| ==> targets[i] == HTTPTarget(hosts[i])
    ensures PlainNames(targets) && forall h :: h in hosts ==> CoveredByTargets(h, targets)
  {
    forall h | h in hosts ensures CoveredByTargets(h, targets) {
      var i :| 0 <= i < |hosts| && hosts[i] == h;
      PlainIsNormal(h);
      assert NameCovers(NormalizeHost([h][0]), NormalizeHost(h));
      assert targets[i] in targets;
    }
    forall t, n | t in targets && n in t.names ensures IsPlain(n) {
      var i :| 0 <= i < |targets| && targets[i] == t;
      assert hosts[i] in hosts;
    }
  }

  /** The base of one host under a resolver, or nothing when the zone is unknown or does not enclose the host. */
  function HostBase(host: string, findZone: string -> Option<string>): Option<string> {
    var zone := findZone(host);
    if zone.None? then None else WildcardBase(host, zone.value)
  }

  /** `bases` holds the bases of the hosts, each once. */
  ghost predicate BasesOf(bases: seq<string>, hosts: seq<string>, findZone: string -> Option<string>) {
    && Distinct(bases)
    && (forall h :: h in hosts ==> HostBase(h, findZone).Some?)
    && forall b :: b in bases <==> exists h :: h in hosts && HostBase(h, findZone) == Some(b)
  }

  lemma BasesGrow(bases: seq<string>, hosts: seq<string>, h: string, findZone: string -> Option<string>)
    requires BasesOf(bases, hosts, findZone) && HostBase(h, findZone).Some?
    ensures var base := HostBase(h, findZone).value;
            BasesOf(if base in bases then bases else bases + [base], hosts + [h], findZone)
  {
    hide HostBase;
    assert forall x :: x in hosts + [h] <==> x in hosts || x == h;
  }

  /**
   * `deriveDNS01Targets`: one target per distinct base, in sorted order; it fails exactly when some host has no base.
   */
  method DeriveDNS01Targets(hosts: seq<string>, findZone: string -> Option<string>)
    returns (ok: bool, targets: seq<Target>, ghost bases: seq<string>)
    ensures ok <==> forall h :: h in hosts ==> HostBase(h, findZone).Some?
    ensures ok ==> BasesOf(bases, hosts, findZone) && Sorted(bases, Less)
    ensures ok ==> |targets| == |bases| && forall i :: 0 <= i < |bases| ==> targets[i] == DNSTarget(bases[i])
    ensures ok ==> forall i :: 0 <= i < |bases| ==>
                     targets[i] == Target("dns01-" + bases[i], [bases[i], "*." + bases[i]], DNS01)
  {
    hide HostBase, BasesOf;
    targets, bases := [], [];
    var found: seq<string> := [];
    NoBases(findZone);
    for i := 0 to |hosts|
      invariant BasesOf(found, hosts[..i], findZone)
    {
      var base := HostBase(hosts[i], findZone);
      if base.None? {
        assert hosts[i] in hosts;
        return false, [], [];
      }
      BasesGrow(found, hosts[..i], hosts[i], findZone);
      assert hosts[..i + 1] == hosts[..i] + [hosts[i]];
      if base.value !in found {
        found := found + [base.value];
      }
    }
    assert hosts[..|hosts|] == hosts;
    LessIsComparator();
    var sorted := SortSlice(found, Less);
    BasesPermute(found, sorted, hosts, findZone);
    for i := 0 to |sorted|
      invariant |targets| == i && forall j :: 0 <= j < i ==> targets[j] == DNSTarget(sorted[j])
    {
      targets := targets + [DNSTarget(sorted[i])];
    }
    return true, targets, sorted;
  }

  lemma NoBases(findZone: string -> Option<string>)
    ensures BasesOf([], [], findZone)
  {
  }

  lemma BasesPermute(bases: seq<string>, sorted: seq<string>, hosts: seq<string>, findZone: string -> Option<string>)
    requires BasesOf(bases, hosts, findZone) && multiset(sorted) == multiset(bases)
    ensures BasesOf(sorted, hosts, findZone)
    ensures forall h :: h in hosts ==> HostBase(h, findZone).Some?
  {
    hide HostBase;
    PermutationKeepsDistinct(bases, sorted);
  }

  /** Every canonical host is covered by the derived targets when the resolver returns enclosing zones. */
  lemma DNSTargetsCover(hosts: seq<string>, findZone: string -> Option<string>, bases: seq<string>,
                        targets: seq<Target>)
    requires forall h :: h in hosts ==> IsCanonical(h) && findZone(h).Some? && Encloses(findZone(h).value, h)
    requires BasesOf(bases, hosts, findZone)
    requires |targets| == |bases| && forall i :: 0 <= i < |bases| ==> targets[i] == DNSTarget(bases[i])
    ensures forall h :: h in hosts ==> HostBase(h, findZone).Some? && CoveredByTargets(h, targets)
    ensures PlainNames(targets)
  {
    hide IsCanonical, Encloses, WildcardBase, NamesCoverHost, IsPlain;
    forall h | h in hosts ensures HostBase(h, findZone).Some? && CoveredByTargets(h, targets) {
      BaseCoversHost(h, findZone(h).value);
      BaseIsTargeted(hosts, findZone, bases, targets, h);
    }
    forall t, n | t in targets && n in t.names ensures IsPlain(n) {
      var i :| 0 <= i < |targets| && targets[i] == t;
      assert bases[i] in bases;
      var h :| h in hosts && HostBase(h, findZone) == Some(bases[i]);
      BaseCoversHost(h, findZone(h).value);
    }
  }

  lemma BaseIsTargeted(hosts: seq<string>, findZone: string -> Option<string>, bases: seq<string>, targets: seq<Target>,
                       h: string)
    requires h in hosts && BasesOf(bases, hosts, findZone)
    requires HostBase(h, findZone).Some? && NamesCoverHost(BaseNames(HostBase(h, findZone).value), h)
    requires |targets| == |bases| && forall i :: 0 <= i < |bases| ==> targets[i] == DNSTarget(bases[i])
    ensures CoveredByTargets(h, targets)
  {
    hide HostBase, NamesCoverHost;
    var base := HostBase(h, findZone).value;
    assert base in bases;
    var i :| 0 <= i < |bases| && bases[i] == base;
    assert targets[i] in targets;
  }
}
