/** Strings as the Go `strings` package treats them, and the order Go's `<` gives them. */
module Text {

  predicate HasPrefix(s: string, prefix: string) {
    |prefix| <= |s| && s[..|prefix|] == prefix
  }

  predicate HasSuffix(s: string, suffix: string) {
    |suffix| <= |s| && s[|s| - |suffix|..] == suffix
  }

  function TrimSuffix(s: string, suffix: string): string {
    if HasSuffix(s, suffix) then s[..|s| - |suffix|] else s
  }

  /** The code points `unicode.IsSpace` accepts. */
  predicate IsSpace(c: char) {
    var n := c as int;
    || 0x09 <= n <= 0x0D || n == 0x20 || n == 0x85 || n == 0xA0 || n == 0x1680
    || 0x2000 <= n <= 0x200A || n == 0x2028 || n == 0x2029 || n == 0x202F || n == 0x205F || n == 0x3000
  }

  /** The ASCII ones are the blank and the five control characters from tab to carriage return. */
  lemma SpacesAre(c: char)
    ensures IsSpace(c) <==>
              || c in " \t\n\U{000B}\U{000C}\r"
              || c in "\U{0085}\U{00A0}\U{1680}\U{2028}\U{2029}\U{202F}\U{205F}\U{3000}"
              || '\U{2000}' <= c <= '\U{200A}'
  {
  }

  function TrimLeft(s: string): string {
    if s != [] && IsSpace(s[0]) then TrimLeft(s[1..]) else s
  }

  function TrimRight(s: string): string {
    if s != [] && IsSpace(s[|s| - 1]) then TrimRight(s[..|s| - 1]) else s
  }

  function TrimSpace(s: string): string {
    TrimRight(TrimLeft(s))
  }

  /**
   * `unicode.ToLower` on the letters it maps into ASCII: the capitals, the Kelvin sign and the dotted capital I. What
   * it does to other letters is left out; it never makes them ASCII.
   */
  function LowerChar(c: char): char {
    if 'A' <= c <= 'Z' then (c as int + 32) as char
    else if c as int == 0x212A then 'k'
    else if c as int == 0x130 then 'i'
    else c
  }

  function ToLower(s: string): string {
    seq(|s|, i requires 0 <= i < |s| => LowerChar(s[i]))
  }

  /** `strings.TrimSuffix(strings.ToLower(strings.TrimSpace(s)), ".")`, the host normal form used everywhere. */
  function NormalizeHost(s: string): string {
    TrimSuffix(ToLower(TrimSpace(s)), ".")
  }

  /** The remainder after `prefix`, as `strings.CutPrefix` returns it when it finds the prefix. */
  function AfterPrefix(s: string, prefix: string): string
    requires HasPrefix(s, prefix)
  {
    s[|prefix|..]
  }

  /** Position of the first occurrence of `c` in `s`, or `|s|` when there is none. */
  function IndexOf(s: string, c: char): (i: nat)
    ensures i <= |s| && c !in s[..i]
    ensures i < |s| ==> s[i] == c
  {
    if s == [] || s[0] == c then 0
    else
      var rest := IndexOf(s[1..], c);
      assert s[..rest + 1] == [s[0]] + s[1..][..rest];
      rest + 1
  }

  /** Go compares strings by bytes, which for UTF-8 is the order of the code points. */
  predicate Less(a: string, b: string) {
    b != [] && (a == [] || a[0] < b[0] || (a[0] == b[0] && Less(a[1..], b[1..])))
  }

  lemma {:induction false} LessIrreflexive(a: string)
    ensures !Less(a, a)
  {
    if a != [] { LessIrreflexive(a[1..]); }
  }

  lemma {:induction false} LessTransitive(a: string, b: string, c: string)
    requires Less(a, b) && Less(b, c)
    ensures Less(a, c)
  {
    if a != [] && a[0] == b[0] && b[0] == c[0] { LessTransitive(a[1..], b[1..], c[1..]); }
  }

  lemma {:induction false} LessTotal(a: string, b: string)
    ensures Less(a, b) || Less(b, a) || a == b
  {
    if a != [] && b != [] && a[0] == b[0] {
      LessTotal(a[1..], b[1..]);
      assert a == [a[0]] + a[1..] && b == [b[0]] + b[1..];
    }
  }

  lemma PrefixesShareTheFirst(a: string, b: string)
    ensures forall n :: 0 < n <= |a| && n <= |b| && a[..n] == b[..n] ==> a[0] == b[0]
  {
    forall n | 0 < n <= |a| && n <= |b| && a[..n] == b[..n] ensures a[0] == b[0] {
      assert a[..n][0] == b[..n][0];
    }
  }

  /** The order of strings: a proper prefix comes first, otherwise the first difference decides. */
  lemma {:induction false} LessByFirstDifference(a: string, b: string)
    ensures Less(a, b) <==> exists n :: 0 <= n <= |a| && n < |b| && a[..n] == b[..n] && (n == |a| || a[n] < b[n])
  {
    if a == [] || b == [] || a[0] != b[0] {
      if Less(a, b) { assert a[..0] == b[..0]; }
      PrefixesShareTheFirst(a, b);
    } else {
      LessByFirstDifference(a[1..], b[1..]);
      forall n | 0 <= n <= |a| && n < |b| && a[..n] == b[..n] && (n == |a| || a[n] < b[n]) ensures Less(a, b) {
        assert n > 0 && a[1..][..n - 1] == a[..n][1..] == b[..n][1..] == b[1..][..n - 1];
      }
      forall n | 0 <= n <= |a[1..]| && n < |b[1..]| && a[1..][..n] == b[1..][..n]
                 && (n == |a[1..]| || a[1..][n] < b[1..][n])
        ensures exists k :: 0 <= k <= |a| && k < |b| && a[..k] == b[..k] && (k == |a| || a[k] < b[k])
      {
        assert a[..n + 1] == [a[0]] + a[1..][..n] == b[..n + 1];
      }
    }
  }

  /** Of two suffixes of one string, the shorter is a suffix of the longer. */
  lemma SuffixesNest(s: string, a: string, b: string)
    requires HasSuffix(s, a) && HasSuffix(s, b) && |a| <= |b|
    ensures HasSuffix(b, a)
  {
    assert b[|b| - |a|..] == s[|s| - |a|..];
  }

  lemma SuffixTransitive(s: string, a: string, b: string)
    requires HasSuffix(s, a) && HasSuffix(a, b)
    ensures HasSuffix(s, b)
  {
    assert s[|s| - |b|..] == a[|a| - |b|..];
  }

  lemma AppendHasSuffix(front: string, back: string)
    ensures HasSuffix(front + back, back) && TrimSuffix(front + back, back) == front
  {
    assert (front + back)[|front|..] == back;
    assert (front + back)[..|front|] == front;
  }

  lemma LowerStays(s: string)
    requires forall i :: 0 <= i < |s| ==> LowerChar(s[i]) == s[i]
    ensures ToLower(s) == s
  {
  }

  /** Blanks around a text that starts and ends with visible characters are what trimming takes off. */
  lemma {:induction false} TrimSpaceTakesBlanks(front: string, core: string, back: string)
    requires forall c :: c in front || c in back ==> c in " \t\r\n"
    requires core != "" ==> '!' <= core[0] <= '~' && '!' <= core[|core| - 1] <= '~'
    ensures TrimSpace(front + core + back) == core
    decreases |front| + |back|
  {
    var s := front + core + back;
    if front != "" {
      assert s == [front[0]] + (front[1..] + core + back);
      assert front[0] in front && s[1..] == front[1..] + core + back;
      TrimSpaceTakesBlanks(front[1..], core, back);
    } else if core == "" {
      assert s == back;
      if back != "" {
        assert back[0] in back;
        TrimSpaceTakesBlanks("", "", back[1..]);
        assert "" + "" + back[1..] == s[1..];
      }
    } else {
      assert s == core + back && s[0] == core[0];
      TrimRightTakesBlanks(core, back);
    }
  }

  lemma {:induction false} TrimRightTakesBlanks(core: string, back: string)
    requires forall c :: c in back ==> c in " \t\r\n"
    requires core != "" && '!' <= core[|core| - 1] <= '~'
    ensures TrimRight(core + back) == core
  {
    if back == "" {
      assert core + back == core;
    } else {
      assert back[|back| - 1] in back;
      TrimRightTakesBlanks(core, back[..|back| - 1]);
      assert (core + back)[..|core + back| - 1] == core + back[..|back| - 1];
    }
  }

  /** The normal form of a host in ASCII: no blanks around it, no final dot, and no capitals. */
  lemma NormalFormOfHost(front: string, core: string, back: string)
    requires forall c :: c in front || c in back ==> c in " \t\r\n"
    requires forall c :: c in core ==> '!' <= c <= '~'
    ensures var host := NormalizeHost(front + core + back);
            && |host| == (if core != "" && core[|core| - 1] == '.' then |core| - 1 else |core|)
            && forall i :: 0 <= i < |host| ==>
                 host[i] == if 'A' <= core[i] <= 'Z' then (core[i] as int + 32) as char else core[i]
  {
    if core != "" { assert core[0] in core && core[|core| - 1] in core; }
    TrimSpaceTakesBlanks(front, core, back);
    var lower := ToLower(core);
    assert forall i :: 0 <= i < |core| ==> core[i] in core;
    assert HasSuffix(lower, ".") <==> core != "" && core[|core| - 1] == '.' by {
      if core != "" { assert lower[|lower| - 1..] == [lower[|lower| - 1]]; }
    }
  }
}
