/** The few operations of Python's `str` that the link validator uses. */
module Text {

  /** `s.startswith(prefix)` */
  predicate StartsWith(s: string, prefix: string) {
    prefix <= s
  }

  /** `s.endswith(suffix)` */
  predicate EndsWith(s: string, suffix: string) {
    |suffix| <= |s| && s[|s| - |suffix|..] == suffix
  }

  /** `sub` occurs in `s` starting at index `k`. */
  predicate OccursAt(s: string, sub: string, k: nat) {
    k + |sub| <= |s| && s[k..k + |sub|] == sub
  }

  /** `sub in s` */
  predicate Contains(s: string, sub: string) {
    exists k :: 0 <= k <= |s| - |sub| && OccursAt(s, sub, k)
  }

  /** The first index at or after `i` holding `c`, or `|s|` when there is none. */
  function IndexFrom(s: string, c: char, i: nat): (k: nat)
    requires i <= |s|
    ensures i <= k <= |s|
    ensures k < |s| ==> s[k] == c
    ensures forall j :: i <= j < k ==> s[j] != c
    decreases |s| - i
  {
    if i == |s| || s[i] == c then i else IndexFrom(s, c, i + 1)
  }

  /** The first-occurrence contract of IndexFrom determines it. */
  lemma IndexFromIs(s: string, c: char, i: nat, k: nat)
    requires i <= k <= |s|
    requires k < |s| ==> s[k] == c
    requires forall j :: i <= j < k ==> s[j] != c
    ensures IndexFrom(s, c, i) == k
  {
  }

  /** `s.split('#')[0]`: everything before the first `#`. */
  function BeforeHash(s: string): (r: string)
    ensures r <= s
    ensures '#' !in r
    ensures r == s || s[|r|] == '#'
  {
    s[..IndexFrom(s, '#', 0)]
  }

  /** A string with no `#` is its own part before `#`. */
  lemma BeforeHashClean(s: string)
    requires '#' !in s
    ensures BeforeHash(s) == s
  {
  }

  /** `s.lstrip('/')`: every leading slash removed, not only the first. */
  function LStripSlash(s: string): (r: string)
    ensures |r| <= |s| && r == s[|s| - |r|..]
    ensures r == [] || r[0] != '/'
    ensures forall k :: 0 <= k < |s| - |r| ==> s[k] == '/'
    decreases |s|
  {
    if s != [] && s[0] == '/' then LStripSlash(s[1..]) else s
  }

  /** Whatever contains `a + b` contains `a`. */
  lemma ContainsPrefixOf(s: string, a: string, b: string)
    requires Contains(s, a + b)
    ensures Contains(s, a)
  {
    var k :| 0 <= k <= |s| - |a + b| && OccursAt(s, a + b, k);
    assert s[k..k + |a|] == (a + b)[..|a|] == a;
    assert OccursAt(s, a, k);
  }

  /** An occurrence in a suffix `s[n..]` is an occurrence in `s`. */
  lemma ContainsInSuffix(s: string, n: nat)
    requires n <= |s|
    ensures forall sub :: Contains(s[n..], sub) ==> Contains(s, sub)
  {
    forall sub | Contains(s[n..], sub)
      ensures Contains(s, sub)
    {
      var k :| 0 <= k <= |s[n..]| - |sub| && OccursAt(s[n..], sub, k);
      assert s[n + k..n + k + |sub|] == s[n..][k..k + |sub|];
      assert OccursAt(s, sub, n + k);
    }
  }
}
