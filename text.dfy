/**
 * The string operations of the Kotlin standard library that the engine and
 * the adapters rely on: `lowercase`, `startsWith`, `endsWith` (also with
 * `ignoreCase = true`), `indexOf`, `contains`, `substringBefore` and
 * `substringBeforeLast`. Case mapping covers ASCII letters only.
 */
module Text {

  /** ASCII lower-casing of one character; other characters are kept. */
  function LowerChar(c: char): char {
    if 'A' <= c <= 'Z' then (c as int + 32) as char else c
  }

  /** `s.lowercase()`, restricted to ASCII letters. */
  function Lower(s: string): string {
    seq(|s|, i requires 0 <= i < |s| => LowerChar(s[i]))
  }

  predicate StartsWith(s: string, prefix: string) {
    |prefix| <= |s| && s[..|prefix|] == prefix
  }

  predicate EndsWith(s: string, suffix: string) {
    |suffix| <= |s| && s[|s| - |suffix|..] == suffix
  }

  /** `s.endsWith(suffix, ignoreCase = true)`: the tails agree up to case. */
  predicate EndsWithIgnoreCase(s: string, suffix: string) {
    |suffix| <= |s| && Lower(s[|s| - |suffix|..]) == Lower(suffix)
  }

  /** `pat` occurs in `s` starting at index `i`. */
  predicate OccursAt(s: string, pat: string, i: int) {
    0 <= i && i + |pat| <= |s| && s[i..i + |pat|] == pat
  }

  /** The first occurrence of `pat` at or after `from`, or -1. */
  function IndexFrom(s: string, pat: string, from: nat): (r: int)
    requires from <= |s|
    ensures r == -1 || (from <= r && OccursAt(s, pat, r))
    ensures forall j :: from <= j && (r == -1 || j < r) ==> !OccursAt(s, pat, j)
    decreases |s| - from
  {
    if OccursAt(s, pat, from) then from
    else if from == |s| then -1
    else IndexFrom(s, pat, from + 1)
  }

  /** `s.indexOf(pat)`: the first occurrence of `pat` in `s`, or -1. */
  function IndexOf(s: string, pat: string): (r: int)
    ensures -1 <= r <= |s|
    ensures r == -1 || OccursAt(s, pat, r)
    ensures r == -1 <==> forall j :: !OccursAt(s, pat, j)
    ensures forall j :: 0 <= j < r ==> !OccursAt(s, pat, j)
  {
    IndexFrom(s, pat, 0)
  }

  /** `s.contains(pat)`. */
  predicate Contains(s: string, pat: string) {
    IndexOf(s, pat) >= 0
  }

  /** `s.substringBefore(delim)`: everything before the first `delim`, or all of `s`. */
  function SubstringBefore(s: string, delim: string): string {
    var i := IndexOf(s, delim);
    if i == -1 then s else s[..i]
  }

  /** The last index of character `c` in `s`, or -1. */
  function LastIndexOf(s: string, c: char): (r: int)
    ensures -1 <= r < |s|
    ensures r == -1 <==> c !in s
    ensures r >= 0 ==> r < |s| && s[r] == c && c !in s[r + 1..]
  {
    if s == [] then -1
    else if s[|s| - 1] == c then |s| - 1
    else LastIndexOf(s[..|s| - 1], c)
  }

  /** `s.substringBeforeLast(c)` for a one-character delimiter. */
  function SubstringBeforeLast(s: string, c: char): string {
    var i := LastIndexOf(s, c);
    if i == -1 then s else s[..i]
  }

  /** Lower-casing twice is lower-casing once. */
  lemma LowerIdempotent(s: string)
    ensures Lower(Lower(s)) == Lower(s)
  {
    assert forall i :: 0 <= i < |s| ==> Lower(Lower(s))[i] == Lower(s)[i];
  }

  /** Lower-casing commutes with taking a tail. */
  lemma LowerTail(s: string, k: nat)
    requires k <= |s|
    ensures Lower(s[k..]) == Lower(s)[k..]
  {
  }

  /**
   * `endsWith(suffix, ignoreCase = true)` on `s` agrees with `endsWith` on
   * the lower-cased `s`, whenever the suffix is already lower case.
   */
  lemma EndsWithIgnoreCaseLower(s: string, suffix: string)
    requires Lower(suffix) == suffix
    ensures EndsWithIgnoreCase(s, suffix) <==> EndsWith(Lower(s), suffix)
  {
    if |suffix| <= |s| {
      LowerTail(s, |s| - |suffix|);
    }
  }

  /** A one-character pattern occurs exactly when the character does. */
  lemma ContainsChar(s: string, c: char)
    ensures Contains(s, [c]) <==> c in s
  {
    if c in s {
      var j :| 0 <= j < |s| && s[j] == c;
      assert s[j..j + 1] == [c];
      assert OccursAt(s, [c], j);
    }
    if Contains(s, [c]) {
      var j := IndexOf(s, [c]);
      assert s[j..j + 1] == [c];
      assert s[j] == c;
    }
  }

  /** A pattern absent from `s` is absent from every prefix of `s`. */
  lemma {:induction false} AbsentFromPrefix(s: string, pat: string, n: nat)
    requires n <= |s|
    requires !Contains(s, pat)
    ensures !Contains(s[..n], pat)
  {
    if Contains(s[..n], pat) {
      var j := IndexOf(s[..n], pat);
      assert s[..n][j..j + |pat|] == s[j..j + |pat|];
      assert OccursAt(s, pat, j);
      assert false;
    }
  }

  /**
   * `substringBefore` yields a prefix of `s` that no longer contains the
   * (non-empty) delimiter, and all of `s` when the delimiter is absent. When
   * it occurs, the prefix ends exactly at its first occurrence: the
   * delimiter starts right after the prefix and at no earlier position.
   */
  lemma {:induction false} SubstringBeforeSpec(s: string, delim: string)
    requires delim != []
    ensures StartsWith(s, SubstringBefore(s, delim))
    ensures !Contains(SubstringBefore(s, delim), delim)
    ensures !Contains(s, delim) ==> SubstringBefore(s, delim) == s
    ensures Contains(s, delim) ==> OccursAt(s, delim, |SubstringBefore(s, delim)|)
    ensures forall j :: 0 <= j < |SubstringBefore(s, delim)| ==> !OccursAt(s, delim, j)
  {
    var i := IndexOf(s, delim);
    var r := SubstringBefore(s, delim);
    if i != -1 {
      if Contains(r, delim) {
        var j := IndexOf(r, delim);
        assert j + |delim| <= i;
        assert r[j..j + |delim|] == s[j..j + |delim|];
        assert OccursAt(s, delim, j);
        assert false;
      }
    }
  }

  /**
   * `substringBeforeLast` yields a prefix of `s`; when `c` occurs, it is the
   * part before the last `c`, and the dropped tail starts with `c` and holds
   * no other `c`.
   */
  lemma SubstringBeforeLastSpec(s: string, c: char)
    ensures StartsWith(s, SubstringBeforeLast(s, c))
    ensures c !in s ==> SubstringBeforeLast(s, c) == s
    ensures c in s ==>
      var b := SubstringBeforeLast(s, c);
      |b| < |s| && s[|b|] == c && c !in s[|b| + 1..]
  {
  }
}
