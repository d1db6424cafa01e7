/**
 * The Python string operations the scripts rely on (`str.find`, `str.rfind`,
 * `str.replace`, `str.startswith`, `str.endswith`, `in`, `str.join`),
 * written out on `seq<char>` together with the facts the models need.
 */
module Text {

  /** `pat` occurs in `s` starting at index `i`. */
  predicate OccursAt(s: string, pat: string, i: int) {
    0 <= i && i + |pat| <= |s| && s[i..i + |pat|] == pat
  }

  /** Python's `pat in s`. */
  predicate Contains(s: string, pat: string) {
    exists i | 0 <= i <= |s| :: OccursAt(s, pat, i)
  }

  /** `i` is the lowest index at which `pat` occurs in `s`. */
  predicate FirstOccurrence(s: string, pat: string, i: int) {
    OccursAt(s, pat, i) && forall j :: 0 <= j < i ==> !OccursAt(s, pat, j)
  }

  predicate StartsWith(s: string, prefix: string) {
    |prefix| <= |s| && s[..|prefix|] == prefix
  }

  predicate EndsWith(s: string, suffix: string) {
    |suffix| <= |s| && s[|s| - |suffix|..] == suffix
  }

  /** Lowest index at or after `i` where `pat` occurs, or -1. */
  function FindFrom(s: string, pat: string, i: nat): (r: int)
    ensures r == -1 || (i <= r && OccursAt(s, pat, r))
    ensures r == -1 ==> forall j :: i <= j ==> !OccursAt(s, pat, j)
    ensures r != -1 ==> forall j :: i <= j < r ==> !OccursAt(s, pat, j)
    decreases |s| - i
  {
    if i + |pat| > |s| then -1
    else if s[i..i + |pat|] == pat then i
    else FindFrom(s, pat, i + 1)
  }

  /** Python's `s.find(pat)`: the lowest index where `pat` occurs, or -1. */
  function Find(s: string, pat: string): (r: int)
    ensures r == -1 <==> !Contains(s, pat)
    ensures r != -1 ==> FirstOccurrence(s, pat, r)
  {
    FindFrom(s, pat, 0)
  }

  /** Python's `s.rfind(c)` for one character: the highest index holding `c`, or -1. */
  function LastIndexOf(s: string, c: char): (r: int)
    ensures -1 <= r < |s|
    ensures r == -1 <==> c !in s
    ensures r >= 0 ==> s[r] == c && forall j :: r < j < |s| ==> s[j] != c
    decreases |s|
  {
    if s == [] then -1
    else if s[|s| - 1] == c then |s| - 1
    else
      var r := LastIndexOf(s[..|s| - 1], c);
      assert s == s[..|s| - 1] + [s[|s| - 1]];
      r
  }

  /**
   * Python's `s.replace(pat, rep)` for a non-empty `pat`: occurrences are
   * replaced from left to right, and a replaced occurrence is not rescanned.
   */
  function ReplaceAll(s: string, pat: string, rep: string): string
    requires pat != []
    decreases |s|
  {
    if |s| < |pat| then s
    else if s[..|pat|] == pat then rep + ReplaceAll(s[|pat|..], pat, rep)
    else [s[0]] + ReplaceAll(s[1..], pat, rep)
  }

  /** `sep.join(parts)`. */
  function Join(parts: seq<string>, sep: string): string
    decreases |parts|
  {
    if parts == [] then ""
    else if |parts| == 1 then parts[0]
    else parts[0] + sep + Join(parts[1..], sep)
  }

  // ---------------------------------------------------------------------
  // Facts about occurrences

  /** Occurrences in a suffix are occurrences in the whole, shifted by `k`. */
  lemma OccursAtDrop(s: string, pat: string, k: nat, j: int)
    requires k <= |s| && 0 <= j
    ensures OccursAt(s[k..], pat, j) <==> OccursAt(s, pat, j + k)
  {
    if 0 <= j && j + |pat| <= |s| - k {
      assert s[k..][j..j + |pat|] == s[j + k..j + k + |pat|];
    }
  }

  /** Occurrences that start inside `b` of `a + b` are occurrences in `b`. */
  lemma OccursAtAppend(a: string, b: string, pat: string, j: int)
    requires 0 <= j
    ensures OccursAt(a + b, pat, |a| + j) <==> OccursAt(b, pat, j)
  {
    assert (a + b)[|a|..] == b;
    OccursAtDrop(a + b, pat, |a|, j);
  }

  /** `find` returns 0 exactly when the string starts with the pattern. */
  lemma FindZeroIffStartsWith(s: string, pat: string)
    ensures Find(s, pat) == 0 <==> StartsWith(s, pat)
  {
    if StartsWith(s, pat) {
      assert OccursAt(s, pat, 0);
    }
  }

  // ---------------------------------------------------------------------
  // Facts about ReplaceAll

  /** Text in which the pattern does not occur is left unchanged. */
  lemma {:induction false} ReplaceAllNoMatch(s: string, pat: string, rep: string)
    requires pat != []
    requires !Contains(s, pat)
    ensures ReplaceAll(s, pat, rep) == s
    decreases |s|
  {
    if |s| >= |pat| {
      assert !OccursAt(s, pat, 0);
      forall j | 0 <= j ensures !OccursAt(s[1..], pat, j) {
        OccursAtDrop(s, pat, 1, j);
      }
      ReplaceAllNoMatch(s[1..], pat, rep);
      assert s == [s[0]] + s[1..];
    }
  }

  /** Before the first occurrence, ReplaceAll copies its input. */
  lemma {:induction false} ReplaceAllPrefix(s: string, pat: string, rep: string, n: nat)
    requires pat != []
    requires n <= |s|
    requires forall j :: 0 <= j < n ==> !OccursAt(s, pat, j)
    ensures ReplaceAll(s, pat, rep) == s[..n] + ReplaceAll(s[n..], pat, rep)
    decreases n
  {
    if n == 0 {
      assert s[..0] == [] && s[0..] == s;
    } else if |s| < |pat| {
      assert |s[n..]| < |pat|;
      assert s[..n] + s[n..] == s;
    } else {
      var t := s[1..];
      assert !OccursAt(s, pat, 0);
      assert ReplaceAll(s, pat, rep) == [s[0]] + ReplaceAll(t, pat, rep);
      forall j | 0 <= j < n - 1 ensures !OccursAt(t, pat, j) {
        OccursAtDrop(s, pat, 1, j);
      }
      ReplaceAllPrefix(t, pat, rep, n - 1);
      assert t[..n - 1] == s[1..n] && t[n - 1..] == s[n..];
      calc {
        ReplaceAll(s, pat, rep);
        [s[0]] + (t[..n - 1] + ReplaceAll(t[n - 1..], pat, rep));
        { assert [s[0]] + s[1..n] == s[..n]; }
        s[..n] + ReplaceAll(s[n..], pat, rep);
      }
    }
  }

  /** Replacing one character by a different one removes it everywhere. */
  lemma {:induction false} ReplaceCharRemoves(s: string, c: char, d: char)
    requires c != d
    ensures c !in ReplaceAll(s, [c], [d])
    decreases |s|
  {
    if |s| >= 1 {
      ReplaceCharRemoves(s[1..], c, d);
    }
  }
}
