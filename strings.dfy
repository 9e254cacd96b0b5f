/** Text as Python sees it: substring occurrence (`in`), leftmost search
    (`str.find`) and the non-overlapping occurrence count (`str.count`).
    Strings are sequences of characters; no encoding is involved. */
module Strings {
  import opened Wrappers

  /** The pattern `p` occurs in `s` starting at index `i`. */
  predicate OccursAt(s: string, p: string, i: int)
  {
    0 <= i && i + |p| <= |s| && s[i..i + |p|] == p
  }

  /** Python's `p in s`. */
  predicate Contains(s: string, p: string)
  {
    exists i :: 0 <= i <= |s| - |p| && OccursAt(s, p, i)
  }

  /** `p` does not occur in `s` at any index below `k`. */
  predicate AbsentBefore(s: string, p: string, k: int)
  {
    forall i :: 0 <= i < k ==> !OccursAt(s, p, i)
  }

  /** Python's `s.find(p)`, with -1 rendered as None. */
  function IndexOf(s: string, p: string): (r: Option<nat>)
    ensures r.Some? ==> r.value + |p| <= |s|
    decreases |s|
  {
    if |s| < |p| then None
    else if OccursAt(s, p, 0) then Some(0)
    else
      match IndexOf(s[1..], p)
      case None => None
      case Some(j) => Some(j + 1)
  }

  /** `IndexOf` finds the leftmost occurrence, and finds none exactly when
      the pattern does not occur. */
  lemma {:induction false} IndexOfIsLeftmost(s: string, p: string)
    ensures IndexOf(s, p).Some? ==>
              OccursAt(s, p, IndexOf(s, p).value) && AbsentBefore(s, p, IndexOf(s, p).value)
    ensures IndexOf(s, p).None? <==> !Contains(s, p)
    decreases |s|
  {
    if |s| < |p| {
    } else if OccursAt(s, p, 0) {
    } else {
      IndexOfIsLeftmost(s[1..], p);
      match IndexOf(s[1..], p)
      case None =>
        forall i | 0 < i ensures !OccursAt(s, p, i) { OccursAfterDrop(s, p, 1, i - 1); }
      case Some(j) =>
        OccursAfterDrop(s, p, 1, j);
        forall i | 0 < i <= j ensures !OccursAt(s, p, i) { OccursAfterDrop(s, p, 1, i - 1); }
    }
  }

  /** Python's `s.count(p)` for a non-empty pattern: find the leftmost
      occurrence, count it and resume the search just after it. */
  function Count(s: string, p: string): nat
    requires p != []
    decreases |s|
  {
    match IndexOf(s, p)
    case None => 0
    case Some(i) => 1 + Count(s[i + |p|..], p)
  }

  /** Number of leading characters of `s` equal to `c`. */
  function LeadingRun(s: string, c: char): (n: nat)
    ensures n <= |s|
  {
    if s != [] && s[0] == c then 1 + LeadingRun(s[1..], c) else 0
  }

  /** Dropping a prefix of length `k` shifts every occurrence left by `k`. */
  lemma OccursAfterDrop(s: string, p: string, k: int, i: int)
    requires 0 <= k <= |s| && 0 <= i
    ensures OccursAt(s[k..], p, i) <==> OccursAt(s, p, i + k)
  {
    if i + |p| <= |s| - k {
      var a, b := s[k..][i..i + |p|], s[i + k..i + k + |p|];
      assert a == b by { forall j | 0 <= j < |p| ensures a[j] == b[j] { } }
    }
  }

  /** A pattern whose first character never appears in `s` does not occur in it. */
  lemma FirstCharAbsent(s: string, p: string)
    requires p != [] && p[0] !in s
    ensures !Contains(s, p)
  {
    forall i | 0 <= i && i + |p| <= |s| ensures !OccursAt(s, p, i) {
      assert s[i..i + |p|][0] == s[i];
    }
  }

  /** When the first `k` characters of `s` all equal `c`, they are part of the leading run. */
  lemma {:induction false} LeadingRunDrop(s: string, c: char, k: nat)
    requires k <= |s|
    requires forall j :: 0 <= j < k ==> s[j] == c
    ensures LeadingRun(s, c) == k + LeadingRun(s[k..], c)
  {
    if k > 0 {
      LeadingRunDrop(s[1..], c, k - 1);
      assert s[1..][k - 1..] == s[k..];
    }
  }

  /** The leading run consists of `c` and stops at the first other character. */
  lemma {:induction false} LeadingRunChars(s: string, c: char, j: nat)
    requires j <= LeadingRun(s, c)
    ensures j < LeadingRun(s, c) ==> s[j] == c
    ensures j == LeadingRun(s, c) && j < |s| ==> s[j] != c
  {
    if j > 0 {
      LeadingRunChars(s[1..], c, j - 1);
    }
  }
}
