// `nth_repl` (DNA_fragments.py): replace the n-th occurrence of a pattern.
// The scan that locates the occurrence resumes one character after the
// previous match, so it counts overlapping occurrences; the guard that
// decides whether to replace at all counts non-overlapping ones (`split`).

module NthOccurrence {
  import opened Text

  /** Position reached after `n` steps of `find(pat)` then `find(pat, prev + 1)`,
    * or -1 once a step fails. */
  function NthOverlap(s: string, pat: string, n: nat): (p: int)
    requires |pat| > 0 && n >= 1
    ensures p == -1 || MatchAt(s, pat, p)
  {
    if n == 1 then Find(s, pat, 0)
    else
      var q := NthOverlap(s, pat, n - 1);
      if q < 0 then -1 else Find(s, pat, q + 1)
  }

  /** `NthOverlap` is the n-th occurrence counting overlaps: it exists exactly
    * when there are at least `n` occurrences, and then exactly `n - 1`
    * occurrences start before it. */
  lemma {:induction false} NthOverlapIsNthMatch(s: string, pat: string, n: nat)
    requires |pat| > 0 && n >= 1
    ensures NthOverlap(s, pat, n) >= 0 <==> n <= MatchCount(s, pat, 0)
    ensures NthOverlap(s, pat, n) >= 0 ==>
              MatchCount(s, pat, 0) - MatchCount(s, pat, NthOverlap(s, pat, n)) == n - 1
  {
    if n == 1 {
      FindKeepsCount(s, pat, 0);
    } else {
      NthOverlapIsNthMatch(s, pat, n - 1);
      var q := NthOverlap(s, pat, n - 1);
      if q >= 0 {
        FindKeepsCount(s, pat, q + 1);
        assert MatchCount(s, pat, q) == 1 + MatchCount(s, pat, q + 1);
        var p := Find(s, pat, q + 1);
        if p >= 0 {
          assert MatchCount(s, pat, p) >= 1;
        }
      }
    }
  }

  /** When the guard lets the replacement through, the n-th overlapping
    * occurrence exists. */
  lemma NthOverlapExists(s: string, pat: string, n: nat)
    requires |pat| > 0 && 1 <= n <= SplitCount(s, pat)
    ensures NthOverlap(s, pat, n) >= 0
  {
    NonOverlapAtMostMatches(s, pat, 0);
    NthOverlapIsNthMatch(s, pat, n);
  }

  /** What `nth_repl(s, pat, rep, n)` returns: with fewer than `n`
    * non-overlapping occurrences the text unchanged, otherwise a text whose
    * length changed by `|rep| - |pat|`. */
  function NthReplace(s: string, pat: string, rep: string, n: nat): (r: string)
    requires |pat| > 0 && n >= 1
    ensures SplitCount(s, pat) < n ==> r == s
    ensures n <= SplitCount(s, pat) ==> |r| == |s| - |pat| + |rep|
  {
    if n <= SplitCount(s, pat) then
      NthOverlapExists(s, pat, n);
      var p := NthOverlap(s, pat, n);
      s[..p] + rep + s[p + |pat|..]
    else s
  }

  /** Where the scan of `nth_repl` stands after counting `i` occurrences:
    * nothing found at all (`i == 0`), or `find` is the i-th occurrence. */
  predicate Scanned(s: string, pat: string, i: nat, find: int)
    requires |pat| > 0
  {
    if i == 0 then find == -1 && Find(s, pat, 0) == -1 else find == NthOverlap(s, pat, i)
  }

  lemma ScanStep(s: string, pat: string, i: nat, find: int)
    requires |pat| > 0 && Scanned(s, pat, i, find) && find != -1
    ensures Scanned(s, pat, i + 1, Find(s, pat, find + 1))
  {
  }

  /** `nth_repl`: the loop advances `find` from one occurrence to the next
    * (overlaps included) until it has counted `n` or runs out. */
  method NthRepl(s: string, pat: string, rep: string, n: nat) returns (r: string)
    requires |pat| > 0 && n >= 1
    ensures r == NthReplace(s, pat, rep, n)
  {
    var find := Find(s, pat, 0);
    var i: nat := if find != -1 then 1 else 0;
    while find != -1 && i != n
      invariant i <= n && Scanned(s, pat, i, find)
      decreases n - i
    {
      ScanStep(s, pat, i, find);
      find := Find(s, pat, find + 1);
      i := i + 1;
    }
    ScanDone(s, pat, rep, n, i, find);
    if i == n && i <= SplitCount(s, pat) {
      r := s[..find] + rep + s[find + |pat|..];
    } else {
      r := s;
    }
  }

  /** Where the scan of `NthRepl` stops decides the result: with `n`
    * occurrences counted and the guard passed, `find` is a valid position
    * and `NthReplace` splices `rep` in there; otherwise there are fewer
    * than `n` non-overlapping occurrences and `NthReplace` keeps `s`. */
  lemma ScanDone(s: string, pat: string, rep: string, n: nat, i: nat, find: int)
    requires |pat| > 0 && 1 <= n && i <= n && Scanned(s, pat, i, find)
    requires !(find != -1 && i != n)
    ensures i == n && i <= SplitCount(s, pat) ==>
              0 <= find && find + |pat| <= |s| && NthReplace(s, pat, rep, n) == s[..find] + rep + s[find + |pat|..]
    ensures !(i == n && i <= SplitCount(s, pat)) ==> SplitCount(s, pat) < n && NthReplace(s, pat, rep, n) == s
  {
    NonOverlapAtMostMatches(s, pat, 0);
    if i == n && i <= SplitCount(s, pat) {
      NthOverlapExists(s, pat, n);
    } else if i == 0 {
      FindKeepsCount(s, pat, 0);
    } else if i != n {
      NthOverlapIsNthMatch(s, pat, i);
    }
  }

  /** Otherwise exactly one occurrence is rewritten: the n-th counting
    * overlaps. Text before it is untouched, `rep` stands in its place, the
    * text after it follows, and the length changes by `|rep| - |pat|`. */
  lemma NthReplaceRewritesNthMatch(s: string, pat: string, rep: string, n: nat)
    requires |pat| > 0 && 1 <= n <= SplitCount(s, pat)
    ensures var p := NthOverlap(s, pat, n);
            var r := NthReplace(s, pat, rep, n);
            && p >= 0 && MatchAt(s, pat, p)
            && MatchCount(s, pat, 0) - MatchCount(s, pat, p) == n - 1
            && |r| == |s| - |pat| + |rep|
            && r[..p] == s[..p]
            && r[p..p + |rep|] == rep
            && r[p + |rep|..] == s[p + |pat|..]
  {
    NthOverlapExists(s, pat, n);
    NthOverlapIsNthMatch(s, pat, n);
  }
}
