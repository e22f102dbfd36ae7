// Python string built-ins that DNA_fragments.py relies on, stated as
// functions over `string` (= seq<char>): `str.find`, the occurrence count
// behind `len(s.split(sep)) - 1`, and `str.replace`.

module Text {

  /** `pat` occurs in `s` starting at index `i`, i.e. `s[i..i + |pat|] == pat`. */
  predicate MatchAt(s: string, pat: string, i: int)
  {
    0 <= i && i + |pat| <= |s| && forall k :: 0 <= k < |pat| ==> s[i + k] == pat[k]
  }

  /** An occurrence stays one when text is appended. */
  lemma MatchExtends(s: string, tail: string, pat: string, i: int)
    requires MatchAt(s, pat, i)
    ensures MatchAt(s + tail, pat, i)
  {
    assert forall k :: 0 <= k < |pat| ==> (s + tail)[i + k] == pat[k];
  }

  /** `pat` occurs at the end of `s + pat`. */
  lemma MatchAtEnd(s: string, pat: string)
    ensures MatchAt(s + pat, pat, |s|)
  {
    assert forall k :: 0 <= k < |pat| ==> (s + pat)[|s| + k] == pat[k];
  }

  /** Python's `s.find(pat, start)`: the lowest index at or after `start`
    * where `pat` occurs, or -1 when there is none. */
  function Find(s: string, pat: string, start: nat): (r: int)
    requires |pat| > 0
    ensures r == -1 || (start <= r && MatchAt(s, pat, r))
    decreases |s| - start
  {
    if start + |pat| > |s| then -1
    else if MatchAt(s, pat, start) then start
    else Find(s, pat, start + 1)
  }

  /** No occurrence starts between `start` and the position `Find` reports,
    * nor anywhere from `start` on when it reports -1. */
  lemma {:induction false} FindIsLeftmost(s: string, pat: string, start: nat)
    requires |pat| > 0
    ensures forall i :: start <= i && (Find(s, pat, start) == -1 || i < Find(s, pat, start)) ==> !MatchAt(s, pat, i)
    decreases |s| - start
  {
    if start + |pat| <= |s| && !MatchAt(s, pat, start) {
      FindIsLeftmost(s, pat, start + 1);
    }
  }

  /** Number of (possibly overlapping) occurrences of `pat` starting at or after `start`. */
  function MatchCount(s: string, pat: string, start: nat): nat
    decreases |s| - start
  {
    if start >= |s| then 0
    else (if MatchAt(s, pat, start) then 1 else 0) + MatchCount(s, pat, start + 1)
  }

  /** Occurrences found by scanning left to right from `start` and resuming
    * after each match: the non-overlapping occurrences that `str.split` and
    * `str.replace` see. They lie side by side, so together they take up at
    * most the text from `start`. */
  function NonOverlapCount(s: string, pat: string, start: nat): (r: nat)
    requires |pat| > 0
    ensures start <= |s| ==> r * |pat| <= |s| - start
    decreases |s| - start
  {
    if start + |pat| > |s| then 0
    else if MatchAt(s, pat, start) then 1 + NonOverlapCount(s, pat, start + |pat|)
    else NonOverlapCount(s, pat, start + 1)
  }

  /** `len(s.split(pat)) - 1`: never more than the occurrences counted
    * with overlaps. */
  function SplitCount(s: string, pat: string): (r: nat)
    requires |pat| > 0
    ensures r <= MatchCount(s, pat, 0)
  {
    NonOverlapAtMostMatches(s, pat, 0);
    NonOverlapCount(s, pat, 0)
  }

  /** `s[start:].replace(pat, rep)`: the same left-to-right scan, with
    * every occurrence it meets replaced by `rep`. A replacement at least as
    * long as `pat` never shortens the text, one at most as long never
    * lengthens it. */
  function ReplaceFrom(s: string, pat: string, rep: string, start: nat): (r: string)
    requires |pat| > 0 && start <= |s|
    ensures |pat| <= |rep| ==> |s| - start <= |r|
    ensures |rep| <= |pat| ==> |r| <= |s| - start
    decreases |s| - start
  {
    if start + |pat| > |s| then s[start..]
    else if MatchAt(s, pat, start) then rep + ReplaceFrom(s, pat, rep, start + |pat|)
    else [s[start]] + ReplaceFrom(s, pat, rep, start + 1)
  }

  /** Python's `s.replace(pat, rep)`: every non-overlapping occurrence
    * changes the length by `|rep| - |pat|`, and no character other than
    * those of `s` and `rep` appears. */
  function ReplaceAll(s: string, pat: string, rep: string): (r: string)
    requires |pat| > 0
    ensures |r| == |s| + SplitCount(s, pat) * (|rep| - |pat|)
    ensures forall c :: c in r ==> c in s || c in rep
  {
    ReplaceFromLength(s, pat, rep, 0);
    TimesIsProduct(SplitCount(s, pat), |rep| - |pat|);
    ReplaceFromChars(s, pat, rep, 0);
    ReplaceFrom(s, pat, rep, 0)
  }

  /** Every match lies at or after the position `Find` reports, so the
    * count from `start` equals the count from that position (or is zero). */
  lemma {:induction false} FindKeepsCount(s: string, pat: string, start: nat)
    requires |pat| > 0
    ensures Find(s, pat, start) < 0 ==> MatchCount(s, pat, start) == 0
    ensures Find(s, pat, start) >= 0 ==> MatchCount(s, pat, start) == MatchCount(s, pat, Find(s, pat, start))
    decreases |s| - start
  {
    if start >= |s| {
    } else if start + |pat| > |s| {
      FindKeepsCount(s, pat, start + 1);
    } else if !MatchAt(s, pat, start) {
      FindKeepsCount(s, pat, start + 1);
    }
  }

  lemma {:induction false} MatchCountAntitone(s: string, pat: string, a: nat, b: nat)
    requires a <= b
    ensures MatchCount(s, pat, b) <= MatchCount(s, pat, a)
    decreases b - a
  {
    if a < b {
      MatchCountAntitone(s, pat, a + 1, b);
    }
  }

  /** The non-overlapping occurrences are among all the occurrences. */
  lemma {:induction false} NonOverlapAtMostMatches(s: string, pat: string, start: nat)
    requires |pat| > 0
    ensures NonOverlapCount(s, pat, start) <= MatchCount(s, pat, start)
    decreases |s| - start
  {
    if start + |pat| <= |s| {
      if MatchAt(s, pat, start) {
        NonOverlapAtMostMatches(s, pat, start + |pat|);
        MatchCountAntitone(s, pat, start + 1, start + |pat|);
      } else {
        NonOverlapAtMostMatches(s, pat, start + 1);
      }
    }
  }

  /** `str.replace` introduces no character other than those of `rep`. */
  lemma {:induction false} ReplaceFromChars(s: string, pat: string, rep: string, start: nat)
    requires |pat| > 0 && start <= |s|
    ensures forall c :: c in ReplaceFrom(s, pat, rep, start) ==> c in s || c in rep
    decreases |s| - start
  {
    if start + |pat| > |s| {
      forall c | c in s[start..] ensures c in s {
        var j :| 0 <= j < |s| - start && s[start..][j] == c;
        assert s[start + j] == c;
      }
    } else if MatchAt(s, pat, start) {
      ReplaceFromChars(s, pat, rep, start + |pat|);
    } else {
      ReplaceFromChars(s, pat, rep, start + 1);
    }
  }

  /** `k * d` as `k` repeated additions, which keeps the length argument
    * below linear. */
  function Times(k: nat, d: int): int
  {
    if k == 0 then 0 else d + Times(k - 1, d)
  }

  lemma TimesStep(a: nat, b: nat, d: int)
    requires a == b + 1
    ensures Times(a, d) == d + Times(b, d)
  {
  }

  lemma {:induction false} TimesIsProduct(k: nat, d: int)
    ensures Times(k, d) == k * d
    ensures d >= 0 ==> Times(k, d) >= 0
  {
    if k > 0 {
      TimesIsProduct(k - 1, d);
      assert k * d == d + (k - 1) * d;
    }
  }

  /** Each replaced occurrence changes the length by `|rep| - |pat|`. */
  lemma {:induction false} ReplaceFromLength(s: string, pat: string, rep: string, start: nat)
    requires |pat| > 0 && start <= |s|
    ensures |ReplaceFrom(s, pat, rep, start)| == |s| - start + Times(NonOverlapCount(s, pat, start), |rep| - |pat|)
    decreases |s| - start
  {
    if start + |pat| <= |s| {
      if MatchAt(s, pat, start) {
        ReplaceFromLength(s, pat, rep, start + |pat|);
        TimesStep(NonOverlapCount(s, pat, start), NonOverlapCount(s, pat, start + |pat|), |rep| - |pat|);
      } else {
        ReplaceFromLength(s, pat, rep, start + 1);
      }
    }
  }

  /** With no occurrence the text comes back unchanged. */
  lemma {:induction false} ReplaceFromNoMatch(s: string, pat: string, rep: string, start: nat)
    requires |pat| > 0 && start <= |s| && NonOverlapCount(s, pat, start) == 0
    ensures ReplaceFrom(s, pat, rep, start) == s[start..]
    decreases |s| - start
  {
    if start + |pat| <= |s| {
      ReplaceFromNoMatch(s, pat, rep, start + 1);
      assert s[start..] == [s[start]] + s[start + 1..];
    }
  }

  /** Without an occurrence `s.replace(pat, rep)` is `s`; a replacement at
    * least as long as the pattern never shortens the text. */
  lemma ReplaceAllLength(s: string, pat: string, rep: string)
    requires |pat| > 0
    ensures SplitCount(s, pat) == 0 ==> ReplaceAll(s, pat, rep) == s
    ensures |rep| >= |pat| ==> |ReplaceAll(s, pat, rep)| >= |s|
  {
    if SplitCount(s, pat) == 0 {
      ReplaceFromNoMatch(s, pat, rep, 0);
    }
  }
}
