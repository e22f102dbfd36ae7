// `compute_distance_matrix` (DNA_fragments.py) and the edit distance it
// negates. The distance itself comes from a library in the source; here it
// is the textbook recursive definition of Levenshtein distance.

module Levenshtein {

  function Min3(a: nat, b: nat, c: nat): nat
  {
    if a <= b && a <= c then a else if b <= c then b else c
  }

  /** Least number of single-character insertions, deletions and
    * substitutions that turn `a` into `b`: at least the difference in
    * length and at most the longer length. */
  function Lev(a: string, b: string): (r: nat)
    ensures Dist(|a|, |b|) <= r <= Max(|a|, |b|)
    decreases |a| + |b|
  {
    if |a| == 0 then |b|
    else if |b| == 0 then |a|
    else Min3(Lev(a[1..], b) + 1,
              Lev(a, b[1..]) + 1,
              Lev(a[1..], b[1..]) + (if a[0] == b[0] then 0 else 1))
  }

  function Max(x: nat, y: nat): nat { if x >= y then x else y }

  function Dist(x: nat, y: nat): nat { if x >= y then x - y else y - x }

  lemma {:induction false} LevSelf(a: string)
    ensures Lev(a, a) == 0
    decreases |a|
  {
    if |a| > 0 {
      LevSelf(a[1..]);
    }
  }

  lemma {:induction false} LevSymmetric(a: string, b: string)
    ensures Lev(a, b) == Lev(b, a)
    decreases |a| + |b|
  {
    if |a| > 0 && |b| > 0 {
      LevSymmetric(a[1..], b);
      LevSymmetric(a, b[1..]);
      LevSymmetric(a[1..], b[1..]);
    }
  }

  /** Distance zero exactly for equal strings. */
  lemma {:induction false} LevZeroIffEqual(a: string, b: string)
    ensures Lev(a, b) == 0 <==> a == b
    decreases |a| + |b|
  {
    if a == b {
      LevSelf(a);
    } else if |a| > 0 && |b| > 0 {
      LevZeroIffEqual(a[1..], b[1..]);
      assert a == [a[0]] + a[1..] && b == [b[0]] + b[1..];
    }
  }

  /** The inner loop of `compute_distance_matrix`: row `i` receives the
    * negated distances from every fragment to fragment `i`; no other row
    * changes. */
  method FillRow(m: array2<int>, fragments: seq<string>, i: nat)
    requires m.Length0 == m.Length1 == |fragments| && i < |fragments|
    modifies m
    ensures forall c :: 0 <= c < |fragments| ==> m[i, c] == -(Lev(fragments[c], fragments[i]) as int)
    ensures forall r, c :: 0 <= r < |fragments| && r != i && 0 <= c < |fragments| ==> m[r, c] == old(m[r, c])
  {
    for j := 0 to |fragments|
      invariant forall c :: 0 <= c < j ==> m[i, c] == -(Lev(fragments[c], fragments[i]) as int)
      invariant forall r, c :: 0 <= r < |fragments| && r != i && 0 <= c < |fragments| ==> m[r, c] == old(m[r, c])
    {
      m[i, j] := -(Lev(fragments[j], fragments[i]) as int);
    }
  }

  /** `compute_distance_matrix`: row `i` holds the negated distances from
    * every fragment to fragment `i`. Consequently the diagonal is 0, the
    * matrix is symmetric, no entry is positive, and an entry is 0 exactly
    * when the two fragments are equal. */
  method ComputeDistanceMatrix(fragments: seq<string>) returns (m: array2<int>)
    ensures m.Length0 == |fragments| && m.Length1 == |fragments|
    ensures forall i, j :: 0 <= i < |fragments| && 0 <= j < |fragments| ==>
              m[i, j] == -(Lev(fragments[j], fragments[i]) as int)
    ensures forall i :: 0 <= i < |fragments| ==> m[i, i] == 0
    ensures forall i, j :: 0 <= i < |fragments| && 0 <= j < |fragments| ==>
              m[i, j] == m[j, i] && m[i, j] <= 0
    ensures forall i, j :: 0 <= i < |fragments| && 0 <= j < |fragments| ==>
              (m[i, j] == 0 <==> fragments[i] == fragments[j])
  {
    var n := |fragments|;
    m := new int[n, n];
    for i := 0 to n
      invariant forall r, c :: 0 <= r < i && 0 <= c < n ==> m[r, c] == -(Lev(fragments[c], fragments[r]) as int)
    {
      FillRow(m, fragments, i);
    }
    assert forall i, j :: 0 <= i < n && 0 <= j < n ==>
             Lev(fragments[j], fragments[i]) == Lev(fragments[i], fragments[j]) &&
             (Lev(fragments[j], fragments[i]) == 0 <==> fragments[i] == fragments[j]) by {
      forall i, j | 0 <= i < n && 0 <= j < n
        ensures Lev(fragments[j], fragments[i]) == Lev(fragments[i], fragments[j])
        ensures Lev(fragments[j], fragments[i]) == 0 <==> fragments[i] == fragments[j]
      {
        LevSymmetric(fragments[i], fragments[j]);
        LevZeroIffEqual(fragments[j], fragments[i]);
      }
    }
  }
}
