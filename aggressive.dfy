// `apply_aggressive_grouping` (DNA_fragments.py): the groups that ended up
// with a single row are taken in ascending id order and merged in runs of
// three, each run taking the id of its first member. Groups of two or more
// rows keep their ids.

module Aggressive {
  import opened GroupBy

  /** Position of `g` in `xs`. */
  function IndexOf(xs: seq<int>, g: int): (k: nat)
    requires g in xs
    ensures k < |xs| && xs[k] == g
  {
    if xs[0] == g then 0 else 1 + IndexOf(xs[1..], g)
  }

  /** In an ascending sequence a key sits at exactly one position. */
  lemma IndexOfUnique(xs: seq<int>, k: nat)
    requires StrictlyIncreasing(xs) && k < |xs|
    ensures IndexOf(xs, xs[k]) == k
  {
    var j := IndexOf(xs, xs[k]);
    assert xs[j] == xs[k];
  }

  /** The id a row of group `g` carries after the merge: the singleton at
    * position `k` takes the id of the singleton at position `k - k % 3`;
    * any other id is kept. */
  function MergedId(singles: seq<int>, g: int): (r: int)
    ensures g !in singles ==> r == g
    ensures g in singles ==> r in singles
  {
    if g in singles then RunHead(singles, IndexOf(singles, g)) else g
  }

  /** `df.loc[df["Group"] == gid, "Group"] = new`: every row of group
    * `gid` moves to `newId`; no other row changes. */
  method Reassign(groups: array<int>, gid: int, newId: int)
    modifies groups
    ensures forall r :: 0 <= r < groups.Length ==>
              groups[r] == if old(groups[r]) == gid then newId else old(groups[r])
  {
    for r := 0 to groups.Length
      invariant forall q :: 0 <= q < r ==>
                  groups[q] == if old(groups[q]) == gid then newId else old(groups[q])
      invariant forall q :: r <= q < groups.Length ==> groups[q] == old(groups[q])
    {
      if groups[r] == gid {
        groups[r] := newId;
      }
    }
  }

  /** The id of a row of group `g` once the first `i` singletons have been
    * visited. */
  function MergedSoFar(singles: seq<int>, i: nat, g: int): int
    requires i <= |singles|
  {
    if g in singles[..i] then MergedId(singles, g) else g
  }

  /** Visiting the `i`-th singleton changes only rows still carrying its id,
    * and only when it does not start a run; rows merged earlier carry an
    * earlier, hence smaller, id and are not touched again. */
  lemma MergeStep(singles: seq<int>, i: nat, g: int)
    requires StrictlyIncreasing(singles) && i < |singles|
    ensures MergedSoFar(singles, i + 1, g) ==
            if i % 3 != 0 && MergedSoFar(singles, i, g) == singles[i] then RunHead(singles, i)
            else MergedSoFar(singles, i, g)
  {
    IndexOfUnique(singles, i);
    assert singles[..i + 1] == singles[..i] + [singles[i]];
    if g in singles[..i] {
      var k := IndexOf(singles[..i], g);
      IndexOfUnique(singles, k);
      assert RunHead(singles, k) < singles[i];
    }
  }

  /** The `for i, gid in enumerate(singleton_groups)` loop; `newId` is the
    * source's `new`, set at the start of every run. */
  method MergeRuns(groups: array<int>, singles: seq<int>)
    requires StrictlyIncreasing(singles)
    modifies groups
    ensures forall r :: 0 <= r < groups.Length ==> groups[r] == MergedId(singles, old(groups[r]))
  {
    ghost var orig := groups[..];
    var newId := 0;
    for i := 0 to |singles|
      invariant forall r :: 0 <= r < groups.Length ==> groups[r] == MergedSoFar(singles, i, orig[r])
      invariant i > 0 ==> newId == RunHead(singles, i - 1)
    {
      var gid := singles[i];
      if i % 3 == 0 {
        newId := gid;
      } else {
        RunArithmetic(i);
        Reassign(groups, gid, newId);
      }
      forall r | 0 <= r < groups.Length ensures groups[r] == MergedSoFar(singles, i + 1, orig[r]) {
        MergeStep(singles, i, orig[r]);
      }
    }
    assert singles[..|singles|] == singles;
  }

  /** `apply_aggressive_grouping` on the `Group` column: returns the new
    * column and, as a ghost, the singleton ids it merged. Rows of groups
    * with two or more rows keep their id; the row of the singleton at
    * position `k` takes the id of the singleton at position `3 * (k / 3)`. */
  method ApplyAggressiveGrouping(groups: seq<int>) returns (merged: seq<int>, ghost singletons: seq<int>)
    ensures singletons == Singletons(groups)
    ensures StrictlyIncreasing(singletons)
    ensures forall g :: g in singletons <==> RowCount(groups, g) == 1
    ensures |merged| == |groups|
    ensures forall r :: 0 <= r < |groups| ==> merged[r] == MergedId(singletons, groups[r])
    ensures forall r :: 0 <= r < |groups| && RowCount(groups, groups[r]) != 1 ==> merged[r] == groups[r]
    ensures merged == Merged(groups)
  {
    var singles := SingletonKeys(groups);
    singletons := singles;
    var column := new int[|groups|](i requires 0 <= i < |groups| => groups[i]);
    MergeRuns(column, singles);
    merged := column[..];
  }

  /** The `Group` column after `apply_aggressive_grouping`, as a value:
    * rows of groups with two or more rows keep their id. */
  function Merged(groups: seq<int>): (r: seq<int>)
    ensures |r| == |groups|
    ensures forall i :: 0 <= i < |groups| && RowCount(groups, groups[i]) != 1 ==> r[i] == groups[i]
  {
    var singles := Singletons(groups);
    seq(|groups|, i requires 0 <= i < |groups| => MergedId(singles, groups[i]))
  }

  // ---------------------------------------------------------------------
  // What the merge does to the set of ids

  /** Id of the run that the singleton at position `k` belongs to: a run
    * starts at every position divisible by 3 with that singleton's id, and
    * in an ascending list a run's id is never above a member's own. */
  function RunHead(singles: seq<int>, k: nat): (r: int)
    requires k < |singles|
    ensures k % 3 == 0 ==> r == singles[k]
    ensures StrictlyIncreasing(singles) ==> r <= singles[k]
  {
    singles[k - k % 3]
  }

  /** Ids of the runs formed by the first `n` singletons. */
  ghost function RunHeads(singles: seq<int>, n: nat): set<int>
    requires n <= |singles|
  {
    if n == 0 then {} else RunHeads(singles, n - 1) + {RunHead(singles, n - 1)}
  }

  /** Arithmetic of runs of three: position `k` starts a run exactly when
    * `k % 3 == 0`, and only then does the number of runs grow. */
  lemma RunArithmetic(k: nat)
    ensures k % 3 != 0 ==> k - 1 - (k - 1) % 3 == k - k % 3
    ensures k % 3 == 0 ==> (k + 3) / 3 == (k + 2) / 3 + 1
    ensures k % 3 != 0 ==> (k + 3) / 3 == (k + 2) / 3
  {
  }

  /** `RunHeads` holds exactly the run ids of the first `n` singletons. */
  lemma {:induction false} RunHeadsMembers(singles: seq<int>, n: nat)
    requires n <= |singles|
    ensures forall k :: 0 <= k < n ==> RunHead(singles, k) in RunHeads(singles, n)
    ensures forall h :: h in RunHeads(singles, n) ==> exists k :: 0 <= k < n && RunHead(singles, k) == h
  {
    if n > 0 {
      RunHeadsMembers(singles, n - 1);
    }
  }

  /** Every run id among the first `k` singletons is smaller than the
    * `k`-th singleton. */
  lemma RunHeadsBelow(singles: seq<int>, k: nat)
    requires StrictlyIncreasing(singles) && k < |singles|
    ensures forall h :: h in RunHeads(singles, k) ==> h < singles[k]
  {
    RunHeadsMembers(singles, k);
    forall h | h in RunHeads(singles, k) ensures h < singles[k] {
      var j :| 0 <= j < k && RunHead(singles, j) == h;
    }
  }

  /** The first `n` singletons form `ceil(n / 3)` runs with distinct ids. */
  lemma {:induction false} RunHeadsCount(singles: seq<int>, n: nat)
    requires StrictlyIncreasing(singles) && n <= |singles|
    ensures |RunHeads(singles, n)| == (n + 2) / 3
  {
    if n > 0 {
      var k := n - 1;
      RunHeadsCount(singles, k);
      RunArithmetic(k);
      var head := RunHead(singles, k);
      assert RunHeads(singles, n) == RunHeads(singles, k) + {head};
      if k % 3 == 0 {
        RunHeadsBelow(singles, k);
        assert |RunHeads(singles, n)| == |RunHeads(singles, k)| + 1;
      } else {
        assert RunHead(singles, k - 1) == head;
        assert head in RunHeads(singles, k);
        assert RunHeads(singles, n) == RunHeads(singles, k);
      }
    }
  }

  /** The `s` singleton groups become `ceil(s / 3)` groups, each named
    * after a former singleton. */
  lemma MergedSingletonCount(singles: seq<int>)
    requires StrictlyIncreasing(singles)
    ensures (set g | g in singles :: MergedId(singles, g)) == RunHeads(singles, |singles|)
    ensures |set g | g in singles :: MergedId(singles, g)| == (|singles| + 2) / 3
  {
    var merged := set g | g in singles :: MergedId(singles, g);
    var heads := RunHeads(singles, |singles|);
    assert merged <= heads by {
      RunHeadsMembers(singles, |singles|);
      forall h | h in merged ensures h in heads {
        var g :| g in singles && MergedId(singles, g) == h;
        var k := IndexOf(singles, g);
        assert RunHead(singles, k) == h;
      }
    }
    assert heads <= merged by {
      RunHeadsMembers(singles, |singles|);
      forall h | h in heads ensures h in merged {
        var k :| 0 <= k < |singles| && RunHead(singles, k) == h;
        IndexOfUnique(singles, k);
        assert MergedId(singles, singles[k]) == h;
      }
    }
    RunHeadsCount(singles, |singles|);
  }

  /** The merge introduces no new id: every id after it was an id before. */
  lemma MergedIdsWereIds(singles: seq<int>, groups: seq<int>, g: int)
    requires StrictlyIncreasing(singles)
    requires forall h :: h in singles ==> h in groups
    requires g in groups
    ensures MergedId(singles, g) in groups
    ensures MergedId(singles, g) <= g
  {
    if g in singles {
      var k := IndexOf(singles, g);
      assert RunHead(singles, k) in singles;
      if k % 3 != 0 {
        assert singles[k - k % 3] < singles[k];
      }
    }
  }
}
