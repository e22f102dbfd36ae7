// The part of pandas' `DataFrame.groupby` that DNA_fragments.py relies on:
// the group keys come out in ascending order, each once, and a group is the
// set of rows carrying its key.

module GroupBy {

  predicate StrictlyIncreasing(xs: seq<int>)
  {
    forall i, j :: 0 <= i < j < |xs| ==> xs[i] < xs[j]
  }

  /** Number of rows whose key is `g` (`len(sub)` for the group `g`). */
  function RowCount(keys: seq<int>, g: int): nat
  {
    multiset(keys)[g]
  }

  /** `x` inserted at its place in an ascending sequence of distinct keys;
    * nothing changes when `x` is already there. */
  function InsertSorted(xs: seq<int>, x: int): (r: seq<int>)
    requires StrictlyIncreasing(xs)
    ensures StrictlyIncreasing(r)
    ensures forall y :: y in r <==> y in xs || y == x
  {
    if xs == [] then [x]
    else if x < xs[0] then [x] + xs
    else if x == xs[0] then xs
    else
      var rest := InsertSorted(xs[1..], x);
      assert forall k :: 0 <= k < |xs[1..]| ==> xs[0] < xs[1..][k];
      assert forall k :: 0 <= k < |rest| ==> rest[k] in rest;
      [xs[0]] + rest
  }

  /** The keys of `df.groupby(column)`: every key that occurs, once, in
    * ascending order. */
  function GroupKeys(keys: seq<int>): (groups: seq<int>)
    ensures StrictlyIncreasing(groups)
    ensures forall g :: g in groups <==> g in keys
  {
    if keys == [] then []
    else
      var n := |keys|;
      assert keys == keys[..n - 1] + [keys[n - 1]];
      InsertSorted(GroupKeys(keys[..n - 1]), keys[n - 1])
  }

  /** The entries of `groups` that are carried by exactly one row of
    * `keys`, in the order of `groups`. */
  function KeepSingles(groups: seq<int>, keys: seq<int>): (r: seq<int>)
    ensures forall g :: g in r <==> g in groups && RowCount(keys, g) == 1
    ensures StrictlyIncreasing(groups) ==> StrictlyIncreasing(r)
  {
    if groups == [] then []
    else
      var n := |groups|;
      var prefix := groups[..n - 1];
      assert groups == prefix + [groups[n - 1]];
      var kept := KeepSingles(prefix, keys);
      assert StrictlyIncreasing(groups) ==> forall k :: 0 <= k < |kept| ==> kept[k] < groups[n - 1] by {
        if StrictlyIncreasing(groups) {
          forall k | 0 <= k < |kept| ensures kept[k] < groups[n - 1] {
            assert kept[k] in kept;
            var j :| 0 <= j < |prefix| && prefix[j] == kept[k];
          }
        }
      }
      kept + (if RowCount(keys, groups[n - 1]) == 1 then [groups[n - 1]] else [])
  }

  /** `[g for g, sub in df.groupby(column) if len(sub) == 1]` as a value:
    * the keys carried by exactly one row, ascending. */
  function Singletons(keys: seq<int>): (r: seq<int>)
    ensures StrictlyIncreasing(r)
    ensures forall g :: g in r <==> RowCount(keys, g) == 1
  {
    KeepSingles(GroupKeys(keys), keys)
  }

  /** The comprehension of `apply_aggressive_grouping`: the groups are
    * visited in key order and those of one row collected. */
  method SingletonKeys(keys: seq<int>) returns (singles: seq<int>)
    ensures singles == Singletons(keys)
  {
    var groups := GroupKeys(keys);
    singles := [];
    for i := 0 to |groups|
      invariant singles == KeepSingles(groups[..i], keys)
    {
      assert groups[..i + 1][..i] == groups[..i];
      if RowCount(keys, groups[i]) == 1 {
        singles := singles + [groups[i]];
      }
    }
    assert groups[..|groups|] == groups;
  }
}
