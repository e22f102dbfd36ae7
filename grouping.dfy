// `group_fragments` (DNA_fragments.py): the greedy, pass-based packer that
// turns clustered fragments into synthesis groups. Each pass walks the rows
// in order and adds every fragment not yet used to the current group while
// the group has fewer than three members, its summed length stays within
// `max_length` and the fragment's cluster is new to the group. "Used" is a
// set of sequence TEXTS, so of several rows with the same text at most one
// is ever labelled.

module Grouping {

  /** Fragments at least this long that reach an empty group get a group of their own. */
  const OverLong: nat := 500
  /** Default `max_length` (MAX_LENGTH). */
  const MaxLength: nat := 499
  /** Largest number of fragments in one group. */
  const GroupCap: nat := 3

  /** One slot of `group_labels`. `Unset` stands for whatever `np.empty`
    * left in a slot that is never written. */
  datatype Label = Unset | Group(id: nat)

  /** Number of rows labelled `g`. */
  function GroupSize(labels: seq<Label>, g: nat): nat
  {
    if labels == [] then 0
    else GroupSize(labels[..|labels| - 1], g) + (if labels[|labels| - 1] == Group(g) then 1 else 0)
  }

  /** Summed sequence length of the rows labelled `g`. */
  function GroupLength(seqs: seq<string>, labels: seq<Label>, g: nat): nat
    requires |seqs| == |labels|
  {
    if labels == [] then 0
    else GroupLength(seqs[..|seqs| - 1], labels[..|labels| - 1], g)
         + (if labels[|labels| - 1] == Group(g) then |seqs[|seqs| - 1]| else 0)
  }

  /** Number of rows that carry a label. */
  function LabelledCount(labels: seq<Label>): nat
  {
    if labels == [] then 0
    else LabelledCount(labels[..|labels| - 1]) + (if labels[|labels| - 1].Group? then 1 else 0)
  }

  /** A fragment that a pass can always place when it meets an empty group. */
  predicate Placeable(s: string, maxLength: nat)
  {
    |s| <= maxLength || |s| >= OverLong
  }

  predicate AllDistinct(seqs: seq<string>)
  {
    forall i, j :: 0 <= i < j < |seqs| ==> seqs[i] != seqs[j]
  }

  // ---------------------------------------------------------------------
  // Bookkeeping lemmas about the counting functions

  /** Writing a label into an unset slot adds that row to exactly one group. */
  lemma {:induction false} LabelStep(seqs: seq<string>, labels: seq<Label>, k: nat, c: nat)
    requires |seqs| == |labels| && k < |labels| && labels[k] == Unset
    ensures forall g :: GroupSize(labels[k := Group(c)], g) == GroupSize(labels, g) + (if g == c then 1 else 0)
    ensures forall g :: GroupLength(seqs, labels[k := Group(c)], g) == GroupLength(seqs, labels, g) + (if g == c then |seqs[k]| else 0)
    ensures LabelledCount(labels[k := Group(c)]) == LabelledCount(labels) + 1
    decreases |labels|
  {
    var n := |labels|;
    var updated := labels[k := Group(c)];
    if k == n - 1 {
      assert updated[..n - 1] == labels[..n - 1];
    } else {
      LabelStep(seqs[..n - 1], labels[..n - 1], k, c);
      assert updated[..n - 1] == labels[..n - 1][k := Group(c)];
    }
  }

  /** A group with no rows has size and length 0, and conversely. */
  lemma {:induction false} EmptyGroup(seqs: seq<string>, labels: seq<Label>, g: nat)
    requires |seqs| == |labels|
    ensures GroupSize(labels, g) == 0 <==> forall i :: 0 <= i < |labels| ==> labels[i] != Group(g)
    ensures GroupSize(labels, g) == 0 ==> GroupLength(seqs, labels, g) == 0
    decreases |labels|
  {
    if labels != [] {
      var n := |labels|;
      EmptyGroup(seqs[..n - 1], labels[..n - 1], g);
      assert forall i :: 0 <= i < n - 1 ==> labels[..n - 1][i] == labels[i];
    }
  }

  /** `LabelledCount` reaches the row count exactly when every row is labelled. */
  lemma {:induction false} LabelledCountFull(labels: seq<Label>)
    ensures LabelledCount(labels) <= |labels|
    ensures LabelledCount(labels) == |labels| <==> forall i :: 0 <= i < |labels| ==> labels[i].Group?
    ensures LabelledCount(labels) == 0 <==> forall i :: 0 <= i < |labels| ==> labels[i] == Unset
    decreases |labels|
  {
    if labels != [] {
      var n := |labels|;
      LabelledCountFull(labels[..n - 1]);
      assert forall i :: 0 <= i < n - 1 ==> labels[..n - 1][i] == labels[i];
    }
  }

  lemma {:induction false} NothingLabelled(seqs: seq<string>, labels: seq<Label>)
    requires |seqs| == |labels|
    requires forall i :: 0 <= i < |labels| ==> labels[i] == Unset
    ensures LabelledCount(labels) == 0
    ensures forall g :: GroupSize(labels, g) == 0 && GroupLength(seqs, labels, g) == 0
  {
    LabelledCountFull(labels);
    forall g ensures GroupSize(labels, g) == 0 && GroupLength(seqs, labels, g) == 0 {
      EmptyGroup(seqs, labels, g);
    }
  }

  // ---------------------------------------------------------------------
  // The packer as functions: the specification the methods below meet

  /** The variables of `group_fragments` during a pass: the labels, the
    * used texts, `group_counter`, and the accumulators `group`,
    * `total_length` and `clusters` of the current group. */
  datatype PassState = PassState(labels: seq<Label>, used: set<string>, counter: nat,
                                 group: seq<string>, totalLength: nat, clusterSet: set<int>)

  /** The join test of `group_fragments`: the group has room, the summed
    * length stays within `maxLength` and the cluster is new to the group.
    * A fresh group accepts exactly the fragments within `maxLength`, and a
    * full group accepts none. */
  predicate Fits(seqs: seq<string>, clusters: seq<int>, maxLength: nat, idx: nat,
                 group: seq<string>, totalLength: nat, clusterSet: set<int>)
    requires idx < |seqs| == |clusters|
    ensures group == [] && totalLength == 0 && clusterSet == {} ==>
              (Fits(seqs, clusters, maxLength, idx, group, totalLength, clusterSet) <==> |seqs[idx]| <= maxLength)
    ensures |group| >= GroupCap ==> !Fits(seqs, clusters, maxLength, idx, group, totalLength, clusterSet)
  {
    |group| < GroupCap && totalLength + |seqs[idx]| <= maxLength && clusters[idx] !in clusterSet
  }

  /** One visit of row `idx`. It changes no other slot and never shrinks
    * the used set or the accumulators of the current group. */
  function Visit(seqs: seq<string>, clusters: seq<int>, maxLength: nat, st: PassState, idx: nat): (r: PassState)
    requires idx < |seqs| == |clusters| == |st.labels|
    ensures |r.labels| == |st.labels|
    ensures forall k :: 0 <= k < |st.labels| && k != idx ==> r.labels[k] == st.labels[k]
    ensures st.used <= r.used && |st.group| <= |r.group| && st.totalLength <= r.totalLength && st.clusterSet <= r.clusterSet
  {
    var frag := seqs[idx];
    if frag in st.used then st
    else if Fits(seqs, clusters, maxLength, idx, st.group, st.totalLength, st.clusterSet) then
      PassState(st.labels[idx := Group(st.counter)], st.used + {frag}, st.counter,
                st.group + [frag], st.totalLength + |frag|, st.clusterSet + {clusters[idx]})
    else if |st.group| == 0 && |frag| >= OverLong then
      st.(labels := st.labels[idx := Group(st.counter)], used := st.used + {frag}, counter := st.counter + 1)
    else st
  }

  /** The state after visiting rows `0 .. k - 1` in order. */
  function PassUpTo(seqs: seq<string>, clusters: seq<int>, maxLength: nat, st: PassState, k: nat): (r: PassState)
    requires k <= |seqs| == |clusters| == |st.labels|
    ensures |r.labels| == |st.labels|
  {
    if k == 0 then st else Visit(seqs, clusters, maxLength, PassUpTo(seqs, clusters, maxLength, st, k - 1), k - 1)
  }

  /** One pass of the `while` loop: an empty group, every row visited, then
    * `group_counter` advanced. */
  function Pass(seqs: seq<string>, clusters: seq<int>, maxLength: nat, labels: seq<Label>, used: set<string>,
                counter: nat): (r: PassState)
    requires |labels| == |seqs| == |clusters|
    ensures |r.labels| == |labels|
  {
    var e := PassUpTo(seqs, clusters, maxLength, PassState(labels, used, counter, [], 0, {}), |seqs|);
    e.(counter := e.counter + 1)
  }

  /** What the `while` loop hands back: the labels and the number of
    * passes it ran. */
  datatype Packing = Packing(labels: seq<Label>, passes: nat)

  /** The `while` loop from pass number `iter` on: it stops once every text
    * is used, or after the pass that takes the pass count above `3 * n`. */
  function Loop(seqs: seq<string>, clusters: seq<int>, maxLength: nat, labels: seq<Label>, used: set<string>,
                counter: nat, iter: nat): (r: Packing)
    requires |labels| == |seqs| == |clusters| && iter <= 3 * |seqs|
    ensures |r.labels| == |labels|
    ensures iter <= r.passes <= 3 * |seqs| + 1
    decreases 3 * |seqs| - iter
  {
    if |used| >= |seqs| then Packing(labels, iter)
    else
      var p := Pass(seqs, clusters, maxLength, labels, used, counter);
      if iter + 1 > 3 * |seqs| then Packing(p.labels, iter + 1)
      else Loop(seqs, clusters, maxLength, p.labels, p.used, p.counter, iter + 1)
  }

  /** The labels and pass count `group_fragments` computes. */
  function Packed(seqs: seq<string>, clusters: seq<int>, maxLength: nat): (r: Packing)
    requires |clusters| == |seqs|
    ensures |r.labels| == |seqs|
    ensures r.passes <= 3 * |seqs| + 1
  {
    Loop(seqs, clusters, maxLength, seq(|seqs|, _ => Unset), {}, 0, 0)
  }

  /** The labels `group_fragments` computes. */
  function Grouped(seqs: seq<string>, clusters: seq<int>, maxLength: nat): (r: seq<Label>)
    requires |clusters| == |seqs|
    ensures |r| == |seqs|
  {
    Packed(seqs, clusters, maxLength).labels
  }

  // ---------------------------------------------------------------------
  // Greedy maximality and stability of a pass

  /** Failing the join test stays failed while the group grows. */
  lemma FitsAntitone(seqs: seq<string>, clusters: seq<int>, maxLength: nat, idx: nat,
                     small: PassState, big: PassState)
    requires idx < |seqs| == |clusters|
    requires |small.group| <= |big.group| && small.totalLength <= big.totalLength && small.clusterSet <= big.clusterSet
    requires !Fits(seqs, clusters, maxLength, idx, small.group, small.totalLength, small.clusterSet)
    ensures !Fits(seqs, clusters, maxLength, idx, big.group, big.totalLength, big.clusterSet)
  {
  }

  /** After visiting rows `0 .. k - 1`, none of them that is still unset
    * with an unused text would pass the join test of the current group. */
  lemma {:induction false} PrefixMaximal(seqs: seq<string>, clusters: seq<int>, maxLength: nat, st: PassState, k: nat)
    requires k <= |seqs| == |clusters| == |st.labels|
    ensures var e := PassUpTo(seqs, clusters, maxLength, st, k);
            forall j :: 0 <= j < k && e.labels[j] == Unset && seqs[j] !in e.used ==>
              !Fits(seqs, clusters, maxLength, j, e.group, e.totalLength, e.clusterSet)
  {
    if k > 0 {
      PrefixMaximal(seqs, clusters, maxLength, st, k - 1);
      var s := PassUpTo(seqs, clusters, maxLength, st, k - 1);
      var e := Visit(seqs, clusters, maxLength, s, k - 1);
      forall j | 0 <= j < k && e.labels[j] == Unset && seqs[j] !in e.used
        ensures !Fits(seqs, clusters, maxLength, j, e.group, e.totalLength, e.clusterSet)
      {
        if j < k - 1 {
          FitsAntitone(seqs, clusters, maxLength, j, s, e);
        }
      }
    }
  }

  /** Greedy maximality of a pass: once it ends, every row left unlabelled
    * whose text is still unused would break the size, length or cluster
    * test of the group the pass built. */
  lemma PassIsMaximal(seqs: seq<string>, clusters: seq<int>, maxLength: nat, labels: seq<Label>,
                      used: set<string>, counter: nat)
    requires |labels| == |seqs| == |clusters|
    ensures var p := Pass(seqs, clusters, maxLength, labels, used, counter);
            forall j :: 0 <= j < |seqs| && p.labels[j] == Unset && seqs[j] !in p.used ==>
              !Fits(seqs, clusters, maxLength, j, p.group, p.totalLength, p.clusterSet)
  {
    PrefixMaximal(seqs, clusters, maxLength, PassState(labels, used, counter, [], 0, {}), |seqs|);
  }

  /** Every labelled row has a used text. */
  predicate LabelsUsed(seqs: seq<string>, labels: seq<Label>, used: set<string>)
    requires |labels| == |seqs|
  {
    forall i :: 0 <= i < |labels| && labels[i].Group? ==> seqs[i] in used
  }

  /** A row labelled before a pass keeps its label: its text is used, so
    * every visit skips it. */
  lemma {:induction false} PassKeepsLabels(seqs: seq<string>, clusters: seq<int>, maxLength: nat, st: PassState, k: nat)
    requires k <= |seqs| == |clusters| == |st.labels|
    requires LabelsUsed(seqs, st.labels, st.used)
    ensures var e := PassUpTo(seqs, clusters, maxLength, st, k);
            && (forall i :: 0 <= i < |st.labels| && st.labels[i].Group? ==> e.labels[i] == st.labels[i])
            && LabelsUsed(seqs, e.labels, e.used)
  {
    if k > 0 {
      PassKeepsLabels(seqs, clusters, maxLength, st, k - 1);
    }
  }

  // ---------------------------------------------------------------------
  // What the packer keeps true

  /** Every labelled row carries an id up to `counter` and a used text. */
  ghost predicate Bounded(seqs: seq<string>, labels: seq<Label>, used: set<string>, counter: nat)
    requires |labels| == |seqs|
  {
    && LabelsUsed(seqs, labels, used)
    && forall i :: 0 <= i < |labels| && labels[i].Group? ==> labels[i].id <= counter
  }

  /** Two rows of one group come from different clusters. */
  ghost predicate ClustersApart(clusters: seq<int>, labels: seq<Label>)
    requires |labels| == |clusters|
  {
    forall i, j :: 0 <= i < |labels| && 0 <= j < |labels| && i != j && labels[i].Group? && labels[i] == labels[j] ==>
      clusters[i] != clusters[j]
  }

  /** Two labelled rows carry different texts. */
  ghost predicate TextsApart(seqs: seq<string>, labels: seq<Label>)
    requires |labels| == |seqs|
  {
    forall i, j :: 0 <= i < |labels| && 0 <= j < |labels| && i != j && labels[i].Group? && labels[j].Group? ==>
      seqs[i] != seqs[j]
  }

  /** No group holds more than `GroupCap` rows. */
  ghost predicate Capped(labels: seq<Label>)
  {
    forall g :: GroupSize(labels, g) <= GroupCap
  }

  /** Group `g` is one over-long fragment on its own. */
  ghost predicate Lone(seqs: seq<string>, labels: seq<Label>, g: nat)
    requires |labels| == |seqs|
  {
    GroupSize(labels, g) == 1 && exists i :: 0 <= i < |labels| && labels[i] == Group(g) && |seqs[i]| >= OverLong
  }

  /** Every group has a summed length within `maxLength` or is a lone
    * over-long fragment. */
  ghost predicate WithinLength(seqs: seq<string>, labels: seq<Label>, maxLength: nat)
    requires |labels| == |seqs|
  {
    forall g :: GroupLength(seqs, labels, g) <= maxLength || Lone(seqs, labels, g)
  }

  /** What holds of the labels written so far, with `counter` the current
    * `group_counter`. */
  ghost predicate Consistent(seqs: seq<string>, clusters: seq<int>, labels: seq<Label>, used: set<string>,
                             counter: nat, maxLength: nat)
  {
    && |labels| == |seqs| == |clusters|
    && Bounded(seqs, labels, used, counter)
    && |used| == LabelledCount(labels)
    && ClustersApart(clusters, labels)
    && TextsApart(seqs, labels)
    && Capped(labels)
    && WithinLength(seqs, labels, maxLength)
  }

  /** The accumulators of the current pass (`group`, `total_length`,
    * `clusters`) describe the rows labelled `counter`. */
  ghost predicate CurrentGroup(seqs: seq<string>, clusters: seq<int>, labels: seq<Label>, counter: nat,
                               group: seq<string>, totalLength: nat, clusterSet: set<int>)
    requires |labels| == |seqs| == |clusters|
  {
    && GroupSize(labels, counter) == |group|
    && GroupLength(seqs, labels, counter) == totalLength
    && (forall i :: 0 <= i < |labels| && labels[i] == Group(counter) ==> clusters[i] in clusterSet)
    && (|group| == 0 ==> totalLength == 0 && clusterSet == {})
  }

  /** The invariant of a pass state. */
  ghost predicate Sound(seqs: seq<string>, clusters: seq<int>, maxLength: nat, st: PassState)
  {
    && Consistent(seqs, clusters, st.labels, st.used, st.counter, maxLength)
    && CurrentGroup(seqs, clusters, st.labels, st.counter, st.group, st.totalLength, st.clusterSet)
  }

  /** With pairwise distinct texts, a used text belongs to a labelled row. */
  ghost predicate UsedMeansLabelled(seqs: seq<string>, labels: seq<Label>, used: set<string>)
    requires |labels| == |seqs|
  {
    forall i :: 0 <= i < |labels| && seqs[i] in used ==> labels[i].Group?
  }

  predicate AllPlaceable(seqs: seq<string>, maxLength: nat)
  {
    forall i :: 0 <= i < |seqs| ==> Placeable(seqs[i], maxLength)
  }

  /** Labelling the unused row `idx` with `c`: the row was unset, the text
    * becomes used, the counts move by one and the texts of labelled rows
    * stay distinct. */
  lemma Mark(seqs: seq<string>, clusters: seq<int>, labels: seq<Label>, used: set<string>, counter: nat,
             maxLength: nat, idx: nat, c: nat, counter': nat)
    requires Consistent(seqs, clusters, labels, used, counter, maxLength)
    requires idx < |labels| && seqs[idx] !in used && counter <= counter' && c <= counter'
    ensures labels[idx] == Unset
    ensures var labels' := labels[idx := Group(c)];
            var used' := used + {seqs[idx]};
            && Bounded(seqs, labels', used', counter')
            && |used'| == LabelledCount(labels') == LabelledCount(labels) + 1
            && TextsApart(seqs, labels')
            && (forall g :: GroupSize(labels', g) == GroupSize(labels, g) + (if g == c then 1 else 0))
            && (forall g :: GroupLength(seqs, labels', g) == GroupLength(seqs, labels, g) + (if g == c then |seqs[idx]| else 0))
            && (AllDistinct(seqs) && UsedMeansLabelled(seqs, labels, used) ==> UsedMeansLabelled(seqs, labels', used'))
  {
    LabelStep(seqs, labels, idx, c);
  }

  /** A row added to group `c` whose cluster is new to it keeps the
    * clusters of every group apart. */
  lemma StepClusters(clusters: seq<int>, labels: seq<Label>, idx: nat, c: nat, clusterSet: set<int>)
    requires |labels| == |clusters| && idx < |labels| && labels[idx] == Unset
    requires ClustersApart(clusters, labels)
    requires forall i :: 0 <= i < |labels| && labels[i] == Group(c) ==> clusters[i] in clusterSet
    requires clusters[idx] !in clusterSet
    ensures ClustersApart(clusters, labels[idx := Group(c)])
  {
    var labels' := labels[idx := Group(c)];
    forall i, j | 0 <= i < |labels'| && 0 <= j < |labels'| && i != j && labels'[i].Group? && labels'[i] == labels'[j]
      ensures clusters[i] != clusters[j]
    {
      if j == idx {
        assert labels[i] == Group(c);
      } else if i == idx {
        assert labels[j] == Group(c);
      } else {
        assert labels[i] == labels[j];
      }
    }
  }

  /** A row added to a group below the cap keeps every group within it. */
  lemma StepCap(labels: seq<Label>, labels': seq<Label>, c: nat)
    requires Capped(labels) && GroupSize(labels, c) < GroupCap
    requires forall g :: GroupSize(labels', g) == GroupSize(labels, g) + (if g == c then 1 else 0)
    ensures Capped(labels')
  {
    forall g ensures GroupSize(labels', g) <= GroupCap {
      assert GroupSize(labels, g) <= GroupCap;
    }
  }

  /** A row added to group `c` keeps every group within the length bound or
    * lone, provided group `c` stays within it or was empty and the row is
    * over-long. */
  lemma StepLength(seqs: seq<string>, labels: seq<Label>, maxLength: nat, idx: nat, c: nat)
    requires |labels| == |seqs| && idx < |labels| && labels[idx] == Unset
    requires WithinLength(seqs, labels, maxLength)
    requires forall g :: GroupSize(labels[idx := Group(c)], g) == GroupSize(labels, g) + (if g == c then 1 else 0)
    requires forall g :: GroupLength(seqs, labels[idx := Group(c)], g) ==
                         GroupLength(seqs, labels, g) + (if g == c then |seqs[idx]| else 0)
    requires GroupLength(seqs, labels, c) + |seqs[idx]| <= maxLength ||
             (GroupSize(labels, c) == 0 && |seqs[idx]| >= OverLong)
    ensures WithinLength(seqs, labels[idx := Group(c)], maxLength)
  {
    var labels' := labels[idx := Group(c)];
    forall g ensures GroupLength(seqs, labels', g) <= maxLength || Lone(seqs, labels', g) {
      if g == c {
        if GroupLength(seqs, labels, c) + |seqs[idx]| > maxLength {
          assert labels'[idx] == Group(g);
        }
      } else if GroupLength(seqs, labels, g) > maxLength {
        assert Lone(seqs, labels, g);
        var i :| 0 <= i < |labels| && labels[i] == Group(g) && |seqs[i]| >= OverLong;
        assert labels'[i] == Group(g);
      }
    }
  }

  /** The first branch of a visit: the fragment joins the current group. */
  lemma Join(seqs: seq<string>, clusters: seq<int>, maxLength: nat, st: PassState, idx: nat)
    requires Sound(seqs, clusters, maxLength, st)
    requires idx < |seqs| && seqs[idx] !in st.used
    requires Fits(seqs, clusters, maxLength, idx, st.group, st.totalLength, st.clusterSet)
    ensures st.labels[idx] == Unset
    ensures var labels' := st.labels[idx := Group(st.counter)];
            && Sound(seqs, clusters, maxLength, PassState(labels', st.used + {seqs[idx]}, st.counter,
                     st.group + [seqs[idx]], st.totalLength + |seqs[idx]|, st.clusterSet + {clusters[idx]}))
            && LabelledCount(labels') == LabelledCount(st.labels) + 1
            && (AllDistinct(seqs) && UsedMeansLabelled(seqs, st.labels, st.used) ==>
                  UsedMeansLabelled(seqs, labels', st.used + {seqs[idx]}))
  {
    var labels' := st.labels[idx := Group(st.counter)];
    Mark(seqs, clusters, st.labels, st.used, st.counter, maxLength, idx, st.counter, st.counter);
    StepClusters(clusters, st.labels, idx, st.counter, st.clusterSet);
    StepCap(st.labels, labels', st.counter);
    StepLength(seqs, st.labels, maxLength, idx, st.counter);
  }

  /** The second branch: an over-long fragment met by an empty group gets
    * `counter` to itself, and the counter moves past it. */
  lemma Solo(seqs: seq<string>, clusters: seq<int>, maxLength: nat, st: PassState, idx: nat)
    requires Sound(seqs, clusters, maxLength, st) && st.group == []
    requires idx < |seqs| && seqs[idx] !in st.used && |seqs[idx]| >= OverLong
    ensures st.labels[idx] == Unset
    ensures var labels' := st.labels[idx := Group(st.counter)];
            && Sound(seqs, clusters, maxLength, PassState(labels', st.used + {seqs[idx]}, st.counter + 1, [], 0, {}))
            && LabelledCount(labels') == LabelledCount(st.labels) + 1
            && (AllDistinct(seqs) && UsedMeansLabelled(seqs, st.labels, st.used) ==>
                  UsedMeansLabelled(seqs, labels', st.used + {seqs[idx]}))
  {
    var labels' := st.labels[idx := Group(st.counter)];
    Mark(seqs, clusters, st.labels, st.used, st.counter, maxLength, idx, st.counter, st.counter + 1);
    StepClusters(clusters, st.labels, idx, st.counter, {});
    StepCap(st.labels, labels', st.counter);
    StepLength(seqs, st.labels, maxLength, idx, st.counter);
    EmptyGroup(seqs, labels', st.counter + 1);
  }

  /** A visit keeps the invariant. */
  lemma VisitSound(seqs: seq<string>, clusters: seq<int>, maxLength: nat, st: PassState, idx: nat)
    requires idx < |seqs| && Sound(seqs, clusters, maxLength, st)
    ensures Sound(seqs, clusters, maxLength, Visit(seqs, clusters, maxLength, st, idx))
  {
    if seqs[idx] !in st.used {
      if Fits(seqs, clusters, maxLength, idx, st.group, st.totalLength, st.clusterSet) {
        Join(seqs, clusters, maxLength, st, idx);
      } else if |st.group| == 0 && |seqs[idx]| >= OverLong {
        Solo(seqs, clusters, maxLength, st, idx);
      }
    }
  }

  /** A pass prefix keeps the invariant. */
  lemma {:induction false} PassUpToSound(seqs: seq<string>, clusters: seq<int>, maxLength: nat, st: PassState, k: nat)
    requires k <= |seqs| && Sound(seqs, clusters, maxLength, st)
    ensures Sound(seqs, clusters, maxLength, PassUpTo(seqs, clusters, maxLength, st, k))
  {
    if k > 0 {
      PassUpToSound(seqs, clusters, maxLength, st, k - 1);
      VisitSound(seqs, clusters, maxLength, PassUpTo(seqs, clusters, maxLength, st, k - 1), k - 1);
    }
  }

  /** The group is empty and so are its accumulators. */
  predicate EmptyAccumulators(st: PassState)
  {
    st.group == [] && st.totalLength == 0 && st.clusterSet == {}
  }

  /** Rows `i < k` that were unset in `before` and carry a label in
    * `after`. */
  predicate Gained(before: seq<Label>, after: seq<Label>, k: nat)
  {
    exists i :: 0 <= i < k && i < |before| && i < |after| && !before[i].Group? && after[i].Group?
  }

  /** Labelling rows never lowers the count, and labelling a new row raises
    * it. */
  lemma {:induction false} LabelledCountGrows(a: seq<Label>, b: seq<Label>)
    requires |a| == |b|
    requires forall i :: 0 <= i < |a| && a[i].Group? ==> b[i].Group?
    ensures LabelledCount(a) <= LabelledCount(b)
    ensures Gained(a, b, |a|) ==> LabelledCount(a) < LabelledCount(b)
    decreases |a|
  {
    if a != [] {
      var n := |a|;
      assert forall i :: 0 <= i < n - 1 ==> a[..n - 1][i] == a[i] && b[..n - 1][i] == b[i];
      LabelledCountGrows(a[..n - 1], b[..n - 1]);
      if Gained(a, b, n) {
        var i :| 0 <= i < n && i < |a| && i < |b| && !a[i].Group? && b[i].Group?;
        if i < n - 1 {
          assert Gained(a[..n - 1], b[..n - 1], n - 1);
        }
      }
    }
  }

  /** With distinct texts, a visit keeps every used text labelled. */
  lemma VisitLabels(seqs: seq<string>, clusters: seq<int>, maxLength: nat, st: PassState, idx: nat)
    requires idx < |seqs| == |clusters| == |st.labels|
    requires AllDistinct(seqs) && UsedMeansLabelled(seqs, st.labels, st.used)
    ensures var r := Visit(seqs, clusters, maxLength, st, idx);
            UsedMeansLabelled(seqs, r.labels, r.used)
  {
  }

  /** A pass prefix either leaves the state as it was or has labelled some
    * row that was unset. */
  lemma {:induction false} PassUpToChange(seqs: seq<string>, clusters: seq<int>, maxLength: nat, st: PassState, k: nat)
    requires k <= |seqs| == |clusters| == |st.labels| && LabelsUsed(seqs, st.labels, st.used)
    ensures var e := PassUpTo(seqs, clusters, maxLength, st, k);
            e == st || Gained(st.labels, e.labels, k)
  {
    if k > 0 {
      var s := PassUpTo(seqs, clusters, maxLength, st, k - 1);
      var e := Visit(seqs, clusters, maxLength, s, k - 1);
      PassUpToChange(seqs, clusters, maxLength, st, k - 1);
      if s == st {
        if e != st {
          assert !st.labels[k - 1].Group? && e.labels[k - 1].Group?;
          assert Gained(st.labels, e.labels, k);
        }
      } else {
        var i :| 0 <= i < k - 1 && i < |st.labels| && i < |s.labels| && !st.labels[i].Group? && s.labels[i].Group?;
        assert e.labels[i] == s.labels[i];
        assert Gained(st.labels, e.labels, k);
      }
    }
  }

  /** A pass that starts with an empty group and reaches an unset,
    * placeable row whose text is unused labels some unset row: that row
    * itself, unless an earlier one was labelled first. */
  lemma {:induction false} PassUpToGains(seqs: seq<string>, clusters: seq<int>, maxLength: nat, st: PassState,
                                         j: nat, k: nat)
    requires j < k <= |seqs| == |clusters| == |st.labels| && LabelsUsed(seqs, st.labels, st.used)
    requires EmptyAccumulators(st) && seqs[j] !in st.used && Placeable(seqs[j], maxLength)
    ensures Gained(st.labels, PassUpTo(seqs, clusters, maxLength, st, k).labels, k)
  {
    var s := PassUpTo(seqs, clusters, maxLength, st, k - 1);
    var e := Visit(seqs, clusters, maxLength, s, k - 1);
    if k - 1 == j {
      PassUpToChange(seqs, clusters, maxLength, st, j);
      if s == st {
        assert !st.labels[j].Group? && e.labels[j].Group?;
        assert Gained(st.labels, e.labels, k);
        return;
      }
    } else {
      PassUpToGains(seqs, clusters, maxLength, st, j, k - 1);
    }
    var i :| 0 <= i < k - 1 && i < |st.labels| && i < |s.labels| && !st.labels[i].Group? && s.labels[i].Group?;
    assert e.labels[i] == s.labels[i];
    assert Gained(st.labels, e.labels, k);
  }

  /** With distinct texts, a pass prefix keeps every used text labelled. */
  lemma {:induction false} PassUpToUsed(seqs: seq<string>, clusters: seq<int>, maxLength: nat, st: PassState, k: nat)
    requires k <= |seqs| == |clusters| == |st.labels|
    requires AllDistinct(seqs) && UsedMeansLabelled(seqs, st.labels, st.used)
    ensures var e := PassUpTo(seqs, clusters, maxLength, st, k);
            UsedMeansLabelled(seqs, e.labels, e.used)
  {
    if k > 0 {
      PassUpToUsed(seqs, clusters, maxLength, st, k - 1);
      VisitLabels(seqs, clusters, maxLength, PassUpTo(seqs, clusters, maxLength, st, k - 1), k - 1);
    }
  }

  /** The state at the top of the `while` loop: consistent labels and no
    * row yet labelled with the current `group_counter`. */
  ghost predicate PassStart(seqs: seq<string>, clusters: seq<int>, maxLength: nat, labels: seq<Label>,
                            used: set<string>, counter: nat)
  {
    Sound(seqs, clusters, maxLength, PassState(labels, used, counter, [], 0, {}))
  }

  /** Advancing `group_counter` past a consistent pass state starts the
    * next pass consistently: no row carries the new id yet. */
  lemma CloseGroup(seqs: seq<string>, clusters: seq<int>, maxLength: nat, e: PassState)
    requires Sound(seqs, clusters, maxLength, e)
    ensures PassStart(seqs, clusters, maxLength, e.labels, e.used, e.counter + 1)
  {
    EmptyGroup(seqs, e.labels, e.counter + 1);
  }

  /** A pass keeps the invariant and never lowers the number of labelled
    * rows. */
  lemma PassSound(seqs: seq<string>, clusters: seq<int>, maxLength: nat, labels: seq<Label>, used: set<string>,
                  counter: nat)
    requires PassStart(seqs, clusters, maxLength, labels, used, counter)
    ensures var p := Pass(seqs, clusters, maxLength, labels, used, counter);
            && PassStart(seqs, clusters, maxLength, p.labels, p.used, p.counter)
            && LabelledCount(p.labels) >= LabelledCount(labels)
  {
    var st := PassState(labels, used, counter, [], 0, {});
    var e := PassUpTo(seqs, clusters, maxLength, st, |seqs|);
    PassUpToSound(seqs, clusters, maxLength, st, |seqs|);
    PassKeepsLabels(seqs, clusters, maxLength, st, |seqs|);
    LabelledCountGrows(labels, e.labels);
    CloseGroup(seqs, clusters, maxLength, e);
  }

  /** When all texts are distinct and placeable and some row is still
    * unlabelled, a pass labels at least one more row: a pass that labelled
    * nothing would have met the first unlabelled row, whose text is
    * unused, with an empty group, and placed it. */
  lemma PassProgress(seqs: seq<string>, clusters: seq<int>, maxLength: nat, labels: seq<Label>, used: set<string>,
                     counter: nat)
    requires |labels| == |seqs| == |clusters| && LabelsUsed(seqs, labels, used)
    requires AllDistinct(seqs) && AllPlaceable(seqs, maxLength) && UsedMeansLabelled(seqs, labels, used)
    ensures var p := Pass(seqs, clusters, maxLength, labels, used, counter);
            && UsedMeansLabelled(seqs, p.labels, p.used)
            && (LabelledCount(labels) < |seqs| ==> LabelledCount(p.labels) > LabelledCount(labels))
  {
    var st := PassState(labels, used, counter, [], 0, {});
    var e := PassUpTo(seqs, clusters, maxLength, st, |seqs|);
    PassUpToUsed(seqs, clusters, maxLength, st, |seqs|);
    PassKeepsLabels(seqs, clusters, maxLength, st, |seqs|);
    if LabelledCount(labels) < |seqs| {
      LabelledCountFull(labels);
      var j :| 0 <= j < |labels| && !labels[j].Group?;
      PassUpToGains(seqs, clusters, maxLength, st, j, |seqs|);
    }
    LabelledCountGrows(labels, e.labels);
  }

  /** What the labels satisfy once the `while` loop stops, either because
    * every text is used or because the pass limit was exceeded. With
    * distinct, placeable texts every pass labels a new row, so at most `n`
    * passes run and every row ends up labelled. */
  lemma {:induction false} LoopSound(seqs: seq<string>, clusters: seq<int>, maxLength: nat, labels: seq<Label>,
                                     used: set<string>, counter: nat, iter: nat)
    requires iter <= 3 * |seqs| && PassStart(seqs, clusters, maxLength, labels, used, counter)
    requires AllDistinct(seqs) && AllPlaceable(seqs, maxLength) ==>
               UsedMeansLabelled(seqs, labels, used) && iter <= LabelledCount(labels)
    ensures var r := Loop(seqs, clusters, maxLength, labels, used, counter, iter);
            && ClustersApart(clusters, r.labels)
            && Capped(r.labels)
            && WithinLength(seqs, r.labels, maxLength)
            && TextsApart(seqs, r.labels)
            && (AllDistinct(seqs) && AllPlaceable(seqs, maxLength) ==>
                  r.passes <= |seqs| && forall i :: 0 <= i < |seqs| ==> r.labels[i].Group?)
    decreases 3 * |seqs| - iter
  {
    LabelledCountFull(labels);
    if |used| < |seqs| {
      PassSound(seqs, clusters, maxLength, labels, used, counter);
      if AllDistinct(seqs) && AllPlaceable(seqs, maxLength) {
        PassProgress(seqs, clusters, maxLength, labels, used, counter);
      }
      var p := Pass(seqs, clusters, maxLength, labels, used, counter);
      LabelledCountFull(p.labels);
      if iter + 1 <= 3 * |seqs| {
        LoopSound(seqs, clusters, maxLength, p.labels, p.used, p.counter, iter + 1);
      }
    }
  }

  // ---------------------------------------------------------------------
  // The imperative packer

  /** One step of a pass, the body of the row loop of `group_fragments`:
    * row `idx` is skipped when its text is already used; otherwise it joins
    * the current group when the group has room, the summed length stays
    * within `maxLength` and its cluster is new to the group; otherwise, if
    * the group is still empty and the fragment is over-long, it gets the
    * current id to itself and the counter moves past it. Only slot `idx`
    * of the labels can change. */
  method VisitRow(seqs: seq<string>, clusters: seq<int>, maxLength: nat, groupLabels: array<Label>, idx: nat,
                  used: set<string>, counter: nat, group: seq<string>, totalLength: nat, clusterSet: set<int>)
    returns (used': set<string>, counter': nat, group': seq<string>, totalLength': nat, clusterSet': set<int>)
    requires idx < |seqs| == |clusters| == groupLabels.Length
    modifies groupLabels
    ensures PassState(groupLabels[..], used', counter', group', totalLength', clusterSet') ==
            Visit(seqs, clusters, maxLength, PassState(old(groupLabels[..]), used, counter, group, totalLength, clusterSet), idx)
    ensures forall k :: 0 <= k < groupLabels.Length && k != idx ==> groupLabels[k] == old(groupLabels[k])
    // skip: the text is already used
    ensures seqs[idx] in used ==>
              && groupLabels[..] == old(groupLabels[..]) && used' == used && counter' == counter
              && group' == group && totalLength' == totalLength && clusterSet' == clusterSet
    // join: the row takes the current id and the accumulators grow
    ensures seqs[idx] !in used && Fits(seqs, clusters, maxLength, idx, group, totalLength, clusterSet) ==>
              && groupLabels[idx] == Group(counter) && used' == used + {seqs[idx]} && counter' == counter
              && group' == group + [seqs[idx]] && totalLength' == totalLength + |seqs[idx]|
              && clusterSet' == clusterSet + {clusters[idx]}
    // alone: an over-long fragment meeting an empty group takes the id to itself
    ensures seqs[idx] !in used && !Fits(seqs, clusters, maxLength, idx, group, totalLength, clusterSet) &&
            |group| == 0 && |seqs[idx]| >= OverLong ==>
              && groupLabels[idx] == Group(counter) && used' == used + {seqs[idx]} && counter' == counter + 1
              && group' == group && totalLength' == totalLength && clusterSet' == clusterSet
    // otherwise: nothing changes
    ensures seqs[idx] !in used && !Fits(seqs, clusters, maxLength, idx, group, totalLength, clusterSet) &&
            !(|group| == 0 && |seqs[idx]| >= OverLong) ==>
              && groupLabels[..] == old(groupLabels[..]) && used' == used && counter' == counter
              && group' == group && totalLength' == totalLength && clusterSet' == clusterSet
  {
    used', counter', group', totalLength', clusterSet' := used, counter, group, totalLength, clusterSet;
    var frag := seqs[idx];
    var cluster := clusters[idx];
    if frag in used {
      return;
    }
    var fragLength := |frag|;
    if |group| < GroupCap && totalLength + fragLength <= maxLength && cluster !in clusterSet {
      group' := group + [frag];
      clusterSet' := clusterSet + {cluster};
      totalLength' := totalLength + fragLength;
      used' := used + {frag};
      groupLabels[idx] := Group(counter);
    } else if |group| == 0 && fragLength >= OverLong {
      groupLabels[idx] := Group(counter);
      counter' := counter + 1;
      used' := used + {frag};
    }
  }

  /** The row loop of one pass: every row visited in order, starting from
    * an empty group. */
  method VisitRows(seqs: seq<string>, clusters: seq<int>, maxLength: nat, groupLabels: array<Label>,
                   used: set<string>, counter: nat)
    returns (used': set<string>, counter': nat, group: seq<string>, totalLength: nat, clusterSet: set<int>)
    requires |seqs| == |clusters| == groupLabels.Length
    modifies groupLabels
    ensures PassState(groupLabels[..], used', counter', group, totalLength, clusterSet) ==
            PassUpTo(seqs, clusters, maxLength, PassState(old(groupLabels[..]), used, counter, [], 0, {}), |seqs|)
  {
    ghost var st0 := PassState(groupLabels[..], used, counter, [], 0, {});
    used', counter' := used, counter;
    group, totalLength, clusterSet := [], 0, {};
    for idx := 0 to groupLabels.Length
      invariant PassState(groupLabels[..], used', counter', group, totalLength, clusterSet) ==
                PassUpTo(seqs, clusters, maxLength, st0, idx)
    {
      used', counter', group, totalLength, clusterSet :=
        VisitRow(seqs, clusters, maxLength, groupLabels, idx, used', counter', group, totalLength, clusterSet);
    }
  }

  /** One pass of the `while` loop of `group_fragments`: start an empty
    * group, visit every row in order, then advance `group_counter`. The
    * pass computes `Pass` and keeps every label written before it. */
  method RunPass(seqs: seq<string>, clusters: seq<int>, maxLength: nat, groupLabels: array<Label>,
                 used: set<string>, counter: nat)
    returns (used': set<string>, counter': nat)
    requires |seqs| == |clusters| == groupLabels.Length
    requires LabelsUsed(seqs, groupLabels[..], used)
    modifies groupLabels
    ensures var p := Pass(seqs, clusters, maxLength, old(groupLabels[..]), used, counter);
            groupLabels[..] == p.labels && used' == p.used && counter' == p.counter
    ensures forall k :: 0 <= k < groupLabels.Length && old(groupLabels[k]).Group? ==> groupLabels[k] == old(groupLabels[k])
    ensures LabelsUsed(seqs, groupLabels[..], used')
  {
    var group, totalLength, clusterSet;
    used', counter', group, totalLength, clusterSet := VisitRows(seqs, clusters, maxLength, groupLabels, used, counter);
    PassKeepsLabels(seqs, clusters, maxLength, PassState(old(groupLabels[..]), used, counter, [], 0, {}), |seqs|);
    counter' := counter' + 1;
  }

  /** The `while` loop of `group_fragments`: passes run until every text is
    * used or the pass counter exceeds `3 * n`. */
  method RunPasses(seqs: seq<string>, clusters: seq<int>, maxLength: nat)
    returns (labels: seq<Label>, ghost passes: nat)
    requires |clusters| == |seqs|
    ensures Packing(labels, passes) == Packed(seqs, clusters, maxLength)
  {
    var n := |seqs|;
    var used := {};
    var groupLabels := new Label[n](_ => Unset);
    var counter := 0;
    var iterCounter: nat := 0;
    ghost var target := Packed(seqs, clusters, maxLength);
    assert groupLabels[..] == seq(n, _ => Unset);

    while |used| < n
      invariant iterCounter <= 3 * n
      invariant LabelsUsed(seqs, groupLabels[..], used)
      invariant Loop(seqs, clusters, maxLength, groupLabels[..], used, counter, iterCounter) == target
      decreases 3 * n - iterCounter
    {
      used, counter := RunPass(seqs, clusters, maxLength, groupLabels, used, counter);
      iterCounter := iterCounter + 1;
      if iterCounter > n * 3 {
        break;
      }
    }
    labels := groupLabels[..];
    passes := iterCounter;
  }

  /** `group_fragments`: returns the label of every row (`Unset` where the
    * source leaves `np.empty`'s value) and, as a ghost, the number of
    * passes, as `Packed` computes them. Every group holds at most three
    * rows from pairwise distinct clusters; its summed length is within
    * `maxLength` unless it is a lone over-long fragment; no two labelled
    * rows share a text; at most 3n+1 passes run. When all texts are
    * distinct and every fragment is placeable, at most n passes run and
    * every row is labelled. */
  method GroupFragments(seqs: seq<string>, clusters: seq<int>, maxLength: nat)
    returns (labels: seq<Label>, ghost passes: nat)
    requires |clusters| == |seqs|
    ensures labels == Grouped(seqs, clusters, maxLength) && passes == Packed(seqs, clusters, maxLength).passes
    ensures |labels| == |seqs|
    ensures forall i, j :: 0 <= i < |labels| && 0 <= j < |labels| && i != j && labels[i].Group? && labels[i] == labels[j] ==>
              clusters[i] != clusters[j]
    ensures forall g :: GroupSize(labels, g) <= GroupCap
    ensures forall g :: GroupLength(seqs, labels, g) <= maxLength ||
              (GroupSize(labels, g) == 1 &&
               exists i :: 0 <= i < |labels| && labels[i] == Group(g) && |seqs[i]| >= OverLong)
    ensures forall i, j :: 0 <= i < |labels| && 0 <= j < |labels| && i != j && labels[i].Group? && labels[j].Group? ==>
              seqs[i] != seqs[j]
    ensures passes <= 3 * |seqs| + 1
    ensures AllDistinct(seqs) && AllPlaceable(seqs, maxLength) ==>
              passes <= |seqs| && forall i :: 0 <= i < |labels| ==> labels[i].Group?
  {
    labels, passes := RunPasses(seqs, clusters, maxLength);
    var start := seq(|seqs|, _ => Unset);
    NothingLabelled(seqs, start);
    LoopSound(seqs, clusters, maxLength, start, {}, 0, 0);
    assert forall g :: GroupLength(seqs, labels, g) <= maxLength || Lone(seqs, labels, g);
  }
}
