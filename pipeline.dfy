// The list-level steps of `pipeline` (DNA_fragments.py) between reading the
// CSV and writing the grouped table: upper-casing, the two length filters,
// distance matrix and clustering, grouping, the optional aggressive merge,
// the per-group aggregation and the add-back of large fragments, then the
// cut-site rewrite and padding of every row.

module Pipeline {
  import opened Text
  import opened Frames
  import opened GroupBy
  import opened Levenshtein
  import opened Grouping
  import opened Aggressive
  import opened CutSites

  // ---------------------------------------------------------------------
  // Upper-casing (`x.astype(str).str.upper()` on every column)

  /** ASCII upper-casing of one character. */
  function UpperChar(c: char): char
  {
    if 'a' <= c <= 'z' then (c as int - 32) as char else c
  }

  predicate IsLower(c: char)
  {
    'a' <= c <= 'z'
  }

  /** `str.upper()` on the ASCII letters: same length, no lower-case letter
    * left, and every character that is not a lower-case letter kept. */
  function Upper(s: string): (r: string)
    ensures |r| == |s|
    ensures forall i :: 0 <= i < |r| ==> !IsLower(r[i])
    ensures forall i :: 0 <= i < |r| && !IsLower(s[i]) ==> r[i] == s[i]
  {
    seq(|s|, i requires 0 <= i < |s| => UpperChar(s[i]))
  }

  /** Upper-casing twice is upper-casing once. */
  lemma UpperIdempotent(s: string)
    ensures Upper(Upper(s)) == Upper(s)
  {
  }

  /** Upper-casing changes exactly the lower-case letters: a text without
    * one comes back unchanged, and a text with one does not. */
  lemma UpperFixesExactlyUpper(s: string)
    ensures Upper(s) == s <==> forall i :: 0 <= i < |s| ==> !IsLower(s[i])
  {
    if Upper(s) == s {
      forall i | 0 <= i < |s| ensures !IsLower(s[i]) {
        assert Upper(s)[i] == s[i];
      }
    }
  }

  /** Line 153: every column of a row upper-cased; each keeps its length
    * and the sequence has no lower-case letter left. */
  function UpperFragment(f: Fragment): (r: Fragment)
    ensures |r.name| == |f.name| && |r.author| == |f.author| && |r.sequence| == |f.sequence|
    ensures forall k :: 0 <= k < |r.sequence| ==> !IsLower(r.sequence[k])
  {
    Fragment(Upper(f.name), Upper(f.author), Upper(f.sequence))
  }

  function UpperAll(df: seq<Fragment>): (r: seq<Fragment>)
    ensures |r| == |df|
    ensures forall i :: 0 <= i < |r| ==> |r[i].sequence| == |df[i].sequence|
    ensures forall i, k :: 0 <= i < |r| && 0 <= k < |r[i].sequence| ==> !IsLower(r[i].sequence[k])
  {
    seq(|df|, i requires 0 <= i < |df| => UpperFragment(df[i]))
  }

  // ---------------------------------------------------------------------
  // The two length filters

  /** Line 154: fragments of 400 characters or more are added back on their
    * own; every fragment too long to be grouped is among them. */
  predicate IsLarge(f: Fragment)
    ensures |f.sequence| >= MaxLength ==> IsLarge(f)
  {
    |f.sequence| >= 400
  }

  /** Line 156: fragments shorter than `MAX_LENGTH` are clustered and
    * grouped; every fragment too short to be added back is among them. */
  predicate IsShort(f: Fragment)
    ensures |f.sequence| < 400 ==> IsShort(f)
  {
    |f.sequence| < MaxLength
  }

  /** `df[mask]`: the rows that satisfy `keep`, in their original order. */
  function Filter(df: seq<Fragment>, keep: Fragment -> bool): (r: seq<Fragment>)
    ensures |r| <= |df|
    ensures forall i :: 0 <= i < |r| ==> keep(r[i])
  {
    if df == [] then []
    else
      var n := |df|;
      Filter(df[..n - 1], keep) + (if keep(df[n - 1]) then [df[n - 1]] else [])
  }

  /** The mask keeps every row that satisfies `keep`, as often as it
    * occurs, and no other row. */
  lemma {:induction false} FilterCounts(df: seq<Fragment>, keep: Fragment -> bool)
    ensures forall f :: multiset(Filter(df, keep))[f] == if keep(f) then multiset(df)[f] else 0
  {
    if df != [] {
      var n := |df|;
      FilterCounts(df[..n - 1], keep);
      assert df == df[..n - 1] + [df[n - 1]];
    }
  }

  /** The last row is kept or dropped after the rows before it. */
  lemma FilterLast(df: seq<Fragment>, keep: Fragment -> bool)
    requires df != []
    ensures Filter(df, keep) == Filter(df[..|df| - 1], keep) + (if keep(df[|df| - 1]) then [df[|df| - 1]] else [])
  {
  }

  /** Filtering a concatenation filters each part: row order is kept. */
  lemma {:induction false} FilterAppend(a: seq<Fragment>, b: seq<Fragment>, keep: Fragment -> bool)
    ensures Filter(a + b, keep) == Filter(a, keep) + Filter(b, keep)
  {
    if b != [] {
      var n := |b|;
      FilterAppend(a, b[..n - 1], keep);
      var ab := a + b;
      assert ab[..|ab| - 1] == a + b[..n - 1] && ab[|ab| - 1] == b[n - 1];
      var tail := if keep(b[n - 1]) then [b[n - 1]] else [];
      FilterLast(ab, keep);
      FilterLast(b, keep);
      var fa, fb := Filter(a, keep), Filter(b[..n - 1], keep);
      assert (fa + fb) + tail == fa + (fb + tail);
    } else {
      assert a + b == a;
    }
  }

  /** A fragment of 400 to 498 characters passes both filters: it is grouped
    * with others and also added back as a group of its own. */
  lemma BothFilters(df: seq<Fragment>, f: Fragment)
    requires f in df && 400 <= |f.sequence| < MaxLength
    ensures f in Filter(df, IsLarge) && f in Filter(df, IsShort)
  {
    FilterCounts(df, IsLarge);
    FilterCounts(df, IsShort);
    assert multiset(df)[f] > 0;
  }

  /** A fragment of 499 characters or more is never grouped; one shorter
    * than 400 is never added back. */
  lemma FilterSplit(df: seq<Fragment>, f: Fragment)
    requires f in df
    ensures f in Filter(df, IsShort) <==> |f.sequence| < MaxLength
    ensures f in Filter(df, IsLarge) <==> |f.sequence| >= 400
  {
    FilterCounts(df, IsLarge);
    FilterCounts(df, IsShort);
    assert multiset(df)[f] > 0;
  }

  function Sequences(df: seq<Fragment>): (r: seq<string>)
    ensures |r| == |df|
  {
    seq(|df|, i requires 0 <= i < |df| => df[i].sequence)
  }

  // ---------------------------------------------------------------------
  // The `Group` column and the aggregation of line 178

  /** `group_labels.astype(int)`: a row never labelled carries whatever
    * integer `garbage(i)` stands for. */
  function GroupColumn(labels: seq<Label>, garbage: nat -> int): (ids: seq<int>)
    ensures |ids| == |labels|
    ensures forall i :: 0 <= i < |labels| && labels[i].Group? ==> ids[i] == labels[i].id
    ensures forall i :: 0 <= i < |labels| && labels[i] == Unset ==> ids[i] == garbage(i)
    ensures forall i, j :: 0 <= i < |labels| && 0 <= j < |labels| && labels[i].Group? && labels[j].Group? ==>
              (ids[i] == ids[j] <==> labels[i] == labels[j])
  {
    seq(|labels|, i requires 0 <= i < |labels| => if labels[i].Group? then labels[i].id as int else garbage(i))
  }

  /** `"".join` of the sequences of the rows of group `g`, in row order. */
  function Joined(rows: seq<Fragment>, groups: seq<int>, g: int): (r: string)
    requires |rows| == |groups|
    ensures forall c :: c in r ==> exists i :: 0 <= i < |rows| && groups[i] == g && c in rows[i].sequence
  {
    if rows == [] then []
    else
      var n := |rows|;
      Joined(rows[..n - 1], groups[..n - 1], g) + (if groups[n - 1] == g then rows[n - 1].sequence else [])
  }

  /** `list` of the names of the rows of group `g`, in row order. */
  function Names(rows: seq<Fragment>, groups: seq<int>, g: int): (r: seq<string>)
    requires |rows| == |groups|
    ensures forall s :: s in r ==> exists i :: 0 <= i < |rows| && groups[i] == g && rows[i].name == s
  {
    if rows == [] then []
    else
      var n := |rows|;
      Names(rows[..n - 1], groups[..n - 1], g) + (if groups[n - 1] == g then [rows[n - 1].name] else [])
  }

  /** The join follows row order: joining two runs of rows is joining the
    * first run, then the second. */
  lemma {:induction false} JoinedAppend(a: seq<Fragment>, ga: seq<int>, b: seq<Fragment>, gb: seq<int>, g: int)
    requires |a| == |ga| && |b| == |gb|
    ensures Joined(a + b, ga + gb, g) == Joined(a, ga, g) + Joined(b, gb, g)
    decreases |b|
  {
    if b == [] {
      assert a + b == a && ga + gb == ga;
    } else {
      var n := |b|;
      assert (a + b)[..|a| + n - 1] == a + b[..n - 1];
      assert (ga + gb)[..|ga| + n - 1] == ga + gb[..n - 1];
      JoinedAppend(a, ga, b[..n - 1], gb[..n - 1], g);
    }
  }

  /** The name list follows row order: listing two runs of rows is listing
    * the first run, then the second. */
  lemma {:induction false} NamesAppend(a: seq<Fragment>, ga: seq<int>, b: seq<Fragment>, gb: seq<int>, g: int)
    requires |a| == |ga| && |b| == |gb|
    ensures Names(a + b, ga + gb, g) == Names(a, ga, g) + Names(b, gb, g)
    decreases |b|
  {
    if b == [] {
      assert a + b == a && ga + gb == ga;
    } else {
      var n := |b|;
      assert (a + b)[..|a| + n - 1] == a + b[..n - 1];
      assert (ga + gb)[..|ga| + n - 1] == ga + gb[..n - 1];
      NamesAppend(a, ga, b[..n - 1], gb[..n - 1], g);
    }
  }

  /** The row of group `g` in the aggregated table, with `Length` set from
    * the joined sequence (line 180). */
  function AggregateRow(rows: seq<Fragment>, groups: seq<int>, g: int): (r: GroupRow)
    requires |rows| == |groups|
    ensures r.group == g && r.length == |r.sequence|
    ensures |r.names| == RowCount(groups, g)
  {
    NamesCount(rows, groups, g);
    var joined := Joined(rows, groups, g);
    GroupRow(g, joined, Names(rows, groups, g), |joined|)
  }

  /** `df.groupby("Group").agg(...).reset_index()`: one row per group id, in
    * ascending id order. */
  function Aggregated(rows: seq<Fragment>, groups: seq<int>): (r: seq<GroupRow>)
    requires |rows| == |groups|
    ensures |r| == |GroupKeys(groups)|
    ensures forall i, j :: 0 <= i < j < |r| ==> r[i].group < r[j].group
    ensures forall g :: (exists i :: 0 <= i < |r| && r[i].group == g) <==> g in groups
    ensures forall i :: 0 <= i < |r| ==> r[i] == AggregateRow(rows, groups, r[i].group)
  {
    var keys := GroupKeys(groups);
    var r := seq(|keys|, i requires 0 <= i < |keys| => AggregateRow(rows, groups, keys[i]));
    assert forall i :: 0 <= i < |r| ==> r[i].group == keys[i];
    assert forall g :: g in keys ==> exists i :: 0 <= i < |r| && r[i].group == g by {
      forall g | g in keys ensures exists i :: 0 <= i < |r| && r[i].group == g {
        var i :| 0 <= i < |keys| && keys[i] == g;
        assert r[i].group == g;
      }
    }
    r
  }

  /** A group lists exactly as many names as it has rows. */
  lemma {:induction false} NamesCount(rows: seq<Fragment>, groups: seq<int>, g: int)
    requires |rows| == |groups|
    ensures |Names(rows, groups, g)| == RowCount(groups, g)
  {
    if rows != [] {
      var n := |rows|;
      NamesCount(rows[..n - 1], groups[..n - 1], g);
      assert groups == groups[..n - 1] + [groups[n - 1]];
    }
  }

  /** Every row's name is listed in its group, and its sequence occurs in
    * the group's joined sequence. */
  lemma {:induction false} RowInItsGroup(rows: seq<Fragment>, groups: seq<int>, k: nat)
    requires |rows| == |groups| && k < |rows|
    ensures rows[k].name in Names(rows, groups, groups[k])
    ensures exists a :: MatchAt(Joined(rows, groups, groups[k]), rows[k].sequence, a)
  {
    var n := |rows|;
    var g := groups[k];
    var prefix := Joined(rows[..n - 1], groups[..n - 1], g);
    var joined := Joined(rows, groups, g);
    if k == n - 1 {
      MatchAtEnd(prefix, rows[k].sequence);
    } else {
      RowInItsGroup(rows[..n - 1], groups[..n - 1], k);
      var a :| MatchAt(prefix, rows[k].sequence, a);
      MatchExtends(prefix, if groups[n - 1] == g then rows[n - 1].sequence else [], rows[k].sequence, a);
    }
  }

  /** A group of one row is that row: its sequence and its name. */
  lemma {:induction false} SingleRowGroup(rows: seq<Fragment>, groups: seq<int>, k: nat)
    requires |rows| == |groups| && k < |rows|
    requires forall i :: 0 <= i < |rows| && i != k ==> groups[i] != groups[k]
    ensures Joined(rows, groups, groups[k]) == rows[k].sequence
    ensures Names(rows, groups, groups[k]) == [rows[k].name]
  {
    var n := |rows|;
    var g := groups[k];
    if k == n - 1 {
      NoRowsNoGroup(rows[..n - 1], groups[..n - 1], g);
    } else {
      SingleRowGroup(rows[..n - 1], groups[..n - 1], k);
    }
  }

  lemma {:induction false} NoRowsNoGroup(rows: seq<Fragment>, groups: seq<int>, g: int)
    requires |rows| == |groups| && g !in groups
    ensures Joined(rows, groups, g) == [] && Names(rows, groups, g) == []
  {
    if rows != [] {
      var n := |rows|;
      NoRowsNoGroup(rows[..n - 1], groups[..n - 1], g);
    }
  }

  // ---------------------------------------------------------------------
  // Adding back the large fragments (lines 183-200)

  /** `grouped["Group"].max()`, or 0 for an empty table. */
  function MaxGroup(grouped: seq<GroupRow>): (m: int)
    ensures forall i :: 0 <= i < |grouped| ==> grouped[i].group <= m
    ensures grouped != [] ==> exists i :: 0 <= i < |grouped| && grouped[i].group == m
    ensures grouped == [] ==> m == 0
  {
    if grouped == [] then 0
    else if |grouped| == 1 then grouped[0].group
    else
      var rest := MaxGroup(grouped[1..]);
      assert forall i :: 1 <= i < |grouped| ==> grouped[i] == grouped[1..][i - 1];
      if grouped[0].group >= rest then grouped[0].group else rest
  }

  /** The rows appended for the large fragments: the `j`-th gets id
    * `base + j + 1`, above `base` and above every row before it, its own
    * sequence, its name alone and `Length` its sequence's length. */
  function LargeRows(large: seq<Fragment>, base: int): (r: seq<GroupRow>)
    ensures |r| == |large|
    ensures forall j :: 0 <= j < |r| ==>
              && base < r[j].group && r[j].sequence == large[j].sequence
              && r[j].names == [large[j].name] && r[j].length == |r[j].sequence|
    ensures forall i, j :: 0 <= i < j < |r| ==> r[i].group < r[j].group
  {
    seq(|large|, j requires 0 <= j < |large| =>
      GroupRow(base + j + 1, large[j].sequence, [large[j].name], |large[j].sequence|))
  }

  /** The loop of lines 184-200: `max_group` grows by one per large fragment
    * and a one-row group is appended for it. */
  method AddLarge(grouped: seq<GroupRow>, large: seq<Fragment>) returns (out: seq<GroupRow>)
    ensures out == grouped + LargeRows(large, MaxGroup(grouped))
  {
    var base := MaxGroup(grouped);
    var maxGroup := base;
    out := grouped;
    for j := 0 to |large|
      invariant maxGroup == base + j
      invariant out == grouped + LargeRows(large[..j], base)
    {
      var f := large[j];
      maxGroup := maxGroup + 1;
      assert LargeRows(large[..j + 1], base) == LargeRows(large[..j], base) + [GroupRow(maxGroup, f.sequence, [f.name], |f.sequence|)];
      out := out + [GroupRow(maxGroup, f.sequence, [f.name], |f.sequence|)];
    }
    assert large[..|large|] == large;
  }

  predicate DistinctGroups(rows: seq<GroupRow>)
  {
    forall i, j :: 0 <= i < j < |rows| ==> rows[i].group != rows[j].group
  }

  /** Every added id lies above every id before it in the table, so a table
    * with distinct ids keeps them distinct. */
  lemma AddedIdsFresh(grouped: seq<GroupRow>, large: seq<Fragment>)
    requires DistinctGroups(grouped)
    ensures var all := grouped + LargeRows(large, MaxGroup(grouped));
            && DistinctGroups(all)
            && forall j, i :: |grouped| <= j < |all| && 0 <= i < j ==> all[i].group < all[j].group
  {
    var base := MaxGroup(grouped);
    var added := LargeRows(large, base);
    var all := grouped + added;
    forall j, i | |grouped| <= j < |all| && 0 <= i < j ensures all[i].group < all[j].group {
      assert all[j] == added[j - |grouped|];
      if i >= |grouped| {
        assert all[i] == added[i - |grouped|];
      } else {
        assert all[i].group <= base;
      }
    }
    forall i, j | 0 <= i < j < |all| ensures all[i].group != all[j].group {
      if j < |grouped| {
        assert all[i] == grouped[i] && all[j] == grouped[j];
      }
    }
  }

  /** The row lists `name` in its `Name` column. */
  predicate Lists(row: GroupRow, name: string)
  {
    name in row.names
  }

  /** One of the first `n` rows lists `name`. */
  predicate ListedWithin(rows: seq<GroupRow>, n: int, name: string)
  {
    exists i :: 0 <= i < n && i < |rows| && Lists(rows[i], name)
  }

  /** Every row of the input is listed by name in the row of its group. */
  lemma AggregatedListsRow(rows: seq<Fragment>, groups: seq<int>, k: nat)
    requires |rows| == |groups| && k < |rows|
    ensures var r := Aggregated(rows, groups);
            exists i :: 0 <= i < |r| && r[i].group == groups[k] && Lists(r[i], rows[k].name)
  {
    var r := Aggregated(rows, groups);
    assert groups[k] in groups;
    var i :| 0 <= i < |r| && r[i].group == groups[k];
    RowInItsGroup(rows, groups, k);
    assert Lists(r[i], rows[k].name);
  }

  // ---------------------------------------------------------------------
  // The whole pipeline

  /** The upper-cased rows kept for clustering and grouping: each
    * upper-cased row shorter than `MAX_LENGTH`, as often as it occurs. */
  function ShortOf(input: seq<Fragment>): (r: seq<Fragment>)
    ensures |r| <= |input|
    ensures forall f :: multiset(r)[f] == if IsShort(f) then multiset(UpperAll(input))[f] else 0
  {
    FilterCounts(UpperAll(input), IsShort);
    Filter(UpperAll(input), IsShort)
  }

  /** The upper-cased rows added back on their own: each upper-cased row of
    * 400 characters or more, as often as it occurs. */
  function LargeOf(input: seq<Fragment>): (r: seq<Fragment>)
    ensures |r| <= |input|
    ensures forall f :: multiset(r)[f] == if IsLarge(f) then multiset(UpperAll(input))[f] else 0
  {
    FilterCounts(UpperAll(input), IsLarge);
    Filter(UpperAll(input), IsLarge)
  }

  /** The similarity matrix as rows: entry `(i, j)` is minus the edit
    * distance between fragments `j` and `i`. */
  function SimilarityRows(f: seq<string>): (m: seq<seq<int>>)
    ensures |m| == |f|
  {
    seq(|f|, i requires 0 <= i < |f| => seq(|f|, j requires 0 <= j < |f| => -(Lev(f[j], f[i]) as int)))
  }

  /** The `Group` column of the short fragments once grouped and, when
    * `aggressive`, merged. */
  function ShortIds(short: seq<Fragment>, aggressive: bool, cluster: seq<seq<int>> -> seq<int>,
                    garbage: nat -> int): (ids: seq<int>)
    requires forall m: seq<seq<int>> :: |cluster(m)| == |m|
    ensures |ids| == |short|
  {
    var f := Sequences(short);
    var column := GroupColumn(Grouped(f, cluster(SimilarityRows(f)), MaxLength), garbage);
    if aggressive then Merged(column) else column
  }

  /** The table before the cut-site rewrite: the aggregated short fragments,
    * listing each of them, then one row per large fragment with an id above
    * every earlier one. */
  function Assembled(input: seq<Fragment>, aggressive: bool, cluster: seq<seq<int>> -> seq<int>,
                     garbage: nat -> int): (r: seq<GroupRow>)
    requires forall m: seq<seq<int>> :: |cluster(m)| == |m|
    ensures DistinctGroups(r)
    ensures LaidOut(ShortOf(input), |GroupKeys(ShortIds(ShortOf(input), aggressive, cluster, garbage))|, LargeOf(input), r)
  {
    var short := ShortOf(input);
    var ids := ShortIds(short, aggressive, cluster, garbage);
    var grouped := Aggregated(short, ids);
    AggregatedListsAll(short, ids);
    KeptAssembly(short, grouped, LargeOf(input), grouped + LargeRows(LargeOf(input), MaxGroup(grouped)));
    grouped + LargeRows(LargeOf(input), MaxGroup(grouped))
  }

  /** Lines 159-180 on the short fragments: similarity matrix, clustering,
    * `group_fragments`, the optional aggressive merge and the aggregation.
    * The AffinityPropagation labels are `cluster` applied to the similarity
    * matrix; unlabelled rows carry `garbage(i)`. AffinityPropagation needs
    * at least one sample. The table has one row per group id, ids
    * ascending, and lists every short fragment by name. */
  method GroupShort(short: seq<Fragment>, aggressive: bool, cluster: seq<seq<int>> -> seq<int>,
                    garbage: nat -> int)
    returns (grouped: seq<GroupRow>)
    requires |short| > 0
    requires forall m: seq<seq<int>> :: |cluster(m)| == |m|
    ensures grouped == Aggregated(short, ShortIds(short, aggressive, cluster, garbage))
    ensures forall i, j :: 0 <= i < j < |grouped| ==> grouped[i].group < grouped[j].group
    ensures forall i :: 0 <= i < |grouped| ==> grouped[i].length == |grouped[i].sequence|
    ensures forall k :: 0 <= k < |short| ==> ListedWithin(grouped, |grouped|, short[k].name)
  {
    var fragments := Sequences(short);
    var n := |fragments|;
    var sim := ComputeDistanceMatrix(fragments);
    var simRows := seq(n, i requires 0 <= i < n reads sim =>
                          seq(n, j requires 0 <= j < n reads sim => sim[i, j]));
    forall i | 0 <= i < n ensures simRows[i] == SimilarityRows(fragments)[i] {
      assert forall j :: 0 <= j < n ==> simRows[i][j] == SimilarityRows(fragments)[i][j];
    }
    assert simRows == SimilarityRows(fragments);
    var clusters := cluster(simRows);

    var labels;
    ghost var passes;
    labels, passes := GroupFragments(fragments, clusters, MaxLength);
    var ids := GroupColumn(labels, garbage);
    if aggressive {
      ghost var singletons;
      ids, singletons := ApplyAggressiveGrouping(ids);
    }
    grouped := Aggregated(short, ids);
    AggregatedListsAll(short, ids);
  }

  /** The table after `replace_cut_sites_and_pad`: ids and names are kept,
    * and every row is at least `PadBelow` long with `Length` its
    * sequence's length. */
  lemma ProcessedTable(grouped: seq<GroupRow>, pool: nat -> string, out: seq<GroupRow>)
    requires forall i: nat :: |pool(i)| >= MinLength
    requires |out| == |grouped|
    requires forall i :: 0 <= i < |out| ==> out[i] == ProcessedRow(grouped[i], pool(i))
    ensures forall i :: 0 <= i < |out| ==> out[i].group == grouped[i].group && out[i].names == grouped[i].names
    ensures DistinctGroups(grouped) ==> DistinctGroups(out)
    ensures forall i :: 0 <= i < |out| ==> out[i].length == |out[i].sequence| && out[i].length >= PadBelow
  {
  }

  /** Every row of the input is listed by name in some row of the
    * aggregated table. */
  lemma AggregatedListsAll(rows: seq<Fragment>, groups: seq<int>)
    requires |rows| == |groups|
    ensures var r := Aggregated(rows, groups);
            && DistinctGroups(r)
            && forall k :: 0 <= k < |rows| ==> ListedWithin(r, |r|, rows[k].name)
  {
    var r := Aggregated(rows, groups);
    forall k | 0 <= k < |rows| ensures ListedWithin(r, |r|, rows[k].name) {
      AggregatedListsRow(rows, groups, k);
      var i :| 0 <= i < |r| && r[i].group == groups[k] && Lists(r[i], rows[k].name);
    }
  }

  /** Rewriting the rows while keeping their names keeps every fragment
    * listed in the first `n` rows. */
  lemma ListedKept(rows: seq<GroupRow>, n: nat, listed: seq<Fragment>, table: seq<GroupRow>)
    requires n <= |rows| == |table|
    requires forall i :: 0 <= i < n ==> table[i].names == rows[i].names
    requires forall k :: 0 <= k < |listed| ==> ListedWithin(rows, n, listed[k].name)
    ensures forall k :: 0 <= k < |listed| ==> ListedWithin(table, n, listed[k].name)
  {
    forall k | 0 <= k < |listed| ensures ListedWithin(table, n, listed[k].name) {
      assert ListedWithin(rows, n, listed[k].name);
      var i :| 0 <= i < n && i < |rows| && Lists(rows[i], listed[k].name);
      assert Lists(table[i], listed[k].name);
    }
  }

  /** A table of distinct ids with the large fragments added, then
    * rewritten keeping ids and names: ids stay distinct, and each large
    * fragment has its own row, named after it alone, with an id above
    * every id before it. */
  lemma LargeRowsKept(grouped: seq<GroupRow>, large: seq<Fragment>, table: seq<GroupRow>)
    requires DistinctGroups(grouped)
    requires var all := grouped + LargeRows(large, MaxGroup(grouped));
             |table| == |all| && forall i :: 0 <= i < |all| ==> table[i].group == all[i].group && table[i].names == all[i].names
    ensures DistinctGroups(table)
    ensures |table| == |grouped| + |large|
    ensures forall i :: |grouped| <= i < |table| ==>
              && table[i].names == [large[i - |grouped|].name]
              && forall h :: 0 <= h < i ==> table[h].group < table[i].group
  {
    var added := LargeRows(large, MaxGroup(grouped));
    var all := grouped + added;
    AddedIdsFresh(grouped, large);
    forall i | |grouped| <= i < |table| ensures table[i].names == [large[i - |grouped|].name] {
      assert all[i] == added[i - |grouped|];
    }
  }

  /** The layout of a table built from `g` group rows of the fragments of
    * `short` and the rows of `large`: the group rows first,
    * listing every short fragment by name, then one row per large
    * fragment, named after it alone, with an id above every id before
    * it. */
  predicate LaidOut(short: seq<Fragment>, g: nat, large: seq<Fragment>, table: seq<GroupRow>)
  {
    && |table| == g + |large|
    && (forall k :: 0 <= k < |short| ==> ListedWithin(table, g, short[k].name))
    && forall i :: g <= i < |table| ==>
         && table[i].names == [large[i - g].name]
         && forall h :: 0 <= h < i ==> table[h].group < table[i].group
  }

  /** A table that keeps the ids and names of `grouped` (distinct ids,
    * listing every fragment of `short`) followed by the rows of `large` has
    * distinct ids and the layout `LaidOut` describes. */
  lemma KeptAssembly(short: seq<Fragment>, grouped: seq<GroupRow>, large: seq<Fragment>, table: seq<GroupRow>)
    requires DistinctGroups(grouped)
    requires forall k :: 0 <= k < |short| ==> ListedWithin(grouped, |grouped|, short[k].name)
    requires var t := grouped + LargeRows(large, MaxGroup(grouped));
             |table| == |t| && forall i :: 0 <= i < |t| ==> table[i].group == t[i].group && table[i].names == t[i].names
    ensures DistinctGroups(table)
    ensures LaidOut(short, |grouped|, large, table)
  {
    var all := grouped + LargeRows(large, MaxGroup(grouped));
    LargeRowsKept(grouped, large, table);
    forall i | 0 <= i < |grouped| ensures all[i] == grouped[i] {
    }
    ListedKept(all, |grouped|, short, table);
  }

  /** The written table: one row per group of short fragments first,
    * listing each short fragment by name, then one row per large fragment,
    * named after it alone, with an id above every id before it. Ids are
    * distinct, and every row is at least 300 characters long with `Length`
    * its sequence's length. */
  lemma WrittenTable(input: seq<Fragment>, aggressive: bool, cluster: seq<seq<int>> -> seq<int>,
                     garbage: nat -> int, pool: nat -> string, table: seq<GroupRow>)
    requires forall m: seq<seq<int>> :: |cluster(m)| == |m|
    requires forall i: nat :: |pool(i)| >= MinLength
    requires var t := Assembled(input, aggressive, cluster, garbage);
             |table| == |t| && forall i :: 0 <= i < |t| ==> table[i] == ProcessedRow(t[i], pool(i))
    ensures LaidOut(ShortOf(input), |GroupKeys(ShortIds(ShortOf(input), aggressive, cluster, garbage))|, LargeOf(input), table)
    ensures DistinctGroups(table)
    ensures forall i :: 0 <= i < |table| ==> table[i].length == |table[i].sequence| && table[i].length >= PadBelow
  {
    var short := ShortOf(input);
    var ids := ShortIds(short, aggressive, cluster, garbage);
    ProcessedTable(Assembled(input, aggressive, cluster, garbage), pool, table);
    AggregatedListsAll(short, ids);
    KeptAssembly(short, Aggregated(short, ids), LargeOf(input), table);
  }

  /** `pipeline` from the parsed CSV rows to what `_worker` reports; row `i`
    * of the final table draws its padding from `pool(i)`. With no short
    * fragment AffinityPropagation raises and no table is written;
    * otherwise the table written is `Assembled` with every row processed,
    * and `WrittenTable` says what it holds. */
  method Pipeline(input: seq<Fragment>, aggressive: bool, cluster: seq<seq<int>> -> seq<int>,
                  garbage: nat -> int, pool: nat -> string)
    returns (out: Outcome)
    requires forall m: seq<seq<int>> :: |cluster(m)| == |m|
    requires forall i: nat :: |pool(i)| >= MinLength
    ensures out.Failed? <==> ShortOf(input) == []
    ensures out.Written? ==>
              var t := Assembled(input, aggressive, cluster, garbage);
              |out.table| == |t| && forall i :: 0 <= i < |t| ==> out.table[i] == ProcessedRow(t[i], pool(i))
    ensures out.Written? ==>
              LaidOut(ShortOf(input), |GroupKeys(ShortIds(ShortOf(input), aggressive, cluster, garbage))|,
                      LargeOf(input), out.table)
    ensures out.Written? ==>
              && DistinctGroups(out.table)
              && forall i :: 0 <= i < |out.table| ==>
                   out.table[i].length == |out.table[i].sequence| && out.table[i].length >= PadBelow
  {
    var short := ShortOf(input);
    var large := LargeOf(input);
    if short == [] {
      return Failed;
    }
    var grouped := GroupShort(short, aggressive, cluster, garbage);
    var all := AddLarge(grouped, large);
    var table := ReplaceCutSitesAndPad(all, pool);
    WrittenTable(input, aggressive, cluster, garbage, pool, table);
    out := Written(table);
  }
}
