# DNA fragment grouper — a Dafny model of its core

`DNA_fragments.py` prepares DNA fragments for synthesis orders. It reads
fragments `Name;Author;Sequence` and upper-cases them. It clusters the
fragments shorter than `MAX_LENGTH` = 499 by Levenshtein similarity, then
packs them greedily into groups. Each group the packer labels has at most
three fragments from distinct clusters, with a summed length up to 499
unless it is a lone fragment of 500 or more. It can then merge the
groups left with a single fragment in runs of three. Each group's sequences
are concatenated, and fragments of 400 or more are added back as groups of
their own. Finally every assembled sequence goes through four `nth_repl`
calls, each on the text the previous call left: BsmBI to BbsI, BsmBI_rev
to BbsI_rev, BsmBI to BspMI, BsmBI_rev to BspMI_rev. Each call rewrites the
second occurrence of its site counting overlaps, the one the `find` scan
reaches. It does so only when the text has at least two non-overlapping
occurrences, as `split` counts them. So `CGTCTCGTCTC` (two overlapping
BsmBI sites) is left alone. In `CGTCTCGTCTCGTCTC` the overlapping site at
5 is rewritten, not the site at 10. The sites the later calls rewrite need
not be sites of the original: the earlier calls can create them next to
the text they write. A sequence still shorter than 300 is padded to at
least 301 with random nucleotides. In the padding, each of the eight sites
is replaced once by the filler `ATCCGATGGTC`, in the listed order.

The model follows the program's own structure, one module per part:

| file | module | models |
|---|---|---|
| `text.dfy` | `Text` | `str.find`, the occurrence count behind `len(s.split(p)) - 1`, `str.replace` |
| `nth_repl.dfy` | `NthOccurrence` | `nth_repl`: its `while` loop as a method, proved against a pure specification |
| `levenshtein.dfy` | `Levenshtein` | the textbook edit distance and `compute_distance_matrix` over an `array2` |
| `grouping.dfy` | `Grouping` | `group_fragments`: passes that visit each row in order and write its label into an `array<Label>` |
| `groupby.dfy` | `GroupBy` | the ordered keys of pandas `groupby` and the singleton-group list |
| `aggressive.dfy` | `Aggressive` | `apply_aggressive_grouping`: relabelling an `array<int>` in place |
| `frames.dfy` | `Frames` | the rows of the input CSV and of the grouped table |
| `cut_sites.dfy` | `CutSites` | `replace_cut_sites_and_pad`: the per-row rewrite over an array of rows |
| `pipeline.dfy` | `Pipeline` | the list-level steps of `pipeline` between reading and writing the CSV, and whether `_worker` gets a table |

Parameters stand in for the parts the model does not compute:
- `cluster` stands for AffinityPropagation's labels on the similarity matrix.
- `garbage(i)` stands for the value `np.empty` left in an unlabelled slot.
- `pool(i)` stands for the random nucleotides drawn for row `i`.

What the code does, as the model states it:
- `apply_aggressive_grouping` takes the singleton groups in ascending id
  order and merges them in runs of three. Each run takes the id of its
  first member.
- `group_fragments` scans the rows in index order in every pass. An unused
  row joins the current group when the group has fewer than three members,
  the summed length stays within `max_length` and its cluster is new.
  Failing that, an over-long row that meets an empty group gets an id of
  its own. Any other row waits for a later pass.
- The loop gives up after `3n + 1` passes, so rows can stay unlabelled.
  Every row is labelled when all sequences are distinct and each is at
  most `max_length` or at least 500 long (`Grouping.GroupFragments`).
- With no fragment shorter than 499, the similarity matrix is empty and
  `affprop.fit` raises. `_worker` then reports the error and writes no
  table. `Pipeline.Pipeline` returns `Failed` in that case.

Rows with the same sequence text share one entry in `used_fragments`, so
at most one of them is ever labelled. Each other row keeps the value
`np.empty` left in its slot, and the aggregation uses that value as its
group id (`Pipeline.GroupColumn`).

## Model

| member | source | states |
|---|---|---|
| Text.Find | DNA_fragments.py:34 | `s.find(pat, start)` is -1 or a position at or after `start` where `pat` occurs |
| Text.FindIsLeftmost | DNA_fragments.py:37 | no occurrence starts between `start` and the position `find` reports, nor anywhere after `start` when it reports -1 |
| Text.FindKeepsCount | DNA_fragments.py:37 | skipping to the next found position loses no occurrence: the count from `start` equals the count from `find`'s answer, or is 0 |
| Text.MatchCountAntitone | DNA_fragments.py:37 | starting the search later never finds more occurrences |
| Text.NonOverlapCount | DNA_fragments.py:39 | the occurrences `split` cuts at, found left to right and resuming after each one, lie side by side: `r` of them take up at most `r * len(pat)` characters |
| Text.SplitCount | DNA_fragments.py:39 | `len(s.split(old)) - 1`, the count of non-overlapping occurrences scanned left to right, is at most the overlapping count |
| Text.NonOverlapAtMostMatches | DNA_fragments.py:39 | the non-overlapping count used by `split` is at most the overlapping count used by the `find` loop |
| Text.ReplaceAll | DNA_fragments.py:134 | `s.replace(p, r)` has length `len(s) + (len(s.split(p)) - 1) * (len(r) - len(p))` and only characters of `s` or `r` |
| Text.ReplaceFrom | DNA_fragments.py:134 | the left-to-right `replace` scan from `start`: never shorter than the scanned text when `rep` is not shorter than `pat`, never longer when it is not longer |
| Text.ReplaceFromChars | DNA_fragments.py:134 | `str.replace` introduces no character that is not in the text or the replacement |
| Text.ReplaceFromLength | DNA_fragments.py:134 | each replaced occurrence changes the length by `len(rep) - len(pat)` |
| Text.ReplaceFromNoMatch | DNA_fragments.py:134 | with no occurrence, `replace` returns the text unchanged |
| Text.ReplaceAllLength | DNA_fragments.py:134 | `len(s.replace(p, r)) == len(s) + (len(s.split(p)) - 1) * (len(r) - len(p))`; unchanged without occurrences; never shorter when `r` is not shorter than `p` |
| NthOccurrence.NthOverlap | DNA_fragments.py:34-38 | the position reached by `find` then `find(old, find + 1)` is -1 or an occurrence |
| NthOccurrence.NthOverlapIsNthMatch | DNA_fragments.py:34-38 | the scan reaches a position exactly when there are at least `n` occurrences counting overlaps, and then exactly `n - 1` occurrences lie before it |
| NthOccurrence.NthOverlapExists | DNA_fragments.py:39 | when the `split` guard passes, the n-th overlapping occurrence exists |
| NthOccurrence.NthReplace | DNA_fragments.py:32-41 | `nth_repl` as a function: `s` itself when there are fewer than `n` non-overlapping occurrences, otherwise a text whose length differs by `len(new) - len(old)` |
| NthOccurrence.ScanStep | DNA_fragments.py:36-38 | one more `find(old, find + 1)` from the i-th position reaches the (i+1)-th |
| NthOccurrence.NthRepl | DNA_fragments.py:32-41 | the `while` loop returns exactly `NthReplace`: the splice at the n-th occurrence when the guard passes, `s` otherwise |
| NthOccurrence.ScanDone | DNA_fragments.py:36-41 | where the loop stops decides the outcome: a valid splice position when `i == n` and the guard passes, fewer than `n` non-overlapping occurrences otherwise |
| NthOccurrence.NthReplaceRewritesNthMatch | DNA_fragments.py:34-40 | with the guard passing, the n-th overlapping occurrence is rewritten: text before it kept, `new` in its place, the rest after it, length changed by `len(new) - len(old)` |
| Levenshtein.Lev | DNA_fragments.py:57 | `distance.levenshtein`: the textbook edit distance, between the length difference and the longer length |
| Levenshtein.LevSelf | DNA_fragments.py:57 | the distance from a fragment to itself is 0 |
| Levenshtein.LevSymmetric | DNA_fragments.py:57 | the distance is symmetric |
| Levenshtein.LevZeroIffEqual | DNA_fragments.py:57 | distance 0 exactly for equal fragments |
| Levenshtein.FillRow | DNA_fragments.py:54-57 | `matrix[i] = [...]` sets row `i` to `-lev(f[j], f[i])` for every `j` and leaves the other rows alone |
| Levenshtein.ComputeDistanceMatrix | DNA_fragments.py:46-60 | an n×n matrix with `M[i][j] == -lev(f[j], f[i])`, zero diagonal, symmetric, no positive entry, 0 exactly for equal fragments |
| Grouping.LabelStep | DNA_fragments.py:93 | writing a label into an unset slot adds that row to exactly one group: its size and summed length grow, the labelled count by one |
| Grouping.EmptyGroup | DNA_fragments.py:76-78 | a group has size 0 exactly when no row carries it, and then its summed length is 0 |
| Grouping.LabelledCountFull | DNA_fragments.py:75 | the labelled count reaches the row count exactly when every row is labelled, and is 0 exactly when none is |
| Grouping.NothingLabelled | DNA_fragments.py:70-73 | the initial label array has no labelled row and every group is empty |
| Grouping.Visit | DNA_fragments.py:80-97 | one row step as a function: only slot `idx` may change, and the accumulators `used_fragments`, `group`, `total_length`, `clusters` never shrink |
| Grouping.PassUpTo | DNA_fragments.py:80-97 | the row loop run over the first `k` rows keeps one label per row |
| Grouping.Pass | DNA_fragments.py:76-98 | one pass of the `while` body keeps one label per row |
| Grouping.Loop | DNA_fragments.py:75-103 | the `while` loop from pass `iter` stops after at most `3n + 1` passes in all |
| Grouping.Packed | DNA_fragments.py:70-103 | `group_fragments` from its initial state: one label per row, at most `3n + 1` passes |
| Grouping.Grouped | DNA_fragments.py:63-106 | the label column `group_fragments` returns has one entry per row |
| Grouping.Fits | DNA_fragments.py:86-88 | the join test: a fresh group accepts exactly the fragments within `max_length`, a group of three accepts none |
| Grouping.FitsAntitone | DNA_fragments.py:87 | a row that fails the join test against a group keeps failing it once the group, its length or its cluster set has grown |
| Grouping.PrefixMaximal | DNA_fragments.py:80-97 | after the first `k` rows of a pass, every earlier row left unlabelled and unused fails the join test against the current group |
| Grouping.PassIsMaximal | DNA_fragments.py:76-98 | at the end of a pass, every row left unlabelled and unused would break the size, length or cluster test of the group being built |
| Grouping.PassKeepsLabels | DNA_fragments.py:80-97 | a row labelled before the row loop keeps its label, and every labelled row's text is in `used_fragments` |
| Grouping.Mark | DNA_fragments.py:92-93 | labelling an unused row: the text becomes used, counts move by one, texts of labelled rows stay distinct |
| Grouping.StepClusters | DNA_fragments.py:87-90 | adding a row whose cluster is not yet in the group keeps every group's clusters pairwise distinct |
| Grouping.StepCap | DNA_fragments.py:87 | adding a row to a group of fewer than 3 keeps every group at 3 or fewer |
| Grouping.StepLength | DNA_fragments.py:87-91 | a row added within `max_length` (or alone when over-long) keeps every group within `max_length` |
| Grouping.Join | DNA_fragments.py:86-93 | the join branch keeps the invariant, labels one more row and extends the accumulators `group`, `total_length`, `clusters` |
| Grouping.Solo | DNA_fragments.py:94-97 | an over-long fragment met by an empty group gets the current id alone and `group_counter` moves past it |
| Grouping.VisitSound | DNA_fragments.py:80-97 | one row step keeps the invariant: groups of at most 3 from distinct clusters, within `max_length` unless a lone over-long fragment, labelled texts distinct |
| Grouping.PassUpToSound | DNA_fragments.py:80-97 | the row loop keeps that invariant |
| Grouping.LabelledCountGrows | DNA_fragments.py:75 | labels are never removed, so the labelled count never drops, and rises when a row gains a label |
| Grouping.VisitLabels | DNA_fragments.py:83-97 | with distinct texts, a text in `used_fragments` is always that of a labelled row |
| Grouping.PassUpToChange | DNA_fragments.py:80-97 | the row loop either changes nothing or labels a row that was unlabelled |
| Grouping.PassUpToGains | DNA_fragments.py:80-97 | in a pass starting from an empty group, an unused row that fits alone guarantees that some row is labelled |
| Grouping.PassUpToUsed | DNA_fragments.py:80-97 | with distinct texts the row loop keeps every used text tied to a labelled row |
| Grouping.CloseGroup | DNA_fragments.py:98 | `group_counter += 1` at the end of a pass starts the next pass in a sound state |
| Grouping.PassSound | DNA_fragments.py:76-98 | a pass keeps the invariant and never lowers the labelled count |
| Grouping.PassProgress | DNA_fragments.py:75-98 | with distinct texts that all fit, a pass that starts with an unlabelled row labels at least one more |
| Grouping.LoopSound | DNA_fragments.py:75-103 | the loop ends with the invariant, and with distinct texts that all fit, within `n` passes with every row labelled |
| Grouping.VisitRow | DNA_fragments.py:80-97 | one row step as the `for` body: an already used text is skipped; a row that passes the join test gets `group_counter`, and its text, length and cluster join the accumulators; else an over-long row meeting an empty group gets `group_counter` alone and the counter advances; else nothing changes |
| Grouping.VisitRows | DNA_fragments.py:80-97 | the `for` loop over all rows computes `PassUpTo` over the whole table |
| Grouping.RunPass | DNA_fragments.py:76-98 | one pass computes `Pass`; rows labelled before the pass keep their labels, and labelled texts stay in `used_fragments` |
| Grouping.RunPasses | DNA_fragments.py:75-103 | the `while` loop computes `Packed`: stops with every text used or after more than 3n passes |
| Grouping.GroupFragments | DNA_fragments.py:63-106 | returns `Grouped`: groups of at most 3 rows from pairwise distinct clusters; summed length within `max_length` unless a lone fragment of 500 or more; no two labelled rows share a text; at most 3n+1 passes; with distinct texts that all fit, at most n passes and every row labelled |
| GroupBy.InsertSorted | DNA_fragments.py:111 | inserting a key into ascending distinct keys keeps them ascending and adds exactly that key |
| GroupBy.GroupKeys | DNA_fragments.py:111 | the `groupby` keys are ascending, distinct and exactly the keys that occur |
| GroupBy.KeepSingles | DNA_fragments.py:111 | filtering the keys keeps exactly those carried by one row, in their order |
| GroupBy.Singletons | DNA_fragments.py:111 | the singleton list is ascending and holds exactly the ids carried by one row |
| GroupBy.SingletonKeys | DNA_fragments.py:111 | the comprehension's loop over the `groupby` keys computes `Singletons` |
| Aggressive.IndexOfUnique | DNA_fragments.py:112 | in the ascending singleton list each id sits at exactly one position |
| Aggressive.RunHead | DNA_fragments.py:113-114 | `new` for singleton `k`: a run starts at every position divisible by 3 with that singleton's id, and in the ascending list a run's id is never above its member's |
| Aggressive.MergedId | DNA_fragments.py:112-116 | the id a group ends with: unchanged when not a singleton, otherwise the id of a singleton |
| Aggressive.Merged | DNA_fragments.py:109-117 | the `Group` column after merging: same length, rows of groups with 2 or more rows keep their id |
| Aggressive.Reassign | DNA_fragments.py:116 | `df.loc[df["Group"] == gid, "Group"] = new` moves exactly the rows of `gid` |
| Aggressive.MergeStep | DNA_fragments.py:112-116 | visiting singleton `i` relabels only rows still carrying its id, and only when it does not start a run |
| Aggressive.MergeRuns | DNA_fragments.py:112-116 | after the loop every row carries `MergedId` of its original id |
| Aggressive.ApplyAggressiveGrouping | DNA_fragments.py:109-117 | rows of groups with 2 or more rows keep their id; singleton `k` in ascending order takes the id of singleton `3 * (k / 3)` |
| Aggressive.RunHeadsMembers | DNA_fragments.py:112-114 | the run ids of the first `n` singletons are exactly the ids at positions `k - k % 3` |
| Aggressive.RunHeadsBelow | DNA_fragments.py:112-114 | every earlier run id is smaller than the current singleton |
| Aggressive.RunHeadsCount | DNA_fragments.py:112-114 | `n` singletons form `ceil(n / 3)` distinct run ids |
| Aggressive.MergedSingletonCount | DNA_fragments.py:111-116 | the `s` singleton groups become exactly `ceil(s / 3)` groups, each named after a former singleton |
| Aggressive.MergedIdsWereIds | DNA_fragments.py:116 | merging introduces no new id and never raises one |
| CutSites.Substituted | DNA_fragments.py:124-127 | the four `nth_repl` calls lengthen a sequence by 0 to 8 characters |
| CutSites.SubstitutedUnchanged | DNA_fragments.py:124-127 | at most one BsmBI and at most one BsmBI_rev site: the sequence is unchanged |
| CutSites.CleanedPadding | DNA_fragments.py:130-134 | replacing the sites in the padding never shortens it |
| CutSites.CleanedPaddingAlphabet | DNA_fragments.py:26 | padding drawn from A, T, C, G stays within A, T, C, G after cleaning |
| CutSites.CutLengths | DNA_fragments.py:21-24 | every recognition site is 6 to 9 characters long, the filler 11 |
| CutSites.FillerHasNoSite | DNA_fragments.py:130-134 | the filler `ATCCGATGGTC` contains none of the eight sites the padding is cleaned of, so a site left in cleaned padding straddles a filler |
| CutSites.Processed | DNA_fragments.py:124-135 | no padding at 300 or more; otherwise the substituted sequence is a prefix and the result has at least 301 characters; always at least 300 |
| CutSites.ProcessedRow | DNA_fragments.py:136-137 | a row keeps `Group` and `Name`; its `Length` is the new sequence's length, at least 300 |
| CutSites.ProcessSequence | DNA_fragments.py:124-135 | the four `nth_repl` calls and the padding loop compute `Processed` |
| CutSites.ReplaceCutSitesAndPad | DNA_fragments.py:120-138 | every row becomes its `ProcessedRow`: processed sequence and matching `Length`; `Group` and `Name` kept |
| Pipeline.Upper | DNA_fragments.py:153 | upper-casing keeps the length, leaves no lower-case letter and keeps every other character |
| Pipeline.UpperIdempotent | DNA_fragments.py:153 | upper-casing twice is upper-casing once |
| Pipeline.UpperFixesExactlyUpper | DNA_fragments.py:153 | a text is unchanged by upper-casing exactly when it has no lower-case letter |
| Pipeline.UpperAll | DNA_fragments.py:153 | every row keeps its length and has no lower-case letter |
| Pipeline.UpperFragment | DNA_fragments.py:153 | every column of a row keeps its length, and the sequence has no lower-case letter left |
| Pipeline.Filter | DNA_fragments.py:154-156 | a boolean mask keeps only rows that satisfy it |
| Pipeline.IsLarge | DNA_fragments.py:154 | the large test: every fragment of 499 or more, too long to be grouped, passes it |
| Pipeline.IsShort | DNA_fragments.py:156 | the short test: every fragment under 400, too short to be added back, passes it |
| Pipeline.FilterCounts | DNA_fragments.py:154-156 | the mask keeps each row that satisfies it as often as it occurs, and no other |
| Pipeline.FilterAppend | DNA_fragments.py:154-156 | masking keeps row order: the mask of a concatenation is the concatenation of the masks |
| Pipeline.BothFilters | DNA_fragments.py:154-156 | a fragment of 400 to 498 characters passes both filters, so it is grouped and also added back |
| Pipeline.FilterSplit | DNA_fragments.py:154-156 | a fragment is grouped exactly when shorter than 499 and added back exactly when at least 400 long |
| Pipeline.ShortOf | DNA_fragments.py:153-156 | the upper-cased rows shorter than 499, each as often as it occurs in the input |
| Pipeline.LargeOf | DNA_fragments.py:153-154 | the upper-cased rows of 400 or more, each as often as it occurs in the input |
| Pipeline.Sequences | DNA_fragments.py:159 | the sequence column has one entry per row |
| Pipeline.SimilarityRows | DNA_fragments.py:160 | the similarity matrix has one row per short fragment |
| Pipeline.GroupColumn | DNA_fragments.py:105 | `group_labels.astype(int)`: a labelled row carries its group id, an unlabelled row `garbage(i)`, and two labelled rows share an id exactly when they share a group |
| Pipeline.ShortIds | DNA_fragments.py:159-175 | the `Group` column of the short fragments, one id per row |
| Pipeline.Joined | DNA_fragments.py:178 | `"".join` of a group: every character comes from a sequence of that group |
| Pipeline.Names | DNA_fragments.py:178 | `list` of a group's names: every name is that of a row of that group |
| Pipeline.JoinedAppend | DNA_fragments.py:178 | `"".join` follows row order: the join of two runs of rows is the join of the first run followed by the join of the second |
| Pipeline.NamesAppend | DNA_fragments.py:178 | `list` follows row order: the names of two runs of rows are those of the first run followed by those of the second |
| Pipeline.AggregateRow | DNA_fragments.py:178-180 | one aggregated row: its id, as many names as the group has rows, `Length` the joined length |
| Pipeline.Aggregated | DNA_fragments.py:177-180 | one row per group id, ids strictly ascending, exactly the ids that occur, each row the `AggregateRow` of its id |
| Pipeline.NamesCount | DNA_fragments.py:178 | a group lists as many names as it has rows |
| Pipeline.RowInItsGroup | DNA_fragments.py:178 | every row's name is in its group's list and its sequence occurs in the group's joined sequence |
| Pipeline.SingleRowGroup | DNA_fragments.py:178 | a group of one row is that row's sequence and name |
| Pipeline.NoRowsNoGroup | DNA_fragments.py:178 | an id carried by no row joins nothing |
| Pipeline.AggregatedListsRow | DNA_fragments.py:178 | each row's name is listed in the aggregated row of its id |
| Pipeline.AggregatedListsAll | DNA_fragments.py:177-180 | the aggregated table has distinct ids and lists every row's name |
| Pipeline.MaxGroup | DNA_fragments.py:183 | `grouped["Group"].max()` bounds every id and is one of them, or is 0 for an empty table |
| Pipeline.LargeRows | DNA_fragments.py:184-200 | one row per large fragment, in order: its sequence, `[name]`, its length, and ids ascending above `max_group` |
| Pipeline.AddLarge | DNA_fragments.py:183-200 | the loop appends one row per large fragment with ids `max+1, max+2, …` |
| Pipeline.AddedIdsFresh | DNA_fragments.py:183-200 | the added ids lie above every existing id and differ from each other, so ids stay distinct |
| Pipeline.Assembled | DNA_fragments.py:177-200 | the table before the rewrite: distinct ids, one row per group of short fragments listing each of them, then one `[name]` row per large fragment with an id above every earlier row |
| Pipeline.GroupShort | DNA_fragments.py:159-180 | the table is exactly the aggregation of the short fragments by their grouped (and, when `aggressive`, merged) ids; ids ascend, `Length` is the sequence length, every short fragment's name is listed |
| Pipeline.ProcessedTable | DNA_fragments.py:202 | after the cut-site rewrite ids and names are kept and every row has at least 300 characters with `Length` its length |
| Pipeline.ListedKept | DNA_fragments.py:202 | rewriting sequences keeps every fragment listed in the same leading rows |
| Pipeline.LargeRowsKept | DNA_fragments.py:183-202 | after appending and rewriting, ids stay distinct, and each large fragment has its own row `[name]` after the grouped rows with an id above every earlier one |
| Pipeline.KeptAssembly | DNA_fragments.py:177-202 | the assembled table lists every short fragment in its leading rows and each large fragment in its own later row, with distinct ids |
| Pipeline.WrittenTable | DNA_fragments.py:141-202 | the written table has one row per group of short fragments, listing each of them, then one row `[name]` per large fragment, each with an id above every earlier row; ids pairwise distinct; every row at least 300 characters long with `Length` its length |
| Pipeline.Pipeline | DNA_fragments.py:141-210 | no short fragment: `Failed`, as `_worker` writes no table; otherwise the table is the assembled table with every row processed, every short fragment listed, each large fragment in its own row, distinct ids and rows of at least 300 characters |

## Left out

- The Tkinter GUI, file dialogs, message boxes, the worker thread and the `after` callbacks (lines 215-316) are interface and concurrency code.
- The progress callbacks (lines 55-59, 100-101, 147-151, 170-171, 203-209) do not affect results.
- Reading the CSV, writing it, and building the output path (lines 149, 206-207) are I/O. `Pipeline.Pipeline` starts from the parsed rows and returns the table.
- AffinityPropagation (lines 161-169) is a floating-point library algorithm. It is the parameter `cluster`, required only to return one label per matrix row.
- `random.choices` (line 129) is the parameter `pool`: the first `MIN_LENGTH - len(new_seq)` characters of `pool(i)` are the draw for row `i`.
- AffinityPropagation's failure on an empty matrix (lines 163-164) is `Failed`, the outcome `_worker` (lines 308-310) gives when no table is written. Its other failures, such as non-convergence warnings, are not modelled.
- Pipeline.GroupShort: requires at least one short fragment. With none, the program raises before grouping, and `Pipeline.Pipeline` returns `Failed` without calling it.
- CutSites.Processed: the result is not claimed to be free of recognition sites. Each site is replaced once, in the listed order. The filler can form a new site, since its `GGTC` tail followed by `TC` is BsaI. The seam between the sequence and the padding is never cleaned.
- Group ids are unbounded integers. The program stores them as 64-bit integers (`astype(int)` at line 105, `max_group += 1` at lines 183-186), so a garbage id near the 64-bit limit would wrap around. The model does not capture that wrap-around.
- A garbage id can equal an id the packer wrote, so a group of the table can then hold more than three rows. The bounds of `Grouping.GroupFragments` are about the labels the packer writes.
- The `np.empty` value of a never-labelled slot is the parameter `garbage`.
- The float dtype of the matrix is left out: its cells are integers.
- Pipeline.Upper: upper-cases ASCII letters only. That is exact for nucleotide sequences. Python's `str.upper` also maps other Unicode letters: `é` becomes `É`, and `ß` becomes `SS`.
- Pipeline.UpperFragment: applies the same ASCII-only upper-casing to `Name` and `Author`, which are free text. A name or author with non-ASCII letters comes out differently from Python's, and in Python it can also change length (`ß` to `SS`). The model keeps every column's length, and that part of its contract does not hold of the program for such names.
- NthOccurrence.NthRepl: requires a non-empty pattern and `n >= 1`. Every call site passes a non-empty site and `n = 2`.
- The Levenshtein triangle inequality is not proved. No step of the program depends on it.
- pandas index alignment, DataFrame copies and `iterrows` are not modelled. Tables are sequences of records in row order.
