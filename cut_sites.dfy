// `replace_cut_sites_and_pad` (DNA_fragments.py): four `nth_repl(..., 2)`
// calls, each on the text the previous one left, rewrite BsmBI to BbsI,
// BsmBI_rev to BbsI_rev, BsmBI to BspMI and BsmBI_rev to BspMI_rev. Each
// rewrites the second occurrence counting overlaps (the `find` scan), and
// only when the text has at least two non-overlapping occurrences (`split`);
// the earlier calls may create the sites the later ones rewrite. A result
// shorter than 300 is padded up to 301 with random nucleotides in which
// each recognition site, taken in a fixed order, is replaced once by a
// filler.

module CutSites {
  import opened Text
  import opened NthOccurrence
  import opened Frames

  const BsmBI: string := "CGTCTC"
  const BsmBIRev: string := "GAGACG"
  const BsaI: string := "GGTCTC"
  const BsaIRev: string := "GAGACC"
  const BbsI: string := "GAAGACT"
  const BbsIRev: string := "AGTCTTC"
  const BspMI: string := "ACCTGCTTA"
  const BspMIRev: string := "TAAGCAGGT"

  /** `NUCL`, the alphabet of the padding. */
  const Nucleotides: string := "ATCG"
  /** `MIN_LENGTH`: a padded sequence reaches at least this length. */
  const MinLength: nat := 301
  /** Sequences shorter than this are padded. */
  const PadBelow: nat := 300
  /** What every recognition site in the padding is replaced by. */
  const Filler: string := "ATCCGATGGTC"

  /** The sites removed from the padding, in the order they are replaced. */
  const PaddingCuts: seq<string> := [BsmBI, BsaI, BbsI, BspMI, BsmBIRev, BsaIRev, BbsIRev, BspMIRev]

  /** The four `nth_repl(..., 2)` steps applied to every sequence. They
    * only ever lengthen it: a BbsI site is one character longer than a
    * BsmBI site, a BspMI site three. */
  function Substituted(s: string): (r: string)
    ensures |s| <= |r| <= |s| + 8
  {
    var s1 := NthReplace(s, BsmBI, BbsI, 2);
    var s2 := NthReplace(s1, BsmBIRev, BbsIRev, 2);
    var s3 := NthReplace(s2, BsmBI, BspMI, 2);
    NthReplace(s3, BsmBIRev, BspMIRev, 2)
  }

  /** The padding after the first `k` sites have been replaced. Every site is
    * shorter than the filler, so the padding never shrinks. */
  function CleanedPadding(padding: string, k: nat): (r: string)
    requires k <= |PaddingCuts|
    ensures |r| >= |padding|
  {
    if k == 0 then padding
    else
      var before := CleanedPadding(padding, k - 1);
      var cut := PaddingCuts[k - 1];
      CutLengths(k - 1);
      ReplaceAllLength(before, cut, Filler);
      ReplaceAll(before, cut, Filler)
  }

  /** Every site is 6 to 9 characters long, the filler 11. */
  lemma CutLengths(k: nat)
    requires k < |PaddingCuts|
    ensures 6 <= |PaddingCuts[k]| <= 9 && |Filler| == 11
  {
  }

  /** The filler itself holds none of the eight sites, so a site left in
    * cleaned padding can only straddle a filler and its neighbour. */
  lemma FillerHasNoSite(k: nat, i: int)
    requires k < |PaddingCuts|
    ensures !MatchAt(Filler, PaddingCuts[k], i)
  {
    var c := PaddingCuts[k];
    if 0 <= i && i + |c| <= |Filler| {
      assert Filler[i] != c[0] || Filler[i + 1] != c[1] || Filler[i + 2] != c[2] ||
             Filler[i + 3] != c[3] || Filler[i + 4] != c[4] || Filler[i + 5] != c[5];
    }
  }

  /** The new `Sequence` of a row: the substituted sequence, padded when it
    * is shorter than `PadBelow`. The `k` random nucleotides are the first
    * `k` characters of `pool`. A sequence of at least `PadBelow` characters
    * after substitution is not padded; a shorter one keeps its substituted
    * text as a prefix and reaches at least `MinLength`. Either way the
    * result has at least `PadBelow` characters. */
  function Processed(s: string, pool: string): (r: string)
    requires |pool| >= MinLength
    ensures |Substituted(s)| >= PadBelow ==> r == Substituted(s)
    ensures |Substituted(s)| < PadBelow ==> |r| >= MinLength && r[..|Substituted(s)|] == Substituted(s)
    ensures |r| >= PadBelow
  {
    var t := Substituted(s);
    if |t| < PadBelow then
      var padding := CleanedPadding(pool[..MinLength - |t|], |PaddingCuts|);
      assert (t + padding)[..|t|] == t;
      t + padding
    else t
  }

  /** The body of the row loop: the four substitutions, then the padding. */
  method ProcessSequence(sequence: string, pool: string) returns (newSeq: string)
    requires |pool| >= MinLength
    ensures newSeq == Processed(sequence, pool)
  {
    newSeq := NthRepl(sequence, BsmBI, BbsI, 2);
    newSeq := NthRepl(newSeq, BsmBIRev, BbsIRev, 2);
    newSeq := NthRepl(newSeq, BsmBI, BspMI, 2);
    newSeq := NthRepl(newSeq, BsmBIRev, BspMIRev, 2);
    if |newSeq| < PadBelow {
      var raw := pool[..MinLength - |newSeq|];
      var padding := raw;
      for k := 0 to |PaddingCuts|
        invariant padding == CleanedPadding(raw, k)
      {
        padding := ReplaceAll(padding, PaddingCuts[k], Filler);
      }
      newSeq := newSeq + padding;
    }
  }

  /** A row after `df.at[idx, "Sequence"]` and `df.at[idx, "Length"]`:
    * `Group` and `Name` are kept, and `Length` is the new sequence's
    * length, at least `PadBelow`. */
  function ProcessedRow(row: GroupRow, pool: string): (r: GroupRow)
    requires |pool| >= MinLength
    ensures r.group == row.group && r.names == row.names
    ensures r.length == |r.sequence| >= PadBelow
  {
    var newSeq := Processed(row.sequence, pool);
    row.(sequence := newSeq, length := |newSeq|)
  }

  /** `replace_cut_sites_and_pad`: every row gets its processed sequence and
    * the matching `Length`; `Group` and `Name` are kept. Row `i` draws its
    * padding from `pool(i)`. */
  method ReplaceCutSitesAndPad(grouped: seq<GroupRow>, pool: nat -> string) returns (out: seq<GroupRow>)
    requires forall i: nat :: |pool(i)| >= MinLength
    ensures |out| == |grouped|
    ensures forall i :: 0 <= i < |out| ==> out[i] == ProcessedRow(grouped[i], pool(i))
  {
    var df := new GroupRow[|grouped|](i requires 0 <= i < |grouped| => grouped[i]);
    ghost var target := seq(|grouped|, i requires 0 <= i < |grouped| => ProcessedRow(grouped[i], pool(i)));
    for idx := 0 to df.Length
      invariant df[..] == target[..idx] + grouped[idx..]
    {
      var row := df[idx];
      var newSeq := ProcessSequence(row.sequence, pool(idx));
      var updated := row.(sequence := newSeq, length := |newSeq|);
      assert updated == target[idx];
      df[idx] := updated;
      assert target[..idx + 1] + grouped[idx + 1..] == (target[..idx] + grouped[idx..])[idx := updated];
    }
    out := df[..];
  }

  // ---------------------------------------------------------------------
  // Properties

  /** With at most one BsmBI and at most one BsmBI_rev site there is no
    * second occurrence to rewrite: the sequence passes through unchanged. */
  lemma SubstitutedUnchanged(s: string)
    requires SplitCount(s, BsmBI) <= 1 && SplitCount(s, BsmBIRev) <= 1
    ensures Substituted(s) == s
  {
  }

  /** Cleaning keeps the padding inside the nucleotide alphabet when the
    * random draw is. */
  lemma {:induction false} CleanedPaddingAlphabet(padding: string, k: nat)
    requires k <= |PaddingCuts|
    requires forall c :: c in padding ==> c in Nucleotides
    ensures forall c :: c in CleanedPadding(padding, k) ==> c in Nucleotides
  {
    if k > 0 {
      CleanedPaddingAlphabet(padding, k - 1);
      var before := CleanedPadding(padding, k - 1);
      ReplaceFromChars(before, PaddingCuts[k - 1], Filler, 0);
      assert forall c :: c in Filler ==> c in Nucleotides;
    }
  }
}
