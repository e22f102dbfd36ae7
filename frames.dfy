// The rows of the two tables DNA_fragments.py works on: the input CSV
// (one fragment per row) and the grouped table it writes back.

module Frames {

  /** A row of the input CSV: `Name;Author;Sequence`. */
  datatype Fragment = Fragment(name: string, author: string, sequence: string)

  /** A row of the grouped table: `Group`, the concatenated `Sequence`, the
    * `Name` list of its members and `Length`. */
  datatype GroupRow = GroupRow(group: int, sequence: string, names: seq<string>, length: nat)

  /** How a run ends: an error reported instead of a table, or the table
    * written back. */
  datatype Outcome = Failed | Written(table: seq<GroupRow>)
}
