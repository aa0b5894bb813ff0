/** Column headers of a DataFrame and pandas' `rename(columns = {from: to})`. */
module Columns {

  /** Every column named `from` is named `to` afterwards; the others keep their names and places. */
  function Renamed(columns: seq<string>, from: string, to: string): (r: seq<string>)
    ensures |r| == |columns|
    ensures forall i :: 0 <= i < |columns| ==> r[i] == (if columns[i] == from then to else columns[i])
  {
    seq(|columns|, i requires 0 <= i < |columns| => if columns[i] == from then to else columns[i])
  }

  /** Renaming to a name that is not yet taken can be undone by renaming back. */
  lemma RenamedBack(columns: seq<string>, from: string, to: string)
    requires to !in columns
    ensures Renamed(Renamed(columns, from, to), to, from) == columns
  {
  }
}
