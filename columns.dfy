/**
  Column discovery and the display projection of the recommender: the
  one-hot indicator families are found by scanning the table's column names,
  and a recommendation shows a fixed list of columns followed by those
  families, restricted to the columns the table has.
*/
module Columns {
  import opened Seqs
  import opened Text

  const FuelFamily: string := "Fuel"
  const TransmissionFamily: string := "Transmission"

  /** The columns a recommendation always asks for, in display order. */
  const BaseDisplay: seq<string> := ["Car Name", "Price", "KM's driven", "Condition"]

  /** The test `key in col` as a value that filters can share. */
  function Mentions(key: string): string -> bool
  {
    col => Contains(col, key)
  }

  /** The test `col in columns` as a value that filters can share. */
  function InTable(columns: seq<string>): string -> bool
  {
    col => col in columns
  }

  /** `[col for col in columns if key in col]`. */
  function ColumnsMentioning(columns: seq<string>, key: string): (r: seq<string>)
    ensures forall col :: col in r <==> col in columns && Contains(col, key)
    ensures IsSubsequence(r, columns)
  {
    FilterIsSubsequence(columns, Mentions(key));
    Filter(columns, Mentions(key))
  }

  function FuelColumns(columns: seq<string>): (r: seq<string>)
    ensures forall col :: col in r <==> col in columns && Contains(col, FuelFamily)
    ensures IsSubsequence(r, columns)
  {
    ColumnsMentioning(columns, FuelFamily)
  }

  function TransmissionColumns(columns: seq<string>): (r: seq<string>)
    ensures forall col :: col in r <==> col in columns && Contains(col, TransmissionFamily)
    ensures IsSubsequence(r, columns)
  {
    ColumnsMentioning(columns, TransmissionFamily)
  }

  /** `[col for col in requested if col in columns]`. */
  function KeepPresent(requested: seq<string>, columns: seq<string>): (r: seq<string>)
    ensures forall col :: col in r <==> col in requested && col in columns
    ensures IsSubsequence(r, requested)
  {
    FilterIsSubsequence(requested, InTable(columns));
    Filter(requested, InTable(columns))
  }

  /**
    The columns of a recommendation: the base columns the table has, in base
    order, then every fuel column, then every transmission column.  The
    discovered families come from the table itself, so none of them is ever
    dropped by the existence check.
  */
  function DisplayColumns(columns: seq<string>): (r: seq<string>)
    ensures r == KeepPresent(BaseDisplay, columns) + FuelColumns(columns) + TransmissionColumns(columns)
    ensures forall col :: col in r ==> col in columns
  {
    var fuel, transmission := FuelColumns(columns), TransmissionColumns(columns);
    FilterAppend(BaseDisplay + fuel, transmission, InTable(columns));
    FilterAppend(BaseDisplay, fuel, InTable(columns));
    FilterKeepsAll(fuel, InTable(columns));
    FilterKeepsAll(transmission, InTable(columns));
    KeepPresent(BaseDisplay + fuel + transmission, columns)
  }
}
