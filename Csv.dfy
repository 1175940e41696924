/**
 * A CSV file as csv.DictReader presents it: the header row, then one
 * dictionary per data row from column name to cell text. DictReader gives
 * the missing cells of a short row the value None; a record leaves those
 * keys out, as it does columns the header lacks. The lookups the scripts
 * make cannot tell the two apart: row.get(k) is None either way, and
 * row.get(k, "") is "" or None, both written as an empty cell.
 */
module Csv {
  import opened Wrappers

  type Record = map<string, string>

  datatype Table = Table(header: seq<string>, records: seq<Record>)

  /** row.get(key): the cell, or None when the row has no such column. */
  function Get(rec: Record, key: string): (r: Option<string>)
    ensures r.Some? <==> key in rec
    ensures r.Some? ==> r.value == rec[key]
  {
    if key in rec then Some(rec[key]) else None
  }

  /** row.get(key, ""): the cell, or the empty string. */
  function GetOrEmpty(rec: Record, key: string): (r: string)
    ensures key in rec ==> r == rec[key]
    ensures key !in rec ==> r == ""
  {
    Get(rec, key).GetOr("")
  }
}
