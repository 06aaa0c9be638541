/**
 * The CSV files as the catalogue sees them once `csv.reader` has parsed them, and the
 * view `csv.DictReader` gives of their rows.
 */
module Csv {
  import opened Common

  /** The compound table on disk and its `.backup` sibling; `None` when the file does not exist. */
  class Disk {
    var data: Option<seq<Row>>
    var backup: Option<seq<Row>>

    constructor (data: Option<seq<Row>>, backup: Option<seq<Row>>)
      ensures this.data == data && this.backup == backup
    {
      this.data := data;
      this.backup := backup;
    }
  }

  /** What `row.get(name)` finds in a `DictReader` row: no such column, the column's
      `None` filler of a short row, or the cell's text. */
  datatype Cell = Absent | Null | Text(text: string)

  /** Python truthiness of `row.get(name)`: a non-empty string. */
  predicate Truthy(c: Cell)
  {
    c.Text? && c.text != ""
  }

  /** The last position of `name` in the header, if it occurs. */
  function LastIndex(header: Row, name: string): (k: Option<nat>)
    ensures k.Some? ==>
              && k.value < |header| && header[k.value] == name
              && forall j :: k.value < j < |header| ==> header[j] != name
    ensures k.None? <==> name !in header
  {
    if header == [] then None
    else if header[|header| - 1] == name then Some(|header| - 1)
    else LastIndex(header[..|header| - 1], name)
  }

  /** `row.get(name)` on `DictReader`'s dict for `row`: the dict zips the header with the
      cells (a repeated column name keeps its last position) and gives the columns past the
      end of a short row the value `None`. */
  function Field(header: Row, row: Row, name: string): (c: Cell)
    ensures c.Absent? <==> name !in header
  {
    match LastIndex(header, name)
    case None => Absent
    case Some(k) => if k < |row| then Text(row[k]) else Null
  }

  /** In a header without repeated names, a row as long as the header shows its own cells. */
  lemma FieldAtDistinctHeader(header: Row, row: Row, k: nat)
    requires forall i, j :: 0 <= i < j < |header| ==> header[i] != header[j]
    requires k < |header| == |row|
    ensures Field(header, row, header[k]) == Text(row[k])
  {
    var m := LastIndex(header, header[k]);
    assert m.Some?;
    assert m.value == k;
  }

  /** The rows `DictReader` yields: every line after the header except blank ones. */
  function DataRows(file: seq<Row>): (rows: seq<Row>)
    ensures forall r :: r in rows <==> |file| > 1 && r in file[1..] && r != []
    ensures |file| <= 1 ==> rows == []
  {
    if |file| <= 1 then []
    else if file[|file| - 1] == [] then DataRows(file[..|file| - 1])
    else
      assert file[..|file| - 1][1..] == file[1..|file| - 1];
      DataRows(file[..|file| - 1]) + [file[|file| - 1]]
  }

  /** Reading one more line after the header appends it, unless it is blank: the rows come in
      file order, duplicates included. */
  lemma DataRowsSnoc(file: seq<Row>, row: Row)
    requires |file| >= 1
    ensures DataRows(file + [row]) == DataRows(file) + (if row != [] then [row] else [])
  {
    assert (file + [row])[..|file|] == file;
  }
}
