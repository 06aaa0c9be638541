/**
 * deletion_backend.py: deleting rows of the compound file by the ID in their first column,
 * with no compound store involved.  The file is read as `csv.reader` rows (a blank line is the
 * empty row); row 0 is the header.  The back end backs the file up and rewrites it only when
 * at least one row matched.
 */
module DeletionBackend {
  import opened Common
  import opened Text
  import opened Csv

  datatype BackendError =
    | CsvFileNotFound
    | CsvEmptyOrHeaderOnly
    | NoCompoundsFound(ids: set<string>)

  /** An entry of `deleted_compounds`: the stripped ID, the second cell or `Unknown`, the row. */
  datatype RemovedRow = RemovedRow(id: string, name: string, row: Row)

  datatype BackendResult = BackendResult(
    success: bool,
    deletedCount: nat,
    errors: seq<BackendError>,
    deletedCompounds: seq<RemovedRow>,
    rowsBefore: nat,
    rowsAfter: nat)

  /** The result together with the data file and the backup file afterwards. */
  datatype BackendEffect = BackendEffect(result: BackendResult, data: Option<seq<Row>>, backup: Option<seq<Row>>)

  /** `compound_ids_str`: the requested IDs, stripped, as a set. */
  function IdSet(ids: seq<string>): set<string>
  {
    set i | 0 <= i < |ids| :: Strip(ids[i])
  }

  /** A non-empty row whose stripped first cell is a requested ID. */
  predicate Matches(row: Row, idSet: set<string>)
  {
    |row| >= 1 && Strip(row[0]) in idSet
  }

  function Removal(row: Row): RemovedRow
    requires |row| >= 1
  {
    RemovedRow(Strip(row[0]), if |row| > 1 then row[1] else "Unknown", row)
  }

  /** The non-empty rows that do not match, in order. */
  function Kept(rows: seq<Row>, idSet: set<string>): (r: seq<Row>)
    ensures |r| <= |rows|
  {
    if rows == [] then []
    else
      var rest := Kept(rows[..|rows| - 1], idSet);
      var row := rows[|rows| - 1];
      if |row| >= 1 && !Matches(row, idSet) then rest + [row] else rest
  }

  /** The entries for the matching rows, in order, duplicates included. */
  function Removed(rows: seq<Row>, idSet: set<string>): (r: seq<RemovedRow>)
    ensures |r| <= |rows|
  {
    if rows == [] then []
    else
      var rest := Removed(rows[..|rows| - 1], idSet);
      var row := rows[|rows| - 1];
      if Matches(row, idSet) then rest + [Removal(row)] else rest
  }

  /** The number of empty rows. */
  function Blank(rows: seq<Row>): (r: nat)
    ensures r <= |rows|
  {
    if rows == [] then 0
    else Blank(rows[..|rows| - 1]) + (if rows[|rows| - 1] == [] then 1 else 0)
  }

  /** `delete_compounds(compound_ids)` on a data file and its backup. */
  function Outcome(data: Option<seq<Row>>, backup: Option<seq<Row>>, ids: seq<string>): BackendEffect
  {
    var idSet := IdSet(ids);
    if data.None? then
      BackendEffect(BackendResult(false, 0, [CsvFileNotFound], [], 0, 0), data, backup)
    else
      var file := data.value;
      if |file| <= 1 then
        BackendEffect(BackendResult(false, 0, [CsvEmptyOrHeaderOnly], [], |file|, 0), data, backup)
      else
        var filtered := [file[0]] + Kept(file[1..], idSet);
        var removed := Removed(file[1..], idSet);
        if |removed| == 0 then
          BackendEffect(BackendResult(false, 0, [NoCompoundsFound(idSet)], [], |file|, |filtered|), data, backup)
        else
          BackendEffect(BackendResult(true, |removed|, [], removed, |file|, |filtered|), Some(filtered), Some(file))
  }

  /** Every row is kept, removed or blank: the three counts add up to the number of rows. */
  lemma {:induction false} Accounting(rows: seq<Row>, idSet: set<string>)
    ensures |rows| == |Kept(rows, idSet)| + |Removed(rows, idSet)| + Blank(rows)
  {
    if rows != [] {
      Accounting(rows[..|rows| - 1], idSet);
    }
  }

  /** A row is kept exactly when it is non-empty and does not match; a removed entry is a
      matching row under its stripped ID, and every matching row has an entry. */
  lemma {:induction false} KeptAndRemovedMembers(rows: seq<Row>, idSet: set<string>)
    ensures forall row :: row in Kept(rows, idSet) <==> row in rows && |row| >= 1 && !Matches(row, idSet)
    ensures forall e :: e in Removed(rows, idSet) ==> e.row in rows && Matches(e.row, idSet) && e == Removal(e.row)
    ensures forall i :: 0 <= i < |rows| && Matches(rows[i], idSet) ==> Removal(rows[i]) in Removed(rows, idSet)
  {
    if rows != [] {
      var init := rows[..|rows| - 1];
      KeptAndRemovedMembers(init, idSet);
      assert rows == init + [rows[|rows| - 1]];
      forall i | 0 <= i < |rows| && Matches(rows[i], idSet) ensures Removal(rows[i]) in Removed(rows, idSet) {
        if i < |init| {
          assert rows[i] == init[i];
        }
      }
    }
  }

  /** Filtering distributes over concatenation, so kept rows stay in their order. */
  lemma {:induction false} KeptConcat(a: seq<Row>, b: seq<Row>, idSet: set<string>)
    ensures Kept(a + b, idSet) == Kept(a, idSet) + Kept(b, idSet)
    ensures Removed(a + b, idSet) == Removed(a, idSet) + Removed(b, idSet)
  {
    if b != [] {
      var init := b[..|b| - 1];
      KeptConcat(a, init, idSet);
      assert (a + b)[..|a + b| - 1] == a + init;
    } else {
      assert a + b == a;
    }
  }

  /** `csv_rows_before = csv_rows_after + deleted_count + empty rows` whenever the filter ran. */
  lemma OutcomeAccounting(data: Option<seq<Row>>, backup: Option<seq<Row>>, ids: seq<string>)
    requires data.Some? && |data.value| > 1
    ensures var r := Outcome(data, backup, ids).result;
      r.rowsBefore == r.rowsAfter + |Removed(data.value[1..], IdSet(ids))| + Blank(data.value[1..])
      && (r.success ==> r.rowsBefore == r.rowsAfter + r.deletedCount + Blank(data.value[1..]))
  {
    Accounting(data.value[1..], IdSet(ids));
  }

  /** A missing file or one with at most one row is refused, and neither file is written. */
  lemma NoDataRefused(data: Option<seq<Row>>, backup: Option<seq<Row>>, ids: seq<string>)
    requires data.None? || |data.value| <= 1
    ensures var e := Outcome(data, backup, ids);
      && !e.result.success && e.result.deletedCount == 0 && e.data == data && e.backup == backup
      && e.result.errors == (if data.None? then [CsvFileNotFound] else [CsvEmptyOrHeaderOnly])
  {
  }

  /** The back end succeeds exactly when some row after the header matches; then the backup
      holds the old rows and the file holds the header followed by the kept rows, the header
      kept even when its first cell is a requested ID.  Otherwise neither file changes. */
  lemma SuccessIff(data: Option<seq<Row>>, backup: Option<seq<Row>>, ids: seq<string>)
    ensures var e := Outcome(data, backup, ids);
      && (e.result.success <==> data.Some? && exists i :: 1 <= i < |data.value| && Matches(data.value[i], IdSet(ids)))
      && (e.result.success ==>
            && e.backup == data
            && e.data == Some([data.value[0]] + Kept(data.value[1..], IdSet(ids)))
            && e.data.value[0] == data.value[0]
            && e.result.errors == [])
      && (!e.result.success ==> e.data == data && e.backup == backup && e.result.deletedCompounds == [])
  {
    if data.Some? && |data.value| > 1 {
      var file := data.value;
      var body := file[1..];
      KeptAndRemovedMembers(body, IdSet(ids));
      if exists i :: 1 <= i < |file| && Matches(file[i], IdSet(ids)) {
        var i :| 1 <= i < |file| && Matches(file[i], IdSet(ids));
        assert body[i - 1] == file[i];
        assert Removal(body[i - 1]) in Removed(body, IdSet(ids));
      }
      if |Removed(body, IdSet(ids))| != 0 {
        RemovedHasMatch(body, IdSet(ids));
        var k :| 0 <= k < |body| && Matches(body[k], IdSet(ids));
        assert file[k + 1] == body[k];
      }
    }
  }

  lemma {:induction false} RemovedHasMatch(rows: seq<Row>, idSet: set<string>)
    requires |Removed(rows, idSet)| != 0
    ensures exists k :: 0 <= k < |rows| && Matches(rows[k], idSet)
  {
    var init := rows[..|rows| - 1];
    if !Matches(rows[|rows| - 1], idSet) {
      RemovedHasMatch(init, idSet);
      var k :| 0 <= k < |init| && Matches(init[k], idSet);
      assert rows[k] == init[k];
    }
  }

  /** Requesting the same ID twice, or with extra whitespace, deletes the same rows. */
  lemma IdsCompareStripped(data: Option<seq<Row>>, backup: Option<seq<Row>>, ids: seq<string>, extra: string)
    requires exists i :: 0 <= i < |ids| && Strip(ids[i]) == Strip(extra)
    ensures Outcome(data, backup, ids + [extra]) == Outcome(data, backup, ids)
  {
    assert IdSet(ids + [extra]) == IdSet(ids) by {
      var ids2 := ids + [extra];
      forall x | x in IdSet(ids2) ensures x in IdSet(ids) {
        var j :| 0 <= j < |ids2| && Strip(ids2[j]) == x;
        if j < |ids| {
          assert ids2[j] == ids[j];
        }
      }
      forall x | x in IdSet(ids) ensures x in IdSet(ids2) {
        var j :| 0 <= j < |ids| && Strip(ids[j]) == x;
        assert ids2[j] == ids[j];
      }
    }
  }

  /** One more row through the filter loop. */
  lemma FilterStep(file: seq<Row>, i: nat, idSet: set<string>)
    requires 1 <= i < |file|
    ensures var kept, removed := Kept(file[1..i], idSet), Removed(file[1..i], idSet);
      && (file[i] == [] ==>
            Kept(file[1..i + 1], idSet) == kept && Removed(file[1..i + 1], idSet) == removed)
      && (file[i] != [] && !Matches(file[i], idSet) ==>
            Kept(file[1..i + 1], idSet) == kept + [file[i]] && Removed(file[1..i + 1], idSet) == removed)
      && (Matches(file[i], idSet) ==>
            Kept(file[1..i + 1], idSet) == kept && Removed(file[1..i + 1], idSet) == removed + [Removal(file[i])])
  {
    assert file[1..i + 1][..i - 1] == file[1..i];
  }

  /** The filter loop of `delete_compounds`: the header, then every non-empty row whose stripped
      ID is not requested; an entry for every row whose ID is requested. */
  method FilterRows(existing: seq<Row>, idSet: set<string>) returns (filtered: seq<Row>, deletedCompounds: seq<RemovedRow>, deletedCount: nat)
    requires |existing| >= 1
    ensures filtered == [existing[0]] + Kept(existing[1..], idSet)
    ensures deletedCompounds == Removed(existing[1..], idSet) && deletedCount == |deletedCompounds|
  {
    filtered := [existing[0]];
    deletedCompounds := [];
    deletedCount := 0;
    for i := 1 to |existing|
      invariant filtered == [existing[0]] + Kept(existing[1..i], idSet)
      invariant deletedCompounds == Removed(existing[1..i], idSet)
      invariant deletedCount == |deletedCompounds|
    {
      FilterStep(existing, i, idSet);
      var row := existing[i];
      if |row| >= 1 {
        var rowId := Strip(row[0]);
        if rowId !in idSet {
          filtered := filtered + [row];
        } else {
          deletedCount := deletedCount + 1;
          var compoundName := if |row| > 1 then row[1] else "Unknown";
          deletedCompounds := deletedCompounds + [RemovedRow(rowId, compoundName, row)];
        }
      }
    }
    assert existing[1..|existing|] == existing[1..];
  }

  /** `delete_compounds(compound_ids)`: filter the rows after the header, then back up and
      rewrite the file when some row matched. */
  method DeleteCompounds(disk: Disk, ids: seq<string>) returns (r: BackendResult)
    modifies disk
    ensures Outcome(old(disk.data), old(disk.backup), ids) == BackendEffect(r, disk.data, disk.backup)
  {
    var idSet := IdSet(ids);
    r := BackendResult(false, 0, [], [], 0, 0);
    if disk.data.None? {
      r := r.(errors := r.errors + [CsvFileNotFound]);
      return;
    }
    var existing := disk.data.value;
    r := r.(rowsBefore := |existing|);
    if |existing| <= 1 {
      r := r.(errors := r.errors + [CsvEmptyOrHeaderOnly]);
      return;
    }
    var filtered, deletedCompounds, deletedCount := FilterRows(existing, idSet);
    r := r.(rowsAfter := |filtered|, deletedCount := deletedCount, deletedCompounds := deletedCompounds);
    if deletedCount == 0 {
      assert deletedCompounds == [];
      r := r.(errors := r.errors + [NoCompoundsFound(idSet)]);
      return;
    }
    disk.backup := Some(existing);
    disk.data := Some(filtered);
    r := r.(success := true);
  }
}
