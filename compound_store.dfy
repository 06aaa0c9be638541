/**
 * `HashCompoundManager` (hash_compound_manager.py) as an object: the two dicts and the key
 * order are fields the methods update in place, and the CSV file and its backup are the
 * fields of a `Disk`.  Each method is proved against the functions of `CompoundIndex`,
 * `RowRemoval` and `Deletion`; the reading operations (`get_compound_by_stilbar`,
 * `get_compound_by_hash`, `get_all_compounds`, `get_stats`) are those functions applied to
 * `Snapshot()`.
 */
module CompoundStore {
  import opened Common
  import opened Text
  import opened Csv
  import opened Identity
  import opened CompoundIndex
  import opened RowRemoval
  import opened Deletion

  /** How `add_compound` ends: it returns the hash, raises `ValueError` for an identity already
      stored, or raises `Failed to add to CSV` after the record is already in memory. */
  datatype AddResult = Added(hash: string) | DuplicateIdentity(hash: string) | WriteFailed(hash: string)

  /** The result of `add_compound` with the store and the data file afterwards. */
  datatype AddOutcome = AddOutcome(result: AddResult, index: Index, data: Option<seq<Row>>)

  /** The row `_add_to_csv` appends: the hash takes the place of the number. */
  function AddedRow(c: Compound): Row
  {
    [c.hash, c.name, c.stilbar, c.smiles]
  }

  /** `add_compound(name, stilbar_code, smiles)` on the store and the data file. */
  function Add(digest: Digest, idx: Index, data: Option<seq<Row>>, name: string, stilbarCode: string, smiles: string): AddOutcome
  {
    var c := NewRecord(digest, idx, name, stilbarCode, smiles);
    if c.hash in idx.compounds then AddOutcome(DuplicateIdentity(c.hash), idx, data)
    else
      match data
      case None => AddOutcome(WriteFailed(c.hash), Store(idx, c), data)
      case Some(file) => AddOutcome(Added(c.hash), Store(idx, c), Some(file + [AddedRow(c)]))
  }

  /** A new identity: storing the record and then appending its row is what `Add` describes. */
  lemma AddStoresNew(digest: Digest, idx: Index, data: Option<seq<Row>>, name: string, code: string, smiles: string,
                     c: Compound, after: Index, r: AddResult, written: Option<seq<Row>>)
    requires c == NewRecord(digest, idx, name, code, smiles) && c.hash !in idx.compounds
    requires after == Store(idx, c)
    requires data.None? ==> r == WriteFailed(c.hash) && written == None
    requires data.Some? ==> r == Added(c.hash) && written == Some(data.value + [AddedRow(c)])
    ensures AddOutcome(r, after, written) == Add(digest, idx, data, name, code, smiles)
  {
  }

  /** An identity already stored is refused and nothing changes. */
  lemma AddDuplicateChangesNothing(digest: Digest, idx: Index, data: Option<seq<Row>>, name: string, code: string, smiles: string)
    requires GenerateHash(digest, code, name) in idx.compounds
    ensures var o := Add(digest, idx, data, name, code, smiles);
      o.result == DuplicateIdentity(GenerateHash(digest, code, name)) && o.index == idx && o.data == data
  {
  }

  /** A new identity adds exactly one record, numbered one past the old size and placed last,
      whose fields are the arguments as given; the file gains one row, or, when it cannot be
      read, the call fails with the record already in memory. */
  lemma AddNewRecord(digest: Digest, idx: Index, data: Option<seq<Row>>, name: string, code: string, smiles: string)
    requires IndexValid(idx)
    requires GenerateHash(digest, code, name) !in idx.compounds
    ensures var o := Add(digest, idx, data, name, code, smiles);
      var h := GenerateHash(digest, code, name);
      var c := Compound(h, name, code, smiles, NatToString(|idx.compounds| + 1));
      && IndexValid(o.index) && (BarcodesResolve(idx) ==> BarcodesResolve(o.index))
      && |o.index.compounds| == |idx.compounds| + 1
      && AllCompounds(o.index) == AllCompounds(idx) + [c]
      && DigitsValue(c.originalNum) == |idx.compounds| + 1
      && (data.Some? ==> o.result == Added(h) && o.data == Some(data.value + [[h, name, code, smiles]]))
      && (data.None? ==> o.result == WriteFailed(h) && o.data == None)
  {
    var c := NewRecord(digest, idx, name, code, smiles);
    var o := Add(digest, idx, data, name, code, smiles);
    assert o.index == Store(idx, c);
    AddEffect(idx, c);
    NatToStringRoundTrip(|idx.compounds| + 1);
  }

  class HashCompoundManager {
    const disk: Disk
    const digest: Digest
    var compounds: map<string, Compound>
    var stilbarToHash: map<string, string>
    var order: seq<string>

    /** The store as a value. */
    function Snapshot(): Index
      reads this
    {
      Index(compounds, stilbarToHash, order)
    }

    predicate Valid()
      reads this
    {
      IndexValid(Snapshot())
    }

    /** `HashCompoundManager(csv_file)`: the store loaded from the file. */
    constructor (disk: Disk, digest: Digest)
      ensures this.disk == disk && this.digest == digest
      ensures Valid() && Snapshot() == LoadFile(digest, disk.data)
    {
      this.disk := disk;
      this.digest := digest;
      compounds := map[];
      stilbarToHash := map[];
      order := [];
      new;
      LoadCompounds();
    }

    /** `load_compounds`: both dicts cleared and refilled from the file, row by row. */
    method LoadCompounds()
      modifies this
      ensures Valid() && Snapshot() == LoadFile(digest, disk.data)
    {
      compounds := map[];
      stilbarToHash := map[];
      order := [];
      LoadFileValid(digest, disk.data);
      if disk.data.None? {
        return;
      }
      var file := disk.data.value;
      if file == [] {
        return;
      }
      var header := file[0];
      var rows := DataRows(file);
      var i := 0;
      while i < |rows|
        invariant 0 <= i <= |rows|
        invariant IndexValid(Snapshot())
        invariant LoadRows(digest, Snapshot(), header, rows[i..]) == LoadFile(digest, disk.data)
      {
        var row := rows[i];
        LoadRowsStep(digest, Snapshot(), header, rows, i);
        var num := Field(header, row, "num");
        var smilesCell := Field(header, row, "smiles");
        if !Truthy(num) || !Truthy(smilesCell) {
          i := i + 1;
          continue;
        }
        var barcodeCell := Field(header, row, "barcode");
        var nameCell := Field(header, row, "compound_name");
        if barcodeCell.Null? || nameCell.Null? {
          // `.strip()` on `None` raises; the handler ends the load with what is stored so far
          return;
        }
        var stilbar := Strip(TextOrEmpty(barcodeCell));
        var name := Strip(TextOrEmpty(nameCell));
        var h := GenerateHash(digest, if stilbar != "" then stilbar else name, name);
        var c := Compound(h, name, stilbar, Strip(smilesCell.text), num.text);
        assert ReadRow(digest, header, row) == Record(c);
        StoreRecord(c);
        i := i + 1;
      }
    }

    /** `compounds[h] = c` (a new key goes last in the order), then `stilbar_to_hash[stilbar] = h`
        when the barcode is non-empty, as both `load_compounds` and `add_compound` do. */
    method StoreRecord(c: Compound)
      requires Valid()
      modifies this
      ensures Valid() && Snapshot() == Store(old(Snapshot()), c)
    {
      ghost var before := Snapshot();
      if c.hash !in compounds {
        order := order + [c.hash];
      }
      compounds := compounds[c.hash := c];
      if c.stilbar != "" {
        stilbarToHash := stilbarToHash[c.stilbar := c.hash];
      }
      assert Snapshot() == Store(before, c);
      StoreEffect(before, c);
    }

    /** `add_compound`: memory is updated before the file is appended to. */
    method AddCompound(name: string, stilbarCode: string, smiles: string) returns (r: AddResult)
      requires Valid()
      modifies this, disk
      ensures Valid()
      ensures AddOutcome(r, Snapshot(), disk.data) == Add(digest, old(Snapshot()), old(disk.data), name, stilbarCode, smiles)
      ensures disk.backup == old(disk.backup)
    {
      ghost var before := Snapshot();
      var h := GenerateHash(digest, stilbarCode, name);
      if h in compounds {
        return DuplicateIdentity(h);
      }
      var c := Compound(h, name, stilbarCode, smiles, NatToString(|compounds| + 1));
      StoreRecord(c);
      r := AddToCsv(c);
      AddStoresNew(digest, before, old(disk.data), name, stilbarCode, smiles, c, Snapshot(), r, disk.data);
    }

    /** `_add_to_csv`: every row of the file read back, the new row appended, all written. */
    method AddToCsv(c: Compound) returns (r: AddResult)
      modifies disk
      ensures disk.backup == old(disk.backup)
      ensures old(disk.data).None? ==> r == WriteFailed(c.hash) && disk.data == None
      ensures old(disk.data).Some? ==> r == Added(c.hash) && disk.data == Some(old(disk.data).value + [AddedRow(c)])
    {
      if disk.data.None? {
        return WriteFailed(c.hash);
      }
      disk.data := Some(disk.data.value + [AddedRow(c)]);
      r := Added(c.hash);
    }

    /** `delete_compounds(hash_keys)`. */
    method DeleteCompounds(keys: seq<string>) returns (r: DeleteResult)
      requires Valid()
      modifies this, disk
      ensures Valid()
      ensures DeleteEffect(r, Snapshot(), disk.data, disk.backup)
              == DeleteOutcome(old(Snapshot()), old(disk.data), old(disk.backup), keys)
    {
      ghost var idx0 := Snapshot();
      var errors: seq<DeleteError> := [];
      var toDelete: seq<Compound> := [];
      var i := 0;
      while i < |keys|
        invariant 0 <= i <= |keys|
        invariant toDelete == Found(idx0, keys[..i]) && errors == NotFound(idx0, keys[..i])
      {
        assert keys[..i + 1][..i] == keys[..i];
        if keys[i] in compounds {
          toDelete := toDelete + [compounds[keys[i]]];
        } else {
          errors := errors + [HashNotFound(keys[i])];
        }
        i := i + 1;
      }
      assert keys[..|keys|] == keys;
      if toDelete == [] {
        return DeleteResult(false, 0, [], errors + [NoValidCompounds]);
      }
      if disk.data.None? {
        return DeleteResult(false, 0, [], errors + [BackupFailed]);
      }
      disk.backup := disk.data;
      var fault := RemoveFromCsv(HashesOf(toDelete));
      if fault.Some? {
        return DeleteResult(false, 0, [], errors + [RemoveFailed(fault.value)]);
      }
      r := RemoveFromMemory(toDelete, errors);
    }

    /** The memory part of `delete_compounds`: each record removed in turn, until a hash is
        already gone. */
    method RemoveFromMemory(toDelete: seq<Compound>, errors: seq<DeleteError>) returns (r: DeleteResult)
      requires Valid()
      modifies this
      ensures Valid()
      ensures Snapshot() == RemoveSeq(old(Snapshot()), toDelete)
      ensures var n := RemoveCount(old(Snapshot()), toDelete);
        && (n == |toDelete| ==> r == DeleteResult(true, n, Entries(toDelete), errors))
        && (n < |toDelete| ==> r == DeleteResult(false, 0, Entries(toDelete[..n]), errors + [KeyMissing(toDelete[n].hash)]))
    {
      ghost var idx0 := Snapshot();
      RemoveSeqValid(idx0, toDelete);
      RemovalStart(idx0, toDelete);
      var deleted: seq<DeletedEntry> := [];
      var j := 0;
      while j < |toDelete|
        invariant RemovalAt(idx0, Snapshot(), toDelete, j)
        invariant deleted == Entries(toDelete[..j])
      {
        var c := toDelete[j];
        if c.hash !in compounds {
          RemoveStop(idx0, Snapshot(), toDelete, j);
          return DeleteResult(false, 0, deleted, errors + [KeyMissing(c.hash)]);
        }
        ghost var before := Snapshot();
        ForgetRecord(c);
        RemoveLoopStep(idx0, before, Snapshot(), toDelete, j);
        EntriesSnoc(toDelete, j);
        deleted := deleted + [Entry(c)];
        j := j + 1;
      }
      assert toDelete[..|toDelete|] == toDelete;
      RemoveStop(idx0, Snapshot(), toDelete, j);
      r := DeleteResult(true, |toDelete|, deleted, errors);
    }

    /** One turn of the memory loop: `del compounds[h]`, and the barcode's mapping dropped when
        it is non-empty and mapped. */
    method ForgetRecord(c: Compound)
      modifies this
      ensures Snapshot() == RemoveOne(old(Snapshot()), c)
    {
      compounds := compounds - {c.hash};
      order := Without(order, c.hash);
      if c.stilbar != "" && c.stilbar in stilbarToHash {
        stilbarToHash := stilbarToHash - {c.stilbar};
      }
    }

    /** `_remove_from_csv(hash_keys)`: `None` when the file was rewritten, otherwise why it
        raised (the file then keeps its content). */
    method RemoveFromCsv(keys: seq<string>) returns (fault: Option<RemovalFault>)
      modifies disk
      ensures disk.backup == old(disk.backup)
      ensures match RemoveRows(old(disk.data), TargetsOf(Snapshot(), keys))
              case Success(file) => fault == None && disk.data == Some(file)
              case Failure(f) => fault == Some(f) && disk.data == old(disk.data)
    {
      if disk.data.None? {
        return Some(FileMissing);
      }
      var file := disk.data.value;
      if file == [] {
        // the header is `None`; the writer raises on it after truncating the (empty) file
        return Some(HeaderMissing);
      }
      var header := file[0];
      var rows := DataRows(file);
      var existing: seq<seq<Cell>> := [];
      var i := 0;
      while i < |rows|
        invariant 0 <= i <= |rows|
        invariant |existing| == i && forall k :: 0 <= k < i ==> existing[k] == Rebuild(header, rows[k])
      {
        existing := existing + [Rebuild(header, rows[i])];
        i := i + 1;
      }
      assert existing == RebuildAll(header, rows);
      var targets: seq<Triple> := [];
      i := 0;
      while i < |keys|
        invariant 0 <= i <= |keys|
        invariant targets == TargetsOf(Snapshot(), keys[..i])
      {
        assert keys[..i + 1][..i] == keys[..i];
        if keys[i] in compounds {
          var comp := compounds[keys[i]];
          targets := targets + [Triple(comp.name, comp.stilbar, comp.smiles)];
        }
        i := i + 1;
      }
      assert keys[..|keys|] == keys;
      var filtered := FilterExisting(existing, targets);
      match filtered
      case Failure(f) =>
        fault := Some(f);
      case Success(kept) =>
        disk.data := Some([header] + kept);
        fault := None;
    }
  }
}
