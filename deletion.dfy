/**
 * `HashCompoundManager.delete_compounds` (hash_compound_manager.py) as a function of the
 * store, the data file and its backup: the requested hashes are looked up, the file is copied
 * to its backup, the matching rows are removed from the file, and the records are removed from
 * memory one by one.  An exception at any stage is caught and reported in `errors`.
 */
module Deletion {
  import opened Common
  import opened Csv
  import opened CompoundIndex
  import opened RowRemoval

  /** The entries of `errors`; the ones raised after validation carry the source's
      "Exception during deletion" prefix. */
  datatype DeleteError =
    | HashNotFound(hash: string)
    | NoValidCompounds
    | BackupFailed
    | RemoveFailed(fault: RemovalFault)
    | KeyMissing(key: string)
    | StilbarNotFound(code: string)
    | NoValidStilbarCodes

  /** One entry of `deleted_compounds`. */
  datatype DeletedEntry = DeletedEntry(hash: string, name: string, stilbar: string)

  /** The result dict of a deletion. */
  datatype DeleteResult = DeleteResult(success: bool, deletedCount: nat, deletedCompounds: seq<DeletedEntry>, errors: seq<DeleteError>)

  /** The result together with the store, the data file and the backup file afterwards. */
  datatype DeleteEffect = DeleteEffect(result: DeleteResult, index: Index, data: Option<seq<Row>>, backup: Option<seq<Row>>)

  /** `compounds_to_delete`: the stored record of each requested hash that is stored, in
      request order, repeats included. */
  function Found(idx: Index, keys: seq<string>): (r: seq<Compound>)
    ensures |r| <= |keys|
  {
    if keys == [] then []
    else
      var rest := Found(idx, keys[..|keys| - 1]);
      var h := keys[|keys| - 1];
      if h in idx.compounds then rest + [idx.compounds[h]] else rest
  }

  /** The `Hash not found` errors, one per unknown requested hash, in request order. */
  function NotFound(idx: Index, keys: seq<string>): (r: seq<DeleteError>)
    ensures |r| <= |keys|
  {
    if keys == [] then []
    else
      var rest := NotFound(idx, keys[..|keys| - 1]);
      var h := keys[|keys| - 1];
      if h in idx.compounds then rest else rest + [HashNotFound(h)]
  }

  function Entry(c: Compound): DeletedEntry
  {
    DeletedEntry(c.hash, c.name, c.stilbar)
  }

  function Entries(cs: seq<Compound>): (r: seq<DeletedEntry>)
    ensures |r| == |cs| && forall i :: 0 <= i < |cs| ==> r[i] == Entry(cs[i])
  {
    seq(|cs|, i requires 0 <= i < |cs| => Entry(cs[i]))
  }

  lemma EntriesSnoc(cs: seq<Compound>, j: nat)
    requires j < |cs|
    ensures Entries(cs[..j + 1]) == Entries(cs[..j]) + [Entry(cs[j])]
  {
    assert Entries(cs[..j + 1])[j] == Entry(cs[j]);
  }

  /** `delete_compounds(hash_keys)`: what it returns and what it leaves in memory and on disk. */
  function DeleteOutcome(idx: Index, data: Option<seq<Row>>, backup: Option<seq<Row>>, keys: seq<string>): DeleteEffect
  {
    var found := Found(idx, keys);
    var errors := NotFound(idx, keys);
    if found == [] then
      DeleteEffect(DeleteResult(false, 0, [], errors + [NoValidCompounds]), idx, data, backup)
    else if data.None? then
      // `shutil.copy` finds no file
      DeleteEffect(DeleteResult(false, 0, [], errors + [BackupFailed]), idx, data, backup)
    else
      match RemoveRows(data, TargetsOf(idx, HashesOf(found)))
      case Failure(f) =>
        DeleteEffect(DeleteResult(false, 0, [], errors + [RemoveFailed(f)]), idx, data, data)
      case Success(file) =>
        var n := RemoveCount(idx, found);
        var rest := RemoveSeq(idx, found);
        if n == |found| then
          DeleteEffect(DeleteResult(true, n, Entries(found), errors), rest, Some(file), data)
        else
          // the `del` of a hash removed earlier in the same batch raises `KeyError`
          DeleteEffect(DeleteResult(false, 0, Entries(found[..n]), errors + [KeyMissing(found[n].hash)]),
                       rest, Some(file), data)
  }

  /** Every requested hash is either found or reported, in order; the found records are the
      stored ones, and a hash is reported exactly when it is not stored. */
  lemma {:induction false} FoundOrReported(idx: Index, keys: seq<string>)
    ensures |Found(idx, keys)| + |NotFound(idx, keys)| == |keys|
    ensures forall c :: c in Found(idx, keys) ==> c.hash in keys && c.hash in idx.compounds && idx.compounds[c.hash] == c
    ensures forall h :: HashNotFound(h) in NotFound(idx, keys) <==> h in keys && h !in idx.compounds
    ensures forall i :: 0 <= i < |keys| && keys[i] in idx.compounds ==> idx.compounds[keys[i]] in Found(idx, keys)
    requires IndexValid(idx)
  {
    if keys != [] {
      var init := keys[..|keys| - 1];
      var h := keys[|keys| - 1];
      FoundOrReported(idx, init);
      assert keys == init + [h];
      forall i | 0 <= i < |keys| && keys[i] in idx.compounds ensures idx.compounds[keys[i]] in Found(idx, keys) {
        if i < |init| {
          assert keys[i] == init[i];
        }
      }
    }
  }

  /** The hashes of the found records, in order, are the requested hashes that are stored. */
  lemma {:induction false} FoundHashes(idx: Index, keys: seq<string>)
    requires IndexValid(idx)
    ensures HashesOf(Found(idx, keys)) == KnownKeys(idx, keys)
  {
    if keys != [] {
      var init := keys[..|keys| - 1];
      FoundHashes(idx, init);
      var f := Found(idx, init);
      var h := keys[|keys| - 1];
      if h in idx.compounds {
        assert HashesOf(f + [idx.compounds[h]]) == HashesOf(f) + [h];
      }
    }
  }

  /** The requested hashes that are stored, in request order. */
  function KnownKeys(idx: Index, keys: seq<string>): seq<string>
  {
    if keys == [] then []
    else
      var rest := KnownKeys(idx, keys[..|keys| - 1]);
      var h := keys[|keys| - 1];
      if h in idx.compounds then rest + [h] else rest
  }

  /** When no requested hash is stored, each is reported, the batch fails with the extra
      `No valid compounds` error, and nothing changes in memory or on disk. */
  lemma {:induction false} NothingFound(idx: Index, data: Option<seq<Row>>, backup: Option<seq<Row>>, keys: seq<string>)
    requires forall i :: 0 <= i < |keys| ==> keys[i] !in idx.compounds
    ensures var e := DeleteOutcome(idx, data, backup, keys);
      && !e.result.success && e.result.deletedCount == 0 && e.result.deletedCompounds == []
      && |e.result.errors| == |keys| + 1
      && (forall i :: 0 <= i < |keys| ==> e.result.errors[i] == HashNotFound(keys[i]))
      && e.result.errors[|keys|] == NoValidCompounds
      && e.index == idx && e.data == data && e.backup == backup
  {
    NothingFoundParts(idx, keys);
  }

  lemma {:induction false} NothingFoundParts(idx: Index, keys: seq<string>)
    requires forall i :: 0 <= i < |keys| ==> keys[i] !in idx.compounds
    ensures Found(idx, keys) == []
    ensures |NotFound(idx, keys)| == |keys| && forall i :: 0 <= i < |keys| ==> NotFound(idx, keys)[i] == HashNotFound(keys[i])
  {
    if keys != [] {
      NothingFoundParts(idx, keys[..|keys| - 1]);
    }
  }

  /** A batch succeeds exactly when some requested hash is stored, the file exists and its
      rows can be filtered, and no stored hash is requested twice. */
  lemma SuccessIff(idx: Index, data: Option<seq<Row>>, backup: Option<seq<Row>>, keys: seq<string>)
    requires IndexValid(idx)
    ensures var found := Found(idx, keys);
      DeleteOutcome(idx, data, backup, keys).result.success <==>
        && found != []
        && RemoveRows(data, TargetsOf(idx, HashesOf(found))).Success?
        && Distinct(KnownKeys(idx, keys))
  {
    var found := Found(idx, keys);
    FoundHashes(idx, keys);
    FoundOrReported(idx, keys);
    if Distinct(HashesOf(found)) {
      RemoveSeqDistinct(idx, found);
    }
    if RemoveCount(idx, found) == |found| {
      FullRemovalMeansDistinct(idx, found);
    }
  }

  /** A successful batch of distinct stored hashes removes exactly those records and their
      barcodes, reports each of them, backs up the old file and writes the filtered one. */
  lemma SuccessEffect(idx: Index, data: Option<seq<Row>>, backup: Option<seq<Row>>, keys: seq<string>)
    requires IndexValid(idx)
    requires DeleteOutcome(idx, data, backup, keys).result.success
    ensures var e := DeleteOutcome(idx, data, backup, keys);
      var found := Found(idx, keys);
      && e.result.deletedCount == |found| == |KnownKeys(idx, keys)|
      && e.result.deletedCompounds == Entries(found)
      && e.result.errors == NotFound(idx, keys)
      && e.index.compounds == idx.compounds - HashSet(found)
      && e.index.stilbarToHash == idx.stilbarToHash - StilbarsOf(found)
      && (forall h :: h in e.index.order <==> h in idx.order && h !in keys)
      && e.index.order == Except(idx.order, HashSet(found))
      && e.backup == data
      && e.data == Some(RemoveRows(data, TargetsOf(idx, HashesOf(found))).value)
  {
    var found := Found(idx, keys);
    SuccessIff(idx, data, backup, keys);
    FoundHashes(idx, keys);
    FoundOrReported(idx, keys);
    RemoveSeqDistinct(idx, found);
    FoundHashSet(idx, keys);
  }

  /** The hashes of the found records are the requested hashes that are stored. */
  lemma FoundHashSet(idx: Index, keys: seq<string>)
    requires IndexValid(idx)
    ensures forall h :: h in HashSet(Found(idx, keys)) <==> h in keys && h in idx.compounds
  {
    var found := Found(idx, keys);
    FoundOrReported(idx, keys);
    forall h ensures h in HashSet(found) <==> h in keys && h in idx.compounds {
      if h in keys && h in idx.compounds {
        var i :| 0 <= i < |keys| && keys[i] == h;
        assert idx.compounds[h] in found;
        var j :| 0 <= j < |found| && found[j] == idx.compounds[h];
        assert HashesOf(found)[j] == h;
      }
      if h in HashSet(found) {
        var j :| 0 <= j < |found| && HashesOf(found)[j] == h;
        assert found[j] in found;
      }
    }
  }

  /** A stored hash requested twice makes the second `del` raise: the batch fails after the
      records before the repeat (`n` of them, at least one) have left memory with their barcodes,
      reports those records and the missing key, and still leaves the file filtered and backed
      up.  The key that raises belongs to one of the records already removed. */
  lemma RepeatedHashFails(idx: Index, f: seq<Row>, backup: Option<seq<Row>>, keys: seq<string>, i: nat, j: nat)
    requires IndexValid(idx)
    requires i < j < |keys| && keys[i] == keys[j] && keys[i] in idx.compounds
    requires RemoveRows(Some(f), TargetsOf(idx, HashesOf(Found(idx, keys)))).Success?
    ensures var e := DeleteOutcome(idx, Some(f), backup, keys);
      var found := Found(idx, keys);
      var n := RemoveCount(idx, found);
      && 1 <= n < |found|
      && !e.result.success && e.result.deletedCount == 0
      && e.result.deletedCompounds == Entries(found[..n])
      && e.result.errors == NotFound(idx, keys) + [KeyMissing(found[n].hash)]
      && found[n].hash in HashSet(found[..n])
      && e.index.compounds == idx.compounds - HashSet(found[..n])
      && e.index.stilbarToHash == idx.stilbarToHash - StilbarsOf(found[..n])
      && e.index.order == Except(idx.order, HashSet(found[..n]))
      && e.data == Some(RemoveRows(Some(f), TargetsOf(idx, HashesOf(found))).value)
      && e.backup == Some(f)
  {
    SuccessIff(idx, Some(f), backup, keys);
    FoundOrReported(idx, keys);
    KnownKeysRepeat(idx, keys, i, j);
    var found := Found(idx, keys);
    var n := RemoveCount(idx, found);
    assert idx.compounds[keys[i]] in found;
    assert found[0] in found;
    RemovePrefix(idx, found);
    var pre := found[..n];
    FullRemovalMeansDistinct(idx, pre);
    forall k | 0 <= k < |pre| ensures pre[k].hash in idx.compounds {
      assert pre[k] == found[k] && found[k] in found;
    }
    RemoveSeqDistinct(idx, pre);
    assert found[n] in found;
  }

  /** A repeated stored key is repeated among the known keys. */
  lemma {:induction false} KnownKeysRepeat(idx: Index, keys: seq<string>, i: nat, j: nat)
    requires i < j < |keys| && keys[i] == keys[j] && keys[i] in idx.compounds
    ensures !Distinct(KnownKeys(idx, keys))
  {
    var init := keys[..|keys| - 1];
    if j < |keys| - 1 {
      KnownKeysRepeat(idx, init, i, j);
      var k := KnownKeys(idx, init);
      var a, b :| 0 <= a < b < |k| && k[a] == k[b];
      assert KnownKeys(idx, keys)[a] == k[a] && KnownKeys(idx, keys)[b] == k[b];
    } else {
      KnownKeysMember(idx, init, i);
      var k := KnownKeys(idx, init);
      var a :| 0 <= a < |k| && k[a] == keys[i];
      assert KnownKeys(idx, keys) == k + [keys[j]];
      assert KnownKeys(idx, keys)[a] == KnownKeys(idx, keys)[|k|];
    }
  }

  lemma {:induction false} KnownKeysMember(idx: Index, keys: seq<string>, i: nat)
    requires i < |keys| && keys[i] in idx.compounds
    ensures keys[i] in KnownKeys(idx, keys)
  {
    var init := keys[..|keys| - 1];
    if i < |keys| - 1 {
      KnownKeysMember(idx, init, i);
    }
  }

  /** A failure before the memory stage (nothing found, no file, a row that raises) leaves the
      store exactly as it was. */
  lemma FailureBeforeRemovalKeepsStore(idx: Index, data: Option<seq<Row>>, backup: Option<seq<Row>>, keys: seq<string>)
    requires var found := Found(idx, keys);
      found == [] || !RemoveRows(data, TargetsOf(idx, HashesOf(found))).Success?
    ensures DeleteOutcome(idx, data, backup, keys).index == idx
    ensures !DeleteOutcome(idx, data, backup, keys).result.success
  {
  }
}
