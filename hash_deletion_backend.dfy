/**
 * hash_deletion_backend.py (and its copy under Test/): deleting records through a freshly
 * loaded `HashCompoundManager`, by hash or by barcode.  Each entry point builds its own
 * manager over the data file, so the outcome depends on the file alone; the barcode entry
 * point resolves every code first and refuses the whole batch when one is unknown.
 */
module HashDeletionBackend {
  import opened Common
  import opened Csv
  import opened Identity
  import opened CompoundIndex
  import opened Deletion
  import opened CompoundStore
  import SmilesGenerator

  /** A refused request: nothing deleted, `deleted_compounds` empty. */
  function Refused(errors: seq<DeleteError>): DeleteResult
  {
    DeleteResult(false, 0, [], errors)
  }

  /** `hash_keys`: the hash of each code that has a barcode mapping, in input order. */
  function ResolvedHashes(idx: Index, codes: seq<string>): (r: seq<string>)
    ensures |r| <= |codes|
  {
    if codes == [] then []
    else
      var rest := ResolvedHashes(idx, codes[..|codes| - 1]);
      var c := GetCompoundByStilbar(idx, codes[|codes| - 1]);
      if c.Some? then rest + [c.value.hash] else rest
  }

  /** `conversion_errors`: one `StilBAR code not found` per code without a mapping, in input order. */
  function Unresolved(idx: Index, codes: seq<string>): (r: seq<DeleteError>)
    ensures |r| <= |codes|
  {
    if codes == [] then []
    else
      var rest := Unresolved(idx, codes[..|codes| - 1]);
      var code := codes[|codes| - 1];
      if GetCompoundByStilbar(idx, code).Some? then rest else rest + [StilbarNotFound(code)]
  }

  /** `delete_compounds_by_hashes` on a data file and its backup. */
  function ByHashes(digest: Digest, data: Option<seq<Row>>, backup: Option<seq<Row>>, keys: seq<string>): DeleteEffect
  {
    DeleteOutcome(LoadFile(digest, data), data, backup, keys)
  }

  /** `delete_compounds_by_stilbars` on a data file and its backup. */
  function ByStilbars(digest: Digest, data: Option<seq<Row>>, backup: Option<seq<Row>>, codes: seq<string>): DeleteEffect
  {
    var idx := LoadFile(digest, data);
    var errors := Unresolved(idx, codes);
    if errors != [] then
      DeleteEffect(Refused(errors), idx, data, backup)
    else
      var hashes := ResolvedHashes(idx, codes);
      if hashes == [] then DeleteEffect(Refused([NoValidStilbarCodes]), idx, data, backup)
      else ByHashes(digest, data, backup, hashes)
  }

  /** Every code is either resolved or reported, and exactly the codes without a mapping are reported. */
  lemma {:induction false} ResolvedOrReported(idx: Index, codes: seq<string>)
    ensures |ResolvedHashes(idx, codes)| + |Unresolved(idx, codes)| == |codes|
    ensures forall code :: StilbarNotFound(code) in Unresolved(idx, codes) <==>
              code in codes && GetCompoundByStilbar(idx, code).None?
  {
    if codes != [] {
      var init := codes[..|codes| - 1];
      ResolvedOrReported(idx, init);
      assert codes == init + [codes[|codes| - 1]];
    }
  }

  /** With no code reported, the hashes are those of the codes' records, one per code, in input order. */
  lemma {:induction false} AllResolvedKeepsOrder(idx: Index, codes: seq<string>)
    requires Unresolved(idx, codes) == []
    ensures |ResolvedHashes(idx, codes)| == |codes|
    ensures forall i :: 0 <= i < |codes| ==>
              GetCompoundByStilbar(idx, codes[i]).Some? &&
              ResolvedHashes(idx, codes)[i] == GetCompoundByStilbar(idx, codes[i]).value.hash
  {
    if codes != [] {
      var init := codes[..|codes| - 1];
      assert Unresolved(idx, init) == [];
      AllResolvedKeepsOrder(idx, init);
      forall i | 0 <= i < |codes|
        ensures GetCompoundByStilbar(idx, codes[i]).Some? &&
                ResolvedHashes(idx, codes)[i] == GetCompoundByStilbar(idx, codes[i]).value.hash
      {
        if i < |init| {
          assert codes[i] == init[i];
        }
      }
    }
  }

  /** Resolved hashes are all stored, so the delegated deletion reports no unknown hash and
      finds one record per code. */
  lemma AllResolvedAllFound(idx: Index, codes: seq<string>)
    requires IndexValid(idx) && Unresolved(idx, codes) == []
    ensures NotFound(idx, ResolvedHashes(idx, codes)) == []
    ensures |Found(idx, ResolvedHashes(idx, codes))| == |codes|
  {
    var hs := ResolvedHashes(idx, codes);
    AllResolvedKeepsOrder(idx, codes);
    assert forall i :: 0 <= i < |hs| ==> hs[i] in idx.compounds;
    AllStoredAllFound(idx, hs);
  }

  lemma {:induction false} AllStoredAllFound(idx: Index, keys: seq<string>)
    requires forall i :: 0 <= i < |keys| ==> keys[i] in idx.compounds
    ensures NotFound(idx, keys) == [] && |Found(idx, keys)| == |keys|
  {
    if keys != [] {
      AllStoredAllFound(idx, keys[..|keys| - 1]);
    }
  }

  /** One unknown code refuses the batch: nothing is deleted and neither file changes, and
      every unknown code is listed. */
  lemma UnknownCodeRefusesBatch(digest: Digest, data: Option<seq<Row>>, backup: Option<seq<Row>>, codes: seq<string>, k: nat)
    requires k < |codes| && GetCompoundByStilbar(LoadFile(digest, data), codes[k]).None?
    ensures var e := ByStilbars(digest, data, backup, codes);
      && e.result == Refused(Unresolved(LoadFile(digest, data), codes))
      && e.data == data && e.backup == backup
      && StilbarNotFound(codes[k]) in e.result.errors
  {
    ResolvedOrReported(LoadFile(digest, data), codes);
  }

  /** An empty list of codes is refused with `No valid StilBAR codes provided`; a non-empty list
      of known codes is never refused that way. */
  lemma EmptyCodesRefused(digest: Digest, data: Option<seq<Row>>, backup: Option<seq<Row>>, codes: seq<string>)
    requires Unresolved(LoadFile(digest, data), codes) == []
    ensures ByStilbars(digest, data, backup, codes).result == Refused([NoValidStilbarCodes]) <==> codes == []
    ensures codes == [] ==> ByStilbars(digest, data, backup, codes).data == data
  {
    AllResolvedKeepsOrder(LoadFile(digest, data), codes);
    if codes != [] {
      var idx := LoadFile(digest, data);
      LoadFileValid(digest, data);
      AllResolvedAllFound(idx, codes);
      var e := ByHashes(digest, data, backup, ResolvedHashes(idx, codes));
      assert e.result.errors != [NoValidStilbarCodes] by {
        DeleteErrorsNeverNoValidCodes(idx, data, backup, ResolvedHashes(idx, codes));
      }
    }
  }

  /** The manager's deletion never reports the barcode back end's own `No valid StilBAR codes` error. */
  lemma DeleteErrorsNeverNoValidCodes(idx: Index, data: Option<seq<Row>>, backup: Option<seq<Row>>, keys: seq<string>)
    ensures NoValidStilbarCodes !in DeleteOutcome(idx, data, backup, keys).result.errors
  {
    NotFoundAreHashErrors(idx, keys);
  }

  lemma {:induction false} NotFoundAreHashErrors(idx: Index, keys: seq<string>)
    ensures forall e :: e in NotFound(idx, keys) ==> e.HashNotFound?
  {
    if keys != [] {
      NotFoundAreHashErrors(idx, keys[..|keys| - 1]);
    }
  }

  /** When every code is known, the barcode deletion is the hash deletion of the codes' hashes,
      in input order. */
  lemma StilbarsDelegateToHashes(digest: Digest, data: Option<seq<Row>>, backup: Option<seq<Row>>, codes: seq<string>)
    requires codes != [] && Unresolved(LoadFile(digest, data), codes) == []
    ensures var idx := LoadFile(digest, data);
      var hs := ResolvedHashes(idx, codes);
      && |hs| == |codes|
      && (forall i :: 0 <= i < |codes| ==>
            GetCompoundByStilbar(idx, codes[i]).Some? && hs[i] == GetCompoundByStilbar(idx, codes[i]).value.hash)
      && ByStilbars(digest, data, backup, codes) == ByHashes(digest, data, backup, hs)
  {
    var idx := LoadFile(digest, data);
    AllResolvedKeepsOrder(idx, codes);
    assert ResolvedHashes(idx, codes) != [];
  }

  /** A store holding one record whose barcode is written with long dashes. */
  const DashedRecord: Compound := Compound("h1", "n", "A\U{2013}1", "C", "1")
  const DashedIndex: Index := Store(Empty, DashedRecord)

  lemma DashedIndexValid()
    ensures IndexValid(DashedIndex)
    ensures GetCompoundByStilbar(DashedIndex, "A\U{2013}1") == Some(DashedRecord)
    ensures GetCompoundByStilbar(DashedIndex, "A-1") == None
  {
    StoreEffect(Empty, DashedRecord);
    assert "A-1" != "A\U{2013}1" by { assert "A-1"[1] != "A\U{2013}1"[1]; }
  }

  lemma HyphenCodeCleaning()
    ensures Text.CleanInput("A-1") == "A-1" && Text.Normalize("A-1") == "A\U{2013}1"
  {
    Text.StripNoOp("A-1");
    Text.RemoveCharNoOp("A-1", ' ');
  }

  /** Counterexample to the backend resolving codes as the generator does; its barcode lookup
      is exact: a hyphenated code does not find the record whose barcode is its long-dash form,
      while `generate_smiles` does. */
  lemma ExactLookupUnlikeGenerator()
    ensures IndexValid(DashedIndex)
    ensures Unresolved(DashedIndex, ["A-1"]) == [StilbarNotFound("A-1")]
    ensures SmilesGenerator.GenerateSmiles(DashedIndex, "A-1") ==
              SmilesGenerator.Resolved("C", SmilesGenerator.StilbarLookup, "n", "A\U{2013}1")
  {
    DashedIndexValid();
    HyphenCodeCleaning();
    assert ["A-1"][..0] == [];
  }

  /** `delete_compounds_by_hashes`: a fresh manager over the file, then its deletion. */
  method DeleteCompoundsByHashes(disk: Disk, digest: Digest, keys: seq<string>) returns (r: DeleteResult)
    modifies disk
    ensures var e := ByHashes(digest, old(disk.data), old(disk.backup), keys);
      r == e.result && disk.data == e.data && disk.backup == e.backup
  {
    var manager := new HashCompoundManager(disk, digest);
    r := manager.DeleteCompounds(keys);
  }

  /** `delete_compounds_by_stilbars`: resolve every code with the exact lookup, refuse the batch
      on any unknown code or on none at all, otherwise delete by hash. */
  method DeleteCompoundsByStilbars(disk: Disk, digest: Digest, codes: seq<string>) returns (r: DeleteResult)
    modifies disk
    ensures var e := ByStilbars(digest, old(disk.data), old(disk.backup), codes);
      r == e.result && disk.data == e.data && disk.backup == e.backup
  {
    var manager := new HashCompoundManager(disk, digest);
    var hashKeys: seq<string> := [];
    var conversionErrors: seq<DeleteError> := [];
    for i := 0 to |codes|
      invariant hashKeys == ResolvedHashes(manager.Snapshot(), codes[..i])
      invariant conversionErrors == Unresolved(manager.Snapshot(), codes[..i])
    {
      assert codes[..i + 1][..i] == codes[..i];
      var compound := GetCompoundByStilbar(manager.Snapshot(), codes[i]);
      if compound.Some? {
        hashKeys := hashKeys + [compound.value.hash];
      } else {
        conversionErrors := conversionErrors + [StilbarNotFound(codes[i])];
      }
    }
    assert codes[..|codes|] == codes;
    if conversionErrors != [] {
      return Refused(conversionErrors);
    }
    if hashKeys == [] {
      return Refused([NoValidStilbarCodes]);
    }
    r := DeleteCompoundsByHashes(disk, digest, hashKeys);
  }
}
