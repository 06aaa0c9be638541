# StilBAR catalogue: a verified model

StilBAR-Converter keeps a catalogue of chemical compounds in a CSV file. Each row has a number, a
name, a StilBAR barcode and a SMILES string. This project models the catalogue's core in Dafny:

- **`HashCompoundManager`** (modules `CompoundIndex`, `RowRemoval`, `Deletion`, `CompoundStore`)
  is the in-memory store. It has three parts:
  - `compounds`, from an 8-character identity hash to a record;
  - `stilbar_to_hash`, from a raw barcode to a hash;
  - the insertion order of `compounds`' keys, which Python's dict keeps.

  Its operations are:
  - loading from the file;
  - exact lookup by barcode or by hash;
  - adding a compound, rejecting an identity that is already stored;
  - batch deletion by hash, which backs up the file, removes the matching rows by content, and
    then removes the records from memory one by one.

  The class `CompoundStore.HashCompoundManager` updates these fields in place. Each of its methods
  is proved against a function on the store's value (`CompoundIndex.Index`).
- **`FixedSMILESGenerator`** (module `SmilesGenerator`) resolves a typed-in code in a fixed order:
  1. the dash-normalised code;
  2. the cleaned code as typed;
  3. a 1-based position in the store's order.

  Otherwise it reports that nothing was found. It also lists compound numbers and barcodes.
- **`deletion_backend.delete_compounds`** (module `DeletionBackend`) deletes rows whose stripped
  first cell is one of the requested IDs. It keeps the header, drops blank lines and writes a
  backup before rewriting the file. It does nothing when no row matches.
- **`hash_deletion_backend`** (module `HashDeletionBackend`) deletes by hash through a freshly
  loaded manager, or deletes by barcode. Deletion by barcode is all or nothing: every code is
  resolved first, and one unknown code refuses the whole batch.
- **`clean_csv_file`** (module `CleanCsv`) turns a hand-edited spreadsheet into one record per
  numbered compound:
  - a continuation row (empty ID) with a barcode fills only an empty barcode of the record;
  - a continuation row without a barcode fills only an empty SMILES;
  - only records with a SMILES are kept;
  - the result is sorted stably by number.

Shared pieces:
- `Text` models Python's `strip` (Python's whitespace set), the `replace` calls, ASCII `isdigit`,
  `int` and `str`.
- `Csv` models the files: `Disk` holds the data file and its `.backup`, each `None` when absent,
  and `Field` gives the `DictReader` view of a row.
- `Identity` models the key. SHA-256 is a parameter `Digest`: any function whose results have
  8 characters.

The files under `Test/` are line-for-line copies of `hash_deletion_backend.py` and `clean_csv.py`,
so one model covers each pair of copies.

## Model

| member | source | states |
|---|---|---|
| Text.StripSpec | hash_compound_manager.py:45-47 | `strip()` yields a contiguous slice of the input with only whitespace cut from either end and no whitespace left at either end; it is empty exactly when every character is whitespace |
| Text.StripIdempotent | clean_csv.py:31-34 | stripping an already stripped cell changes nothing |
| Text.RemoveChar | fixed_smiles_generator.py:27 | `replace(' ', '')` never grows the string, keeps exactly the characters other than the removed one, and keeps a first or last character that is not removed |
| Text.RemoveCharConcat | fixed_smiles_generator.py:27 | removal works character by character: on a concatenation it is the removal on each part, so the kept characters stay in order, each kept once |
| Text.RemoveCharSingle | fixed_smiles_generator.py:27 | a single character is dropped exactly when it is the removed one |
| Text.Replace | fixed_smiles_generator.py:30 | `replace('-', '–')` keeps the length and changes exactly the positions holding the replaced character |
| Text.CleanInput | fixed_smiles_generator.py:27 | the cleaned input contains no space |
| Text.Normalize | fixed_smiles_generator.py:30 | normalisation keeps the length and leaves no hyphen |
| Text.CleanStilbar | hash_compound_manager.py:23 | the cleaned barcode contains neither a space nor a hyphen |
| Text.CleanedIsFixpoint | hash_compound_manager.py:23 | a cleaned barcode is unchanged by strip, by space removal and by dash normalisation |
| Text.CleanStilbarIdempotent | hash_compound_manager.py:23 | cleaning a barcode twice equals cleaning it once |
| Text.NatToString | hash_compound_manager.py:102 | `str(n)` is all digits with no leading zero |
| Text.NatToStringRoundTrip | hash_compound_manager.py:102 | `int(str(n)) == n` |
| Identity.GenerateHash | hash_compound_manager.py:20-28 | the identity has 8 characters |
| Identity.SameIdentityForEquivalentInputs | hash_compound_manager.py:23-25 | codes with the same cleaned form and names with the same stripped form get the same identity |
| Identity.IdentityOfCleanedCode | hash_compound_manager.py:23-25 | hashing the cleaned code and the stripped name gives the identity of the raw inputs |
| Identity.HashInputInjective | hash_compound_manager.py:25 | when neither stripped name contains a bar, equal hashed strings mean equal cleaned codes and equal stripped names |
| Csv.LastIndex | hash_compound_manager.py:38-41 | a column name is found exactly when the header has it, and the last column with that name is the one found |
| Csv.Field | hash_compound_manager.py:41 | `row.get(name)` is absent exactly when the header lacks the column |
| Csv.FieldAtDistinctHeader | hash_compound_manager.py:207 | with distinct header names and a full-length row, field `header[k]` is cell `k` |
| Csv.DataRows | hash_compound_manager.py:38-40 | `DictReader` yields exactly the non-empty rows after the header, and nothing for a file of at most one row |
| Csv.DataRowsSnoc | hash_compound_manager.py:38-40 | appending a row to a file with a header appends it to the data rows when it is non-empty and skips it when blank, so the data rows keep the file's order |
| CompoundIndex.ReadRow | hash_compound_manager.py:41-63 | a row is skipped exactly when `num` or `smiles` is falsy; it raises exactly when its name or barcode is `None`; otherwise it yields the stripped record keyed by the hash of barcode or, if that is empty, name |
| CompoundIndex.LoadRowsStep | hash_compound_manager.py:40-63 | rows are loaded in order: a skipped row leaves the store, a raising row ends the load with the store so far, a record row is stored before the next row |
| CompoundIndex.StoreEffect | hash_compound_manager.py:61-63 | storing replaces the record under its hash, points a non-empty barcode at that hash, appends the hash to the order only when it is new, and keeps the invariants |
| CompoundIndex.LoadRowsValid | hash_compound_manager.py:40-63 | after any run of rows, every barcode leads to a stored record and every record has a number |
| CompoundIndex.LoadFileValid | hash_compound_manager.py:30-70 | the loaded store is valid, every barcode leads to a stored record and every record has a number |
| CompoundIndex.LoadFileEmpty | hash_compound_manager.py:33-68 | a missing file, or one with no data row, loads as the empty store |
| CompoundIndex.LoadFile | hash_compound_manager.py:30-70 | the store `load_compounds` builds from the file; it has no contract of its own, `LoadRowsStep`, `LoadFileValid` and `LoadFileEmpty` state what it yields |
| CompoundIndex.GetCompoundByStilbar | hash_compound_manager.py:72-81 | lookup by the exact raw barcode finds a record exactly when the barcode maps to a non-empty stored hash, and returns that hash's record |
| CompoundIndex.GetCompoundByHash | hash_compound_manager.py:83-85 | lookup by hash finds a record exactly when the hash is stored, and the record carries that hash |
| CompoundIndex.AllCompounds | hash_compound_manager.py:261-263 | the listing has one record per key, in insertion order, and holds exactly the stored records |
| CompoundIndex.OrderSize | hash_compound_manager.py:261-263 | the order has one entry per stored record |
| CompoundIndex.GetStats | hash_compound_manager.py:265-271 | the total is the number of records, the with-barcode count is the number of barcode keys, and the two counts add up to the total |
| CompoundIndex.WithoutStilbarCanBeNegative | hash_compound_manager.py:270 | two raw barcodes of one record give a negative without-barcode count in a valid store |
| CompoundIndex.AddEffect | hash_compound_manager.py:105-108 | adding a new hash grows the store by one, appends the record to the listing, maps its barcode if non-empty, and keeps the invariants |
| CompoundIndex.AddAppends | hash_compound_manager.py:106 | inserting a new key at the end of the order appends its record to the listing |
| CompoundIndex.AddThenLookup | hash_compound_manager.py:106-108 | once stored, a record is found by its raw barcode |
| CompoundIndex.Without | hash_compound_manager.py:151 | deleting a key from the order leaves exactly the other keys, and nothing changes when the key is absent |
| CompoundIndex.WithoutConcat | hash_compound_manager.py:151 | deleting a key works entry by entry, so the other keys keep their relative order |
| CompoundIndex.Except | hash_compound_manager.py:147-151 | the order with a set of keys deleted holds exactly the keys outside the set |
| CompoundIndex.ExceptConcat | hash_compound_manager.py:147-151 | deleting a set of keys works entry by entry, so the remaining keys keep their relative order |
| CompoundIndex.ExceptExcept | hash_compound_manager.py:147-151 | deleting one key set and then another deletes their union |
| CompoundIndex.WithoutIsExcept | hash_compound_manager.py:151 | deleting one key is deleting the set holding just that key |
| CompoundIndex.WithoutDistinct | hash_compound_manager.py:151 | deleting a key keeps the order free of repeats |
| CompoundIndex.RemoveCount | hash_compound_manager.py:147-151 | the number of records removed before a `del` fails is at most the batch size |
| CompoundIndex.HashesOf | hash_compound_manager.py:144 | the hashes passed to the file removal are those of the batch, position by position |
| CompoundIndex.RemoveStep | hash_compound_manager.py:147-153 | removing a batch is removing its first record, then the rest |
| CompoundIndex.RemoveSeq | hash_compound_manager.py:147-153 | the removal loop over a batch, stopping at the first `del` that fails; it has no contract of its own, `RemoveStep`, `RemoveSeqValid`, `RemoveSeqDistinct` and `RemoveSeqOrder` state what it does |
| CompoundIndex.RemoveOneValid | hash_compound_manager.py:151-153 | removing one record keeps the invariant |
| CompoundIndex.RemoveSeqValid | hash_compound_manager.py:147-159 | removing a whole batch keeps the invariant |
| CompoundIndex.RemoveSeqDistinct | hash_compound_manager.py:147-159 | for distinct stored hashes, every record is removed; `compounds` loses exactly those hashes, `stilbar_to_hash` exactly their barcodes, and the order exactly those keys, the other keys keeping their relative order |
| CompoundIndex.RemoveSeqOrder | hash_compound_manager.py:147-153 | when every `del` succeeds, the new order is the old one with the batch's hashes deleted and the other keys in their old order |
| CompoundIndex.RemoveOneBarcode | hash_compound_manager.py:152-153 | removing a record drops exactly its own barcode key, if it has one |
| CompoundIndex.RemoveSeqShrinks | hash_compound_manager.py:147-153 | removal never adds a hash |
| CompoundIndex.RemovePrefix | hash_compound_manager.py:147-153 | the loop over only the records it removes ends in the same store and count, and an early stop is at a hash no longer stored |
| CompoundIndex.FullRemovalMeansDistinct | hash_compound_manager.py:147-151 | if every `del` of a batch succeeds, its hashes were distinct and stored |
| CompoundIndex.RemoveDropsRedirectedBarcode | hash_compound_manager.py:152-153 | deleting a record whose barcode was redirected to another record loses that other record's barcode mapping |
| CompoundIndex.RemoveCanLeaveDanglingBarcode | hash_compound_manager.py:152-153 | a second barcode key of a deleted record is left pointing at no record |
| CompoundIndex.RemoveAppended | hash_compound_manager.py:151-153 | removing the record just appended restores `compounds` and the order and drops its barcode key |
| CompoundIndex.AddThenRemove | hash_compound_manager.py:147-153 | adding a new record and deleting it restores the records and the order; only a replaced barcode mapping is lost |
| RowRemoval.TargetsOfMembers | hash_compound_manager.py:212-220 | the targets are exactly the (name, barcode, SMILES) contents of the requested hashes that are stored |
| RowRemoval.Rebuild | hash_compound_manager.py:207 | a rebuilt row has one cell per header name, the `DictReader` field of that name, never absent |
| RowRemoval.RebuildAll | hash_compound_manager.py:206-207 | every data row is rebuilt the same way, in order |
| RowRemoval.Render | hash_compound_manager.py:254-256 | writing a rebuilt row keeps its length and its text cells |
| RowRemoval.Judge | hash_compound_manager.py:229-246 | a row raises exactly when it has four cells or more and one of cells 1-3 is `None`; a kept row has at least four cells |
| RowRemoval.JudgeMeaning | hash_compound_manager.py:229-248 | a row is kept exactly when it has four text cells whose stripped content is no target, and dropped exactly when it is short or its content is a target |
| RowRemoval.RemoveRows | hash_compound_manager.py:197-259 | a missing file and an empty file make the removal raise; a successful removal keeps the header first |
| RowRemoval.FilterCells | hash_compound_manager.py:225-248 | the filter over the rebuilt rows, raising at the first row that raises; it has no contract of its own, `FilterFailsIff`, `FilterKeepsOnlyUnmatched`, `FilterKeepsEveryUnmatched` and `FilterCellsConcat` state what it yields |
| RowRemoval.FilterCellsConcat | hash_compound_manager.py:225-248 | the filter works row by row: on a concatenation it raises with the first part's fault, else with the second part's, else yields the kept rows of both parts in order |
| RowRemoval.FilterFailsIff | hash_compound_manager.py:228-248 | the filter succeeds exactly when no row raises |
| RowRemoval.FilterKeepsOnlyUnmatched | hash_compound_manager.py:225-248 | every kept row has four cells or more and matches no target |
| RowRemoval.FilterKeepsEveryUnmatched | hash_compound_manager.py:245-246 | every row judged as kept is in the output |
| RowRemoval.ShortHeaderDropsAll | hash_compound_manager.py:204-248 | with a header of fewer than four names, every data row is dropped and only the header is written |
| RowRemoval.ShortRowsDropped | hash_compound_manager.py:247-248 | rows with fewer than four cells are dropped |
| RowRemoval.UnstrippedTargetNeverMatches | hash_compound_manager.py:230-239 | a target whose name has surrounding whitespace changes nothing in the removal |
| RowRemoval.FilterIgnoresUnstripped | hash_compound_manager.py:230-239 | the same holds for the filter loop alone |
| RowRemoval.FilterExisting | hash_compound_manager.py:225-248 | the filter loop, with its `should_delete` flag, computes the specified filter |
| RowRemoval.SuffixKeepsFailure | hash_compound_manager.py:228-232 | once a row raises, the whole removal raises whatever follows |
| Deletion.Entries | hash_compound_manager.py:155-159 | one `deleted_compounds` entry per removed record, in order |
| Deletion.DeleteOutcome | hash_compound_manager.py:115-169 | the result, store and files `delete_compounds` leaves on every path; it has no contract of its own: `NothingFound` states the nothing-found path, `FailureBeforeRemovalKeepsStore` the failures before the memory loop, `SuccessIff`/`SuccessEffect` the success path, and `RepeatedHashFails` the partial removal of a repeated hash (reported entries, errors, store, barcodes, order, filtered file and backup) |
| Deletion.FoundOrReported | hash_compound_manager.py:126-131 | every requested hash is found or reported; found records are the stored ones; a hash is reported exactly when it is not stored |
| Deletion.FoundHashes | hash_compound_manager.py:144 | the hashes handed to the file removal are the stored requested keys, in request order |
| Deletion.NothingFound | hash_compound_manager.py:133-135 | with no stored hash requested, the result fails with one error per hash plus the closing error, and neither the store nor the files change |
| Deletion.SuccessIff | hash_compound_manager.py:161-162 | a deletion succeeds exactly when some requested hash is stored, the file removal succeeds, and no stored hash is requested twice |
| Deletion.SuccessEffect | hash_compound_manager.py:146-162 | after success the count is the number of found hashes. The errors list the unknown ones. The store loses exactly the found hashes and their barcodes, and the order loses the found hashes with the other keys in their old order. The backup is the old file and the file is the filtered one |
| Deletion.RepeatedHashFails | hash_compound_manager.py:147-169 | a stored hash requested twice makes a `del` raise after `n` removals, `1 <= n <` the number found: failure with count 0; the first `n` found records are reported and are exactly what leaves `compounds`, `stilbar_to_hash` and the order (the others keep their order); the errors are the unknown hashes then `KeyMissing` of an already removed hash; the file is the filtered one and the backup the old file |
| Deletion.FailureBeforeRemovalKeepsStore | hash_compound_manager.py:133-144 | when nothing is found or the file removal raises, the store is unchanged and the deletion fails |
| CompoundStore.AddDuplicateChangesNothing | hash_compound_manager.py:92-94 | an identity already stored raises `ValueError` and changes neither the store nor the file |
| CompoundStore.Add | hash_compound_manager.py:87-113 | the result, store and file `add_compound` leaves; it has no contract of its own, `AddDuplicateChangesNothing` and `AddNewRecord` state them |
| CompoundStore.AddNewRecord | hash_compound_manager.py:96-113 | a new identity adds one record, numbered `size + 1`, at the end of the listing. The store stays valid, and every barcode still leads to a record if every one did before. The file gets the row (hash, name, code, SMILES) appended. A missing file raises after the record is already in memory |
| CompoundStore.HashCompoundManager.constructor | hash_compound_manager.py:14-18 | a new manager holds the store loaded from its file |
| CompoundStore.HashCompoundManager.LoadCompounds | hash_compound_manager.py:30-70 | loading clears both dicts and rebuilds them from the file's rows |
| CompoundStore.HashCompoundManager.StoreRecord | hash_compound_manager.py:61-63 | storing one record in place gives the specified store and keeps the invariant |
| CompoundStore.HashCompoundManager.AddCompound | hash_compound_manager.py:87-113 | the new state, the file and the result are those of `Add`; the backup is untouched |
| CompoundStore.HashCompoundManager.AddToCsv | hash_compound_manager.py:171-195 | the file gets the new row appended, or the call fails when there is no file; the backup is untouched |
| CompoundStore.HashCompoundManager.DeleteCompounds | hash_compound_manager.py:115-169 | the result, the new store, the file and the backup are those of `DeleteOutcome` |
| CompoundStore.HashCompoundManager.RemoveFromMemory | hash_compound_manager.py:147-162 | the records are removed one by one until a `del` fails. The result is success with every entry, or failure with the entries removed so far and a key error |
| CompoundStore.HashCompoundManager.ForgetRecord | hash_compound_manager.py:148-153 | one record leaves `compounds` and the order, and its barcode key leaves `stilbar_to_hash` |
| CompoundStore.HashCompoundManager.RemoveFromCsv | hash_compound_manager.py:197-259 | the file becomes the filtered rows, or stays as it was when the removal raises; the backup is untouched |
| SmilesGenerator.GenerateSmiles | fixed_smiles_generator.py:21-77 | a miss returns the input raw, cleaned and normalised. A hit is a stored record. A hit on the typed code needs a hyphen in it. A number hit is the input's value, between 1 and the store size. Which strategy wins is stated by `ResolutionOrder` |
| SmilesGenerator.ResolutionOrder | fixed_smiles_generator.py:27-77 | the strategies are tried in order: a hit on the normalised code wins; otherwise a hit on the cleaned code, when it differs; otherwise the record at a numeric input's position between 1 and the store size; the result is not found exactly when all three miss |
| SmilesGenerator.DigitsAreClean | fixed_smiles_generator.py:27-30 | a digit string is its own cleaned and normalised form |
| SmilesGenerator.NumericBarcodeWinsOverPosition | fixed_smiles_generator.py:33-54 | a numeric input that is a stored barcode resolves by barcode, not by position |
| SmilesGenerator.NumberResolvesToPosition | fixed_smiles_generator.py:54-66 | `str(n)`, for n from 1 to the store size and not a barcode, resolves to the n-th record with number n |
| SmilesGenerator.NumberOutOfRangeNotFound | fixed_smiles_generator.py:54-77 | a number that is 0 or above the store size, and not a barcode, is not found |
| SmilesGenerator.BlankInputNotFound | fixed_smiles_generator.py:71-77 | an all-whitespace input is not found, with empty cleaned and normalised forms |
| SmilesGenerator.AddThenResolve | fixed_smiles_generator.py:33-40 | a record just added under a clean barcode resolves by barcode to its SMILES, name and barcode |
| SmilesGenerator.HyphenatedBarcodeFoundAsTyped | fixed_smiles_generator.py:42-51 | a hyphenated barcode stored as typed is found by the second lookup |
| SmilesGenerator.GetCompoundInfo | fixed_smiles_generator.py:89-99 | info exists exactly for 1 <= n <= size, and is the n-th record's name, barcode and SMILES |
| SmilesGenerator.NumbersAreInfoDomain | fixed_smiles_generator.py:79-82 | the numbers are 1..size and are exactly the numbers `get_compound_info` answers for |
| SmilesGenerator.NumberAgreesWithInfo | fixed_smiles_generator.py:58-66 | resolving `str(n)` by position agrees with `get_compound_info(n)` |
| SmilesGenerator.BarcodesMembers | fixed_smiles_generator.py:87 | the barcodes listed from some records are exactly the non-empty barcodes among them |
| SmilesGenerator.BarcodesConcat | fixed_smiles_generator.py:87 | listing barcodes works record by record, so they keep the records' order, one per record with a barcode |
| SmilesGenerator.BarcodesSingle | fixed_smiles_generator.py:87 | one record contributes its barcode exactly when it is non-empty |
| SmilesGenerator.AllBarcodesListed | fixed_smiles_generator.py:84-87 | a barcode is listed exactly when it is non-empty and some stored record has it; no more than one per record |
| DeletionBackend.Accounting | deletion_backend.py:59-78 | every data row is kept, removed or blank, and the three counts add up |
| DeletionBackend.KeptAndRemovedMembers | deletion_backend.py:59-73 | a row is kept exactly when it is non-empty and does not match. Every matching row is removed, duplicates included. Each entry holds the row's stripped ID, its name cell or `Unknown`, and the row |
| DeletionBackend.KeptConcat | deletion_backend.py:59-73 | the filter works row by row, so the kept rows and the entries keep the file's order |
| DeletionBackend.OutcomeAccounting | deletion_backend.py:77-78 | rows before = rows after + matched rows + blank rows, where rows before includes the header |
| DeletionBackend.NoDataRefused | deletion_backend.py:33-48 | a missing file, or one with at most one row, fails with its own error and writes nothing |
| DeletionBackend.SuccessIff | deletion_backend.py:83-102 | success exactly when some data row matches. Then the backup is the old file, the file is the header plus the kept rows, and there are no errors. Otherwise neither file changes |
| DeletionBackend.IdsCompareStripped | deletion_backend.py:28 | an ID equal to a requested ID after stripping changes nothing |
| DeletionBackend.FilterRows | deletion_backend.py:56-78 | the loop yields the header plus the kept rows, and the removed entries and their count |
| DeletionBackend.DeleteCompounds | deletion_backend.py:12-102 | the result, the file and the backup are those of `Outcome` |
| DeletionBackend.Outcome | deletion_backend.py:12-102 | the result and files `delete_compounds` leaves; it has no contract of its own, `NoDataRefused`, `SuccessIff` and `OutcomeAccounting` state them |
| HashDeletionBackend.ResolvedOrReported | Test/hash_deletion_backend.py:49-55 | every code is resolved or reported, and exactly the codes without a mapping are reported |
| HashDeletionBackend.AllResolvedKeepsOrder | hash_deletion_backend.py:49-53 | with no code reported, the hashes are those of the codes' records, one per code, in input order |
| HashDeletionBackend.AllResolvedAllFound | hash_deletion_backend.py:73-74 | resolved hashes are all stored, so the delegated deletion finds one record per code |
| HashDeletionBackend.UnknownCodeRefusesBatch | hash_deletion_backend.py:57-63 | one unknown code refuses the batch, listing every unknown code, and neither file changes |
| HashDeletionBackend.EmptyCodesRefused | Test/hash_deletion_backend.py:65-71 | when every code is known, `No valid StilBAR codes provided` is returned exactly for the empty list |
| HashDeletionBackend.DeleteErrorsNeverNoValidCodes | hash_compound_manager.py:130-134 | the manager's deletion never reports the barcode back end's own "no valid codes" error |
| HashDeletionBackend.ByHashes | hash_deletion_backend.py:10-28 | deletion by hash over a store freshly loaded from the file; it has no contract of its own, `DeleteCompoundsByHashes` states it |
| HashDeletionBackend.ByStilbars | Test/hash_deletion_backend.py:38-74 | deletion by barcode over a freshly loaded store; it has no contract of its own, `UnknownCodeRefusesBatch`, `EmptyCodesRefused` and `StilbarsDelegateToHashes` state it |
| HashDeletionBackend.StilbarsDelegateToHashes | Test/hash_deletion_backend.py:73-74 | when every code is known, deleting by barcode is deleting by the codes' hashes, in input order |
| HashDeletionBackend.ExactLookupUnlikeGenerator | hash_deletion_backend.py:50 | a hyphenated code misses the record stored under its long-dash form, which `generate_smiles` finds |
| HashDeletionBackend.DeleteCompoundsByHashes | hash_deletion_backend.py:10-28 | the result and the files are those of the manager's deletion over a store freshly loaded from the file |
| HashDeletionBackend.DeleteCompoundsByStilbars | Test/hash_deletion_backend.py:38-74 | the loop resolves every code. The result and the files are those of `ByStilbars`: refusal on unknown codes or on none, otherwise deletion by hash |
| CleanCsv.IgnoredRows | Test/clean_csv.py:24-58 | a blank row, a row with a non-numeric ID, and a continuation row before any numbered row change nothing |
| CleanCsv.Step | clean_csv.py:24-58 | one row of the cleaning loop; it has no contract of its own, `IgnoredRows`, `NumberedRowStartsRecord`, `BarcodeRowNeverSetsSmiles`, `SmilesRowFillsOnlyEmpty` and `ScanInvariant` state it |
| CleanCsv.NumberedRowStartsRecord | clean_csv.py:37-48 | a numeric ID starts a new record from the row's stripped cells, and the previous record is kept only if it has a SMILES |
| CleanCsv.BarcodeRowNeverSetsSmiles | Test/clean_csv.py:51-58 | a continuation row with a barcode fills only an empty barcode and never touches the SMILES |
| CleanCsv.SmilesRowFillsOnlyEmpty | clean_csv.py:56-58 | a continuation row without a barcode fills only an empty SMILES and never touches the barcode |
| CleanCsv.ScanInvariant | clean_csv.py:37-58 | at every step, every collected record has a SMILES, and there are no more records than numbered rows |
| CleanCsv.CollectedProperties | Test/clean_csv.py:39-62 | after the final flush every record has a SMILES, with no more records than numbered rows |
| CleanCsv.SortByNumCorrect | clean_csv.py:65 | the sort orders by number, is a permutation, and keeps the relative order of records with equal numbers |
| CleanCsv.SortByNum | clean_csv.py:65 | the stable sort keeps the number of records; `SortByNumCorrect` states that it sorts, permutes and is stable |
| CleanCsv.RowsOf | clean_csv.py:72-78 | one output row per record, in order |
| CleanCsv.CleanFile | clean_csv.py:18-22 | the cleaner crashes exactly on a missing or empty file; otherwise it writes the header plus one row per record |
| CleanCsv.CleanFileProperties | clean_csv.py:65-105 | the output is the header plus the rows of the sorted records. The count is their number. Every output row has a SMILES and a numeric ID equal to its record's number |
| CleanCsv.CleanCsvFile | Test/clean_csv.py:10-105 | the loop with its mutated current record, padding and appends computes `CleanFile` |

## Left out

- File I/O is modelled as whole-file values. Opening files, `csv` quoting and parsing,
  `shutil.copy`, `os.path.exists` and the UTF-8 BOM are not modelled. A file is its parsed rows,
  or `None` when it does not exist.
- A write to the backup or the data file, once the file has been read, is modelled as always
  succeeding. The raising cases the model does have are: a missing file; a `None` cell reaching
  `.strip()` while loading (caught, loading stops); an identity already stored (`ValueError`);
  a repeated `del` of a hash; a `None` in cells 1-3 of a row during the file removal; and an
  empty file in the file removal, where `reader.fieldnames` is `None` and it is
  `writer.writerows([None])` (hash_compound_manager.py:254-256) that raises.
- Printing and logging are not modelled, because they change no state. This includes
  `clean_csv_file`'s validation counts and its missing-data report (clean_csv.py:80-103).
- SHA-256 is a parameter `Digest`: any function yielding eight characters. The model proves
  nothing that depends on the digest's internals.
- Python's Unicode-aware `str.isdigit` and `int` are modelled on ASCII digits only.
- `main()` of hash_compound_manager.py, deletion_backend.py and both copies of
  hash_deletion_backend.py are command-line demos over the real files.
- `reload_database` (fixed_smiles_generator.py:17-19) is a one-line call of `load_compounds`. It
  is covered by `CompoundStore.HashCompoundManager.LoadCompounds`.
- `FixedSMILESGenerator.__init__` only stores or builds a manager.
- SmilesGenerator.GetAllCompoundNumbers has no contract of its own. `NumbersAreInfoDomain`
  states what it returns.
- SmilesGenerator.GetAllBarcodes has no contract of its own. `AllBarcodesListed` states which
  barcodes it returns, and `BarcodesConcat` with `BarcodesSingle` states their order and that
  each record contributes at most one.
- The `except` branches of `delete_compounds_by_hashes` and `delete_compounds_by_stilbars`
  (hash_deletion_backend.py:30-36, 76-82) are not modelled. Nothing they guard can raise: the
  manager's constructor and its `delete_compounds` catch every exception themselves.
- The generic `except` of `deletion_backend.delete_compounds` (deletion_backend.py:104-107)
  guards only reads and writes. Reads are covered by the missing-file case. Writes are not
  modelled as failing (see above).
- `load_compounds`' generic `except` (hash_compound_manager.py:69-70) is modelled only for the
  one exception a parsed file can cause: a `None` cell reaching `.strip()`. Loading then stops
  with the records read so far.
- `clean_data.sort` is Python's stable library sort. It is modelled as the stable function
  `SortByNum` (an insertion sort on values), with no in-place array algorithm.
- CleanCsv.CleanCsvFile models `next(reader)` on an empty file, and the missing input file, as
  one `Crashed` outcome. The exception's type and message are not modelled.
- Exception messages are modelled as constructors of `DeleteError`, `BackendError` and
  `RemovalFault` rather than as formatted strings.
