/**
 * The in-memory state of `HashCompoundManager` (hash_compound_manager.py) as a value: the
 * `compounds` dict (hash -> record), the `stilbar_to_hash` dict (raw barcode -> hash) and the
 * insertion order of `compounds`' keys, which Python's dict keeps and which numbered lookup
 * depends on.  This module defines what loading, adding and removing do to that state and
 * proves the invariants they keep.
 */
module CompoundIndex {
  import opened Common
  import opened Text
  import opened Csv
  import opened Identity

  /** One catalogue entry, the dict `compound_data`. */
  datatype Compound = Compound(hash: string, name: string, stilbar: string, smiles: string, originalNum: string)

  datatype Index = Index(compounds: map<string, Compound>, stilbarToHash: map<string, string>, order: seq<string>)

  const Empty: Index := Index(map[], map[], [])

  predicate Distinct(s: seq<string>)
  {
    forall i, j :: 0 <= i < j < |s| ==> s[i] != s[j]
  }

  /** What every operation keeps: the order lists each key of `compounds` once, every record
      is filed under its own hash, and the empty barcode is never a key. */
  predicate IndexValid(idx: Index)
  {
    && Distinct(idx.order)
    && (forall h :: h in idx.compounds ==> h in idx.order && idx.compounds[h].hash == h)
    && (forall i :: 0 <= i < |idx.order| ==> idx.order[i] in idx.compounds)
    && "" !in idx.stilbarToHash
  }

  /** Every barcode mapping leads to a stored record. */
  predicate BarcodesResolve(idx: Index)
  {
    forall s :: s in idx.stilbarToHash ==> idx.stilbarToHash[s] in idx.compounds
  }

  /** `compounds[c.hash] = c`: a new key goes to the end of the order, an existing key keeps
      its place. */
  function Put(idx: Index, c: Compound): Index
  {
    Index(idx.compounds[c.hash := c], idx.stilbarToHash,
          if c.hash in idx.compounds then idx.order else idx.order + [c.hash])
  }

  /** `if stilbar: stilbar_to_hash[stilbar] = h`. */
  function MapBarcode(idx: Index, stilbar: string, h: string): Index
  {
    if stilbar != "" then idx.(stilbarToHash := idx.stilbarToHash[stilbar := h]) else idx
  }

  /** `row.get(name, '')` on a column that may be missing; `None` would raise on `.strip()`. */
  function TextOrEmpty(c: Cell): string
    requires !c.Null?
  {
    if c.Text? then c.text else ""
  }

  /** Storing a record: `compounds[h] = c`, then `stilbar_to_hash[stilbar] = h` when the barcode
      is non-empty.  Both `load_compounds` and `add_compound` store records this way. */
  function Store(idx: Index, c: Compound): Index
  {
    MapBarcode(Put(idx, c), c.stilbar, c.hash)
  }

  /** What one `DictReader` row gives `load_compounds`. */
  datatype RowOutcome = Skipped | Raises | Record(record: Compound)

  /** The body of the loop in `load_compounds` for one row: rows without `num` or `smiles` are
      skipped; a `None` barcode or name (a short row) raises; otherwise the record is built from
      the stripped barcode, name and SMILES and the raw `num`, and the identity is hashed from
      the barcode, or from the name when the barcode is empty. */
  function ReadRow(digest: Digest, header: Row, row: Row): (r: RowOutcome)
    ensures r.Skipped? <==> !Truthy(Field(header, row, "num")) || !Truthy(Field(header, row, "smiles"))
    ensures r.Raises? <==> !r.Skipped? && (Field(header, row, "barcode").Null? || Field(header, row, "compound_name").Null?)
    ensures r.Record? ==>
              var stilbar := Strip(TextOrEmpty(Field(header, row, "barcode")));
              var name := Strip(TextOrEmpty(Field(header, row, "compound_name")));
              && r.record.name == name && r.record.stilbar == stilbar
              && r.record.smiles == Strip(Field(header, row, "smiles").text)
              && r.record.originalNum == Field(header, row, "num").text && r.record.originalNum != ""
              && r.record.hash == GenerateHash(digest, if stilbar != "" then stilbar else name, name)
  {
    var num := Field(header, row, "num");
    var smilesCell := Field(header, row, "smiles");
    if !Truthy(num) || !Truthy(smilesCell) then Skipped
    else
      var barcodeCell := Field(header, row, "barcode");
      var nameCell := Field(header, row, "compound_name");
      if barcodeCell.Null? || nameCell.Null? then Raises
      else
        var stilbar := Strip(TextOrEmpty(barcodeCell));
        var name := Strip(TextOrEmpty(nameCell));
        var h := GenerateHash(digest, if stilbar != "" then stilbar else name, name);
        Record(Compound(h, name, stilbar, Strip(smilesCell.text), num.text))
  }

  /** The loop of `load_compounds` over the remaining rows, stopping at the first row that raises. */
  function LoadRows(digest: Digest, idx: Index, header: Row, rows: seq<Row>): Index
    decreases |rows|
  {
    if rows == [] then idx
    else match ReadRow(digest, header, rows[0])
      case Skipped => LoadRows(digest, idx, header, rows[1..])
      case Raises => idx
      case Record(c) => LoadRows(digest, Store(idx, c), header, rows[1..])
  }

  /** One row of the load: skipped, the end of the load, or stored before the rest. */
  lemma LoadRowsStep(digest: Digest, idx: Index, header: Row, rows: seq<Row>, i: nat)
    requires i < |rows|
    ensures LoadRows(digest, idx, header, rows[i..]) ==
              match ReadRow(digest, header, rows[i])
              case Skipped => LoadRows(digest, idx, header, rows[i + 1..])
              case Raises => idx
              case Record(c) => LoadRows(digest, Store(idx, c), header, rows[i + 1..])
  {
    assert rows[i..][1..] == rows[i + 1..];
  }

  /** `load_compounds`: both dicts cleared, then the file's rows loaded in order; a missing or
      empty file leaves the store empty. */
  function LoadFile(digest: Digest, data: Option<seq<Row>>): Index
  {
    match data
    case None => Empty
    case Some(file) => if file == [] then Empty else LoadRows(digest, Empty, file[0], DataRows(file))
  }

  /** Every stored record came from a row with a non-empty `num`. */
  predicate AllNumbered(idx: Index)
  {
    forall h :: h in idx.compounds ==> idx.compounds[h].originalNum != ""
  }

  /** Storing a record files it under its hash (replacing any earlier record with that hash,
      which keeps its place in the order) and, when it has a barcode, points the barcode at it
      (replacing any earlier mapping); it keeps the invariants. */
  lemma StoreEffect(idx: Index, c: Compound)
    requires IndexValid(idx)
    ensures var r := Store(idx, c);
      && IndexValid(r)
      && r.compounds == idx.compounds[c.hash := c]
      && r.stilbarToHash == (if c.stilbar != "" then idx.stilbarToHash[c.stilbar := c.hash] else idx.stilbarToHash)
      && r.order == (if c.hash in idx.compounds then idx.order else idx.order + [c.hash])
      && (BarcodesResolve(idx) ==> BarcodesResolve(r))
      && (AllNumbered(idx) && c.originalNum != "" ==> AllNumbered(r))
  {
    var p := Put(idx, c);
    assert IndexValid(p) by {
      if c.hash !in idx.compounds {
        assert p.order == idx.order + [c.hash];
        assert forall i :: 0 <= i < |idx.order| ==> idx.order[i] != c.hash;
      }
    }
  }

  lemma {:induction false} LoadRowsValid(digest: Digest, idx: Index, header: Row, rows: seq<Row>)
    requires IndexValid(idx) && BarcodesResolve(idx) && AllNumbered(idx)
    ensures var r := LoadRows(digest, idx, header, rows);
      IndexValid(r) && BarcodesResolve(r) && AllNumbered(r)
    decreases |rows|
  {
    if rows != [] {
      match ReadRow(digest, header, rows[0])
      case Skipped =>
        LoadRowsValid(digest, idx, header, rows[1..]);
      case Raises =>
      case Record(c) =>
        StoreEffect(idx, c);
        LoadRowsValid(digest, Store(idx, c), header, rows[1..]);
    }
  }

  /** After loading, the order is consistent, every barcode leads to a stored record, no empty
      barcode is mapped and every record has a `num`. */
  lemma LoadFileValid(digest: Digest, data: Option<seq<Row>>)
    ensures var idx := LoadFile(digest, data);
      IndexValid(idx) && BarcodesResolve(idx) && AllNumbered(idx)
  {
    if data.Some? && data.value != [] {
      LoadRowsValid(digest, Empty, data.value[0], DataRows(data.value));
    }
  }

  /** A missing file, an empty file and a header-only file all load as the empty store. */
  lemma LoadFileEmpty(digest: Digest, data: Option<seq<Row>>)
    requires data.None? || |data.value| <= 1
    ensures LoadFile(digest, data) == Empty
  {
  }

  /** `get_compound_by_stilbar`: an exact lookup of the raw code, without normalisation; `None`
      when the code is not mapped or its hash has no record. */
  function GetCompoundByStilbar(idx: Index, code: string): (r: Option<Compound>)
    ensures r.Some? <==> code in idx.stilbarToHash && idx.stilbarToHash[code] != ""
                         && idx.stilbarToHash[code] in idx.compounds
    ensures r.Some? ==> r.value == idx.compounds[idx.stilbarToHash[code]]
  {
    if code in idx.stilbarToHash && idx.stilbarToHash[code] != "" && idx.stilbarToHash[code] in idx.compounds
    then Some(idx.compounds[idx.stilbarToHash[code]])
    else None
  }

  /** `get_compound_by_hash`: the record filed under `h`, `None` when there is none. */
  function GetCompoundByHash(idx: Index, h: string): (r: Option<Compound>)
    requires IndexValid(idx)
    ensures r.Some? <==> h in idx.compounds
    ensures r.Some? ==> r.value.hash == h && r.value in idx.compounds.Values
  {
    if h in idx.compounds then Some(idx.compounds[h]) else None
  }

  /** `get_all_compounds`: the records in insertion order, each exactly once. */
  function AllCompounds(idx: Index): (r: seq<Compound>)
    requires IndexValid(idx)
    ensures |r| == |idx.order|
    ensures forall i :: 0 <= i < |r| ==> r[i] == idx.compounds[idx.order[i]] && r[i].hash == idx.order[i]
    ensures forall c :: c in r <==> c in idx.compounds.Values
  {
    var r := seq(|idx.order|, i requires 0 <= i < |idx.order| => idx.compounds[idx.order[i]]);
    assert forall c :: c in idx.compounds.Values ==> c in r by {
      forall c | c in idx.compounds.Values ensures c in r {
        var h :| h in idx.compounds && idx.compounds[h] == c;
        var i :| 0 <= i < |idx.order| && idx.order[i] == h;
        assert r[i] == c;
      }
    }
    r
  }

  lemma {:induction false} DistinctCard(s: seq<string>)
    requires Distinct(s)
    ensures |set x | x in s| == |s|
  {
    if s != [] {
      var t := s[..|s| - 1];
      DistinctCard(t);
      assert (set x | x in s) == (set x | x in t) + {s[|s| - 1]};
    }
  }

  /** The store's size is the length of its order. */
  lemma OrderSize(idx: Index)
    requires IndexValid(idx)
    ensures |idx.order| == |idx.compounds|
  {
    DistinctCard(idx.order);
    assert (set x | x in idx.order) == idx.compounds.Keys;
  }

  datatype Stats = Stats(totalCompounds: nat, compoundsWithStilbar: nat, compoundsWithoutStilbar: int)

  /** `get_stats`: the number of records, of barcode mappings, and their difference. */
  function GetStats(idx: Index): (r: Stats)
    requires IndexValid(idx)
    ensures r.totalCompounds == |AllCompounds(idx)|
    ensures r.compoundsWithStilbar == |idx.stilbarToHash|
    ensures r.compoundsWithStilbar + r.compoundsWithoutStilbar == r.totalCompounds
  {
    OrderSize(idx);
    Stats(|idx.compounds|, |idx.stilbarToHash|, |idx.compounds| - |idx.stilbarToHash|)
  }

  /** Counterexample: `compounds_without_stilbar` counts mappings, not records; two raw
      barcodes that clean to the same code (hyphen and long dash) can point at one record and
      make it negative. */
  lemma WithoutStilbarCanBeNegative()
    ensures var idx := Index(map["h" := Compound("h", "n", "A\U{2013}B", "C", "1")],
                             map["A-B" := "h", "A\U{2013}B" := "h"], ["h"]);
      IndexValid(idx) && BarcodesResolve(idx) && GetStats(idx).compoundsWithoutStilbar < 0
  {
    var idx := Index(map["h" := Compound("h", "n", "A\U{2013}B", "C", "1")],
                     map["A-B" := "h", "A\U{2013}B" := "h"], ["h"]);
    assert "A-B" != "A\U{2013}B" by { assert "A-B"[1] != "A\U{2013}B"[1]; }
    assert |idx.stilbarToHash| == 2;
    assert |idx.compounds| == 1;
  }

  // ---------------------------------------------------------------- add_compound (memory part)

  /** The record `add_compound` builds: fields as given (not stripped) and `original_num` one
      more than the store's size. */
  function NewRecord(digest: Digest, idx: Index, name: string, stilbarCode: string, smiles: string): Compound
  {
    Compound(GenerateHash(digest, stilbarCode, name), name, stilbarCode, smiles, NatToString(|idx.compounds| + 1))
  }

  /** Adding a record under a new hash grows the store by exactly that record, at the end of the
      order, and keeps the invariants. */
  lemma AddEffect(idx: Index, c: Compound)
    requires IndexValid(idx) && c.hash !in idx.compounds
    ensures var r := Store(idx, c);
      && IndexValid(r)
      && (BarcodesResolve(idx) ==> BarcodesResolve(r))
      && |r.compounds| == |idx.compounds| + 1
      && AllCompounds(r) == AllCompounds(idx) + [c]
      && (c.stilbar != "" ==> r.stilbarToHash == idx.stilbarToHash[c.stilbar := c.hash])
      && (c.stilbar == "" ==> r.stilbarToHash == idx.stilbarToHash)
  {
    StoreEffect(idx, c);
    AddAppends(idx, c, Store(idx, c));
  }

  /** The record of a new hash comes last in the listing, after the old records in their order. */
  lemma AddAppends(idx: Index, c: Compound, r: Index)
    requires IndexValid(idx) && c.hash !in idx.compounds && IndexValid(r)
    requires r.order == idx.order + [c.hash] && r.compounds == idx.compounds[c.hash := c]
    ensures AllCompounds(r) == AllCompounds(idx) + [c]
  {
    var a, b := AllCompounds(r), AllCompounds(idx) + [c];
    forall i | 0 <= i < |a| ensures a[i] == b[i] {
      if i < |idx.order| {
        assert r.order[i] == idx.order[i] && idx.order[i] in idx.compounds;
      }
    }
  }

  /** After adding a record with a barcode, looking the barcode up finds that record. */
  lemma AddThenLookup(idx: Index, c: Compound)
    requires c.stilbar != "" && c.hash != ""
    ensures GetCompoundByStilbar(Store(idx, c), c.stilbar) == Some(c)
  {
  }

  // ------------------------------------------------------------ delete_compounds (memory part)

  /** The order with `h` removed, as `del compounds[h]` does to the dict's keys. */
  function Without(s: seq<string>, h: string): (r: seq<string>)
    ensures forall x :: x in r <==> x in s && x != h
    ensures h !in s ==> r == s
  {
    if s == [] then []
    else (if s[0] == h then [] else [s[0]]) + Without(s[1..], h)
  }

  /** Removing a key works entry by entry, so the other keys keep their relative order. */
  lemma WithoutConcat(a: seq<string>, b: seq<string>, h: string)
    ensures Without(a + b, h) == Without(a, h) + Without(b, h)
  {
    WithoutIsExcept(a + b, h);
    WithoutIsExcept(a, h);
    WithoutIsExcept(b, h);
    ExceptConcat(a, b, {h});
  }

  /** The order with every key of `hs` removed and the other keys in their old order. */
  function Except(s: seq<string>, hs: set<string>): (r: seq<string>)
    ensures forall x :: x in r <==> x in s && x !in hs
  {
    if s == [] then []
    else (if s[0] in hs then [] else [s[0]]) + Except(s[1..], hs)
  }

  lemma {:induction false} ExceptConcat(a: seq<string>, b: seq<string>, hs: set<string>)
    ensures Except(a + b, hs) == Except(a, hs) + Except(b, hs)
  {
    if a == [] {
      assert a + b == b;
    } else {
      var head := if a[0] in hs then [] else [a[0]];
      assert (a + b)[0] == a[0] && (a + b)[1..] == a[1..] + b;
      ExceptConcat(a[1..], b, hs);
      AppendAssoc(head, Except(a[1..], hs), Except(b, hs));
    }
  }

  /** Removing two key sets one after the other removes their union. */
  lemma {:induction false} ExceptExcept(s: seq<string>, a: set<string>, b: set<string>)
    ensures Except(Except(s, a), b) == Except(s, a + b)
  {
    if s != [] {
      var head := if s[0] in a then [] else [s[0]];
      ExceptExcept(s[1..], a, b);
      ExceptConcat(head, Except(s[1..], a), b);
      assert Except(head, b) == (if s[0] in a + b then [] else [s[0]]) by {
        if head != [] {
          assert head[1..] == [];
        }
      }
    }
  }

  /** Removing one key is removing the set holding just that key. */
  lemma {:induction false} WithoutIsExcept(s: seq<string>, h: string)
    ensures Without(s, h) == Except(s, {h})
  {
    if s != [] {
      WithoutIsExcept(s[1..], h);
    }
  }

  lemma {:induction false} ExceptNothing(s: seq<string>)
    ensures Except(s, {}) == s
  {
    if s != [] {
      ExceptNothing(s[1..]);
    }
  }

  lemma {:induction false} WithoutDistinct(s: seq<string>, h: string)
    requires Distinct(s)
    ensures Distinct(Without(s, h))
  {
    if s != [] {
      WithoutDistinct(s[1..], h);
      var w := Without(s[1..], h);
      assert s[0] !in s[1..];
      assert s[0] !in w;
    }
  }

  /** One iteration of the removal loop: `del compounds[h]`, then `del stilbar_to_hash[stilbar]`
      when the record's barcode is non-empty and mapped (whatever hash it now maps to). */
  function RemoveOne(idx: Index, c: Compound): Index
  {
    Index(idx.compounds - {c.hash},
          if c.stilbar != "" && c.stilbar in idx.stilbarToHash then idx.stilbarToHash - {c.stilbar}
          else idx.stilbarToHash,
          Without(idx.order, c.hash))
  }

  /** The removal loop: records removed in turn until one whose hash is already gone (the
      `KeyError` of a repeated hash). */
  function RemoveSeq(idx: Index, cs: seq<Compound>): Index
    decreases |cs|
  {
    if cs == [] || cs[0].hash !in idx.compounds then idx
    else RemoveSeq(RemoveOne(idx, cs[0]), cs[1..])
  }

  /** How many records the removal loop removes before it stops. */
  function RemoveCount(idx: Index, cs: seq<Compound>): (n: nat)
    ensures n <= |cs|
    decreases |cs|
  {
    if cs == [] || cs[0].hash !in idx.compounds then 0
    else 1 + RemoveCount(RemoveOne(idx, cs[0]), cs[1..])
  }

  function HashesOf(cs: seq<Compound>): (r: seq<string>)
    ensures |r| == |cs| && forall i :: 0 <= i < |cs| ==> r[i] == cs[i].hash
  {
    seq(|cs|, i requires 0 <= i < |cs| => cs[i].hash)
  }

  /** The non-empty barcodes of some records. */
  function StilbarsOf(cs: seq<Compound>): set<string>
  {
    if cs == [] then {}
    else (if cs[0].stilbar != "" then {cs[0].stilbar} else {}) + StilbarsOf(cs[1..])
  }

  /** The hashes of some records, as a set. */
  function HashSet(cs: seq<Compound>): (r: set<string>)
    ensures forall h :: h in r <==> h in HashesOf(cs)
  {
    if cs == [] then {}
    else
      assert HashesOf(cs) == [cs[0].hash] + HashesOf(cs[1..]);
      {cs[0].hash} + HashSet(cs[1..])
  }

  /** One turn of the removal loop. */
  lemma RemoveStep(idx: Index, cs: seq<Compound>)
    requires cs != [] && cs[0].hash in idx.compounds
    ensures RemoveSeq(idx, cs) == RemoveSeq(RemoveOne(idx, cs[0]), cs[1..])
    ensures RemoveCount(idx, cs) == 1 + RemoveCount(RemoveOne(idx, cs[0]), cs[1..])
  {
  }

  /** The removal loop after `j` turns, standing at `cur`: the rest of the loop ends where the
      whole loop ends, and the turns so far count towards its total. */
  predicate RemovalAt(idx0: Index, cur: Index, cs: seq<Compound>, j: nat)
  {
    j <= |cs| && RemoveSeq(cur, cs[j..]) == RemoveSeq(idx0, cs)
    && RemoveCount(idx0, cs) == j + RemoveCount(cur, cs[j..])
  }

  lemma RemovalStart(idx0: Index, cs: seq<Compound>)
    ensures RemovalAt(idx0, idx0, cs, 0)
  {
    assert cs[0..] == cs;
  }

  /** One more turn of the removal loop keeps its state. */
  lemma RemoveLoopStep(idx0: Index, cur: Index, next: Index, cs: seq<Compound>, j: nat)
    requires RemovalAt(idx0, cur, cs, j) && j < |cs| && cs[j].hash in cur.compounds
    requires next == RemoveOne(cur, cs[j])
    ensures RemovalAt(idx0, next, cs, j + 1)
  {
    assert cs[j..][1..] == cs[j + 1..];
    RemoveStep(cur, cs[j..]);
  }

  /** The removal loop stops at the end or at a hash that is gone: `cur` is its result and `j`
      its count. */
  lemma RemoveStop(idx0: Index, cur: Index, cs: seq<Compound>, j: nat)
    requires RemovalAt(idx0, cur, cs, j) && (j == |cs| || cs[j].hash !in cur.compounds)
    ensures RemoveSeq(idx0, cs) == cur && RemoveCount(idx0, cs) == j
  {
    assert j == |cs| ==> cs[j..] == [];
  }

  lemma RemoveOneValid(idx: Index, c: Compound)
    requires IndexValid(idx)
    ensures IndexValid(RemoveOne(idx, c))
  {
    var r := RemoveOne(idx, c);
    WithoutDistinct(idx.order, c.hash);
    forall i | 0 <= i < |r.order| ensures r.order[i] in r.compounds {
      assert r.order[i] in idx.order;
    }
  }

  lemma {:induction false} RemoveSeqValid(idx: Index, cs: seq<Compound>)
    requires IndexValid(idx)
    ensures IndexValid(RemoveSeq(idx, cs))
    decreases |cs|
  {
    if cs != [] && cs[0].hash in idx.compounds {
      RemoveOneValid(idx, cs[0]);
      RemoveSeqValid(RemoveOne(idx, cs[0]), cs[1..]);
    }
  }

  /** For records with distinct hashes that are all stored, the loop removes every one of them:
      their hashes leave `compounds` and the order, their barcodes leave `stilbar_to_hash`, and
      every other entry stays. */
  lemma {:induction false} RemoveSeqDistinct(idx: Index, cs: seq<Compound>)
    requires Distinct(HashesOf(cs))
    requires forall i :: 0 <= i < |cs| ==> cs[i].hash in idx.compounds
    ensures RemoveCount(idx, cs) == |cs|
    ensures RemoveSeq(idx, cs).compounds == idx.compounds - HashSet(cs)
    ensures RemoveSeq(idx, cs).stilbarToHash == idx.stilbarToHash - StilbarsOf(cs)
    ensures forall h :: h in RemoveSeq(idx, cs).order <==> h in idx.order && h !in HashSet(cs)
    ensures RemoveSeq(idx, cs).order == Except(idx.order, HashSet(cs))
    decreases |cs|
  {
    if cs != [] {
      var next := RemoveOne(idx, cs[0]);
      var rest := cs[1..];
      assert HashesOf(rest) == HashesOf(cs)[1..];
      forall i | 0 <= i < |rest| ensures rest[i].hash in next.compounds {
        assert HashesOf(cs)[i + 1] != HashesOf(cs)[0];
      }
      RemoveSeqDistinct(next, rest);
      var first := if cs[0].stilbar != "" then {cs[0].stilbar} else {};
      RemoveOneBarcode(idx, cs[0]);
      MinusMinus(idx.compounds, {cs[0].hash}, HashSet(rest));
      MinusMinus(idx.stilbarToHash, first, StilbarsOf(rest));
    }
    RemoveSeqOrder(idx, cs);
  }

  /** When the loop removes every record it was given, the order keeps all other keys in
      their old relative order. */
  lemma {:induction false} RemoveSeqOrder(idx: Index, cs: seq<Compound>)
    requires RemoveCount(idx, cs) == |cs|
    ensures RemoveSeq(idx, cs).order == Except(idx.order, HashSet(cs))
    decreases |cs|
  {
    if cs == [] {
      ExceptNothing(idx.order);
    } else {
      var h := cs[0].hash;
      RemoveSeqOrder(RemoveOne(idx, cs[0]), cs[1..]);
      WithoutIsExcept(idx.order, h);
      ExceptExcept(idx.order, {h}, HashSet(cs[1..]));
    }
  }

  /** Removing a record drops its non-empty barcode from the barcode map. */
  lemma RemoveOneBarcode(idx: Index, c: Compound)
    ensures RemoveOne(idx, c).stilbarToHash ==
              idx.stilbarToHash - (if c.stilbar != "" then {c.stilbar} else {})
  {
    var m := idx.stilbarToHash;
    if c.stilbar == "" {
      assert m - {} == m;
    } else if c.stilbar !in m {
      PutThenRemove(m, c.stilbar, "");
    }
  }

  /** Removing two key sets one after the other removes their union. */
  lemma MinusMinus<V>(m: map<string, V>, a: set<string>, b: set<string>)
    ensures (m - a) - b == m - (a + b)
  {
    assert ((m - a) - b).Keys == (m - (a + b)).Keys;
  }

  /** Removal only shrinks: what survives was already there. */
  lemma {:induction false} RemoveSeqShrinks(idx: Index, cs: seq<Compound>)
    ensures RemoveSeq(idx, cs).compounds.Keys <= idx.compounds.Keys
    decreases |cs|
  {
    if cs != [] && cs[0].hash in idx.compounds {
      RemoveSeqShrinks(RemoveOne(idx, cs[0]), cs[1..]);
    }
  }

  /** When the loop removes every record it was given, their hashes were distinct: a repeated
      hash always stops it early. */
  lemma {:induction false} FullRemovalMeansDistinct(idx: Index, cs: seq<Compound>)
    requires RemoveCount(idx, cs) == |cs|
    ensures Distinct(HashesOf(cs))
    ensures forall i :: 0 <= i < |cs| ==> cs[i].hash in idx.compounds
    decreases |cs|
  {
    if cs != [] {
      var next := RemoveOne(idx, cs[0]);
      var rest := cs[1..];
      FullRemovalMeansDistinct(next, rest);
      assert HashesOf(rest) == HashesOf(cs)[1..];
      forall i | 0 < i < |cs| ensures cs[i].hash != cs[0].hash && cs[i].hash in idx.compounds {
        assert rest[i - 1].hash in next.compounds;
      }
    }
  }

  /** The removal loop only ever runs over the first `RemoveCount` records: that prefix alone
      ends in the same store and count, and when it stops early the record it stops at has a
      hash that is no longer stored. */
  lemma {:induction false} RemovePrefix(idx: Index, cs: seq<Compound>)
    ensures RemoveSeq(idx, cs[..RemoveCount(idx, cs)]) == RemoveSeq(idx, cs)
    ensures RemoveCount(idx, cs[..RemoveCount(idx, cs)]) == RemoveCount(idx, cs)
    ensures RemoveCount(idx, cs) < |cs| ==> cs[RemoveCount(idx, cs)].hash !in RemoveSeq(idx, cs).compounds
    decreases |cs|
  {
    var n := RemoveCount(idx, cs);
    if cs != [] && cs[0].hash in idx.compounds {
      RemovePrefix(RemoveOne(idx, cs[0]), cs[1..]);
      assert cs[..n][0] == cs[0];
      assert cs[..n][1..] == cs[1..][..n - 1];
    } else {
      assert cs[..n] == [];
    }
  }

  /** Removing a record drops its barcode even when that barcode was redirected to another
      record: the other record stays but can no longer be found by that barcode. */
  lemma RemoveDropsRedirectedBarcode(idx: Index, c: Compound)
    requires c.stilbar != "" && c.stilbar in idx.stilbarToHash
    requires idx.stilbarToHash[c.stilbar] != c.hash && idx.stilbarToHash[c.stilbar] in idx.compounds
    ensures var r := RemoveOne(idx, c);
      idx.stilbarToHash[c.stilbar] in r.compounds && GetCompoundByStilbar(r, c.stilbar).None?
  {
  }

  /** Counterexample to removal keeping `BarcodesResolve`: removing a record leaves behind every
      other barcode that pointed at it. */
  lemma RemoveCanLeaveDanglingBarcode(idx: Index, c: Compound, s: string)
    requires s in idx.stilbarToHash && idx.stilbarToHash[s] == c.hash && s != c.stilbar
    ensures !BarcodesResolve(RemoveOne(idx, c))
  {
    assert s in RemoveOne(idx, c).stilbarToHash;
  }

  /** Removing a record that was just appended under a new hash. */
  lemma RemoveAppended(idx: Index, a: Index, c: Compound)
    requires IndexValid(idx) && c.hash !in idx.compounds
    requires a.compounds == idx.compounds[c.hash := c] && a.order == idx.order + [c.hash]
    requires a.stilbarToHash == (if c.stilbar != "" then idx.stilbarToHash[c.stilbar := c.hash] else idx.stilbarToHash)
    ensures var r := RemoveOne(a, c);
      && r.compounds == idx.compounds
      && r.order == idx.order
      && r.stilbarToHash == (if c.stilbar != "" then idx.stilbarToHash - {c.stilbar} else idx.stilbarToHash)
  {
    assert c.hash !in idx.order;
    WithoutAppend(idx.order, c.hash);
    PutThenRemove(idx.compounds, c.hash, c);
    if c.stilbar != "" {
      PutThenRemove(idx.stilbarToHash, c.stilbar, c.hash);
    }
  }

  /** Adding a key and removing it again leaves the map without that key. */
  lemma PutThenRemove<V>(m: map<string, V>, k: string, v: V)
    ensures m[k := v] - {k} == m - {k}
    ensures k !in m ==> m - {k} == m
  {
    assert (m[k := v] - {k}).Keys == m.Keys - {k};
  }

  /** Adding a record under a new hash and then removing it restores the records and their
      order; the barcode map loses the record's barcode, even if it mapped elsewhere before. */
  lemma AddThenRemove(idx: Index, c: Compound)
    requires IndexValid(idx) && c.hash !in idx.compounds
    ensures var r := RemoveSeq(Store(idx, c), [c]);
      && IndexValid(r)
      && r.compounds == idx.compounds
      && r.order == idx.order
      && r.stilbarToHash == (if c.stilbar != "" then idx.stilbarToHash - {c.stilbar} else idx.stilbarToHash)
  {
    var a := Store(idx, c);
    StoreEffect(idx, c);
    RemoveSeqSingle(a, c);
    RemoveOneValid(a, c);
    RemoveAppended(idx, a, c);
  }

  lemma RemoveSeqSingle(idx: Index, c: Compound)
    requires c.hash in idx.compounds
    ensures RemoveSeq(idx, [c]) == RemoveOne(idx, c)
  {
    var next := RemoveOne(idx, c);
    assert [c][1..] == [];
    assert RemoveSeq(next, []) == next;
  }

  lemma {:induction false} WithoutAppend(s: seq<string>, h: string)
    requires h !in s
    ensures Without(s + [h], h) == s
  {
    if s != [] {
      assert (s + [h])[1..] == s[1..] + [h];
      WithoutAppend(s[1..], h);
    }
  }
}
