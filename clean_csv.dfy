/**
 * clean_csv.py (and its copy under Test/): folding the rows of a hand-edited spreadsheet into
 * one record per numbered compound, then sorting the records stably by number.  A row with a
 * numeric ID starts a record.  A following row with an empty ID and a barcode fills only an
 * empty barcode of the record; one with an empty ID, no barcode and a SMILES fills only an empty
 * SMILES.  Only records with a SMILES are kept.
 */
module CleanCsv {
  import opened Common
  import opened Text

  /** `current_compound` once a numbered row has been read. */
  datatype Draft = Draft(num: nat, name: string, barcode: string, smiles: string)

  /** The loop's state: `clean_data` and `current_compound` (`None` for the empty dict). */
  datatype Scan = Scan(clean: seq<Draft>, current: Option<Draft>)

  /** What the cleaner hands back: a crash when the input cannot be read or has no header row,
      otherwise the rows of the clean file and the number of records. */
  datatype CleanOutcome = Crashed | Cleaned(rows: seq<Row>, count: nat)

  const Header: Row := ["num", "compound_name", "barcode", "smiles"]

  /** A row none of whose cells has a non-blank character. */
  predicate IsBlankRow(row: Row)
  {
    forall k :: 0 <= k < |row| ==> Strip(row[k]) == ""
  }

  /** Cell `k` of the row padded to four cells, stripped. */
  function Cell(row: Row, k: nat): string
  {
    if k < |row| then Strip(row[k]) else ""
  }

  /** The record in progress is appended only when it has a SMILES. */
  function Flush(clean: seq<Draft>, current: Option<Draft>): seq<Draft>
  {
    if current.Some? && current.value.smiles != "" then clean + [current.value] else clean
  }

  /** One iteration of the row loop. */
  function Step(s: Scan, row: Row): Scan
  {
    if IsBlankRow(row) then s
    else
      var num := Cell(row, 0);
      var name := Cell(row, 1);
      var barcode := Cell(row, 2);
      var smiles := Cell(row, 3);
      if num != "" && IsDigits(num) then
        Scan(Flush(s.clean, s.current), Some(Draft(DigitsValue(num), name, barcode, smiles)))
      else if barcode != "" && num == "" && s.current.Some? then
        if s.current.value.barcode == "" then s.(current := Some(s.current.value.(barcode := barcode))) else s
      else if smiles != "" && num == "" && s.current.Some? then
        if s.current.value.smiles == "" then s.(current := Some(s.current.value.(smiles := smiles))) else s
      else s
  }

  /** The state after the rows below the header. */
  function ScanRows(rows: seq<Row>): Scan
  {
    if rows == [] then Scan([], None) else Step(ScanRows(rows[..|rows| - 1]), rows[|rows| - 1])
  }

  /** `clean_data` after the final flush. */
  function Collected(rows: seq<Row>): seq<Draft>
  {
    var s := ScanRows(rows);
    Flush(s.clean, s.current)
  }

  /** Sortedness by number. */
  predicate SortedByNum(ds: seq<Draft>)
  {
    forall i, j :: 0 <= i < j < |ds| ==> ds[i].num <= ds[j].num
  }

  /** Inserting `x` after every element whose number is at most `x.num`, scanning from the end. */
  function Insert(s: seq<Draft>, x: Draft): (r: seq<Draft>)
    ensures |r| == |s| + 1
  {
    if s == [] || s[|s| - 1].num <= x.num then s + [x]
    else Insert(s[..|s| - 1], x) + [s[|s| - 1]]
  }

  /** `clean_data.sort(key=num)`: a stable sort, as insertion of each element in turn. */
  function SortByNum(ds: seq<Draft>): (r: seq<Draft>)
    ensures |r| == |ds|
  {
    if ds == [] then [] else Insert(SortByNum(ds[..|ds| - 1]), ds[|ds| - 1])
  }

  /** The records with number `k`, in order. */
  function OfNum(ds: seq<Draft>, k: nat): seq<Draft>
  {
    if ds == [] then []
    else OfNum(ds[..|ds| - 1], k) + (if ds[|ds| - 1].num == k then [ds[|ds| - 1]] else [])
  }

  /** A record as a row of the clean file; `csv.writer` writes the number with `str`. */
  function RowOf(d: Draft): Row
  {
    [NatToString(d.num), d.name, d.barcode, d.smiles]
  }

  function RowsOf(ds: seq<Draft>): (r: seq<Row>)
    ensures |r| == |ds| && forall i :: 0 <= i < |ds| ==> r[i] == RowOf(ds[i])
  {
    seq(|ds|, i requires 0 <= i < |ds| => RowOf(ds[i]))
  }

  /** `clean_csv_file()` on the input file's rows. */
  function CleanFile(input: Option<seq<Row>>): (r: CleanOutcome)
    ensures r.Crashed? <==> input.None? || input.value == []
    ensures r.Cleaned? ==> |r.rows| == r.count + 1 && r.rows[0] == Header
  {
    if input.None? || input.value == [] then Crashed
    else
      var ds := SortByNum(Collected(input.value[1..]));
      Cleaned([Header] + RowsOf(ds), |ds|)
  }

  // Properties of one step.

  /** A blank row, a row whose ID is neither empty nor numeric, and an unnumbered row before any
      numbered row leave the state unchanged. */
  lemma IgnoredRows(s: Scan, row: Row)
    requires IsBlankRow(row) || (Cell(row, 0) != "" && !IsDigits(Cell(row, 0))) || (Cell(row, 0) == "" && s.current.None?)
    ensures Step(s, row) == s
  {
  }

  /** A numbered row starts a record from its own cells and keeps the previous one only if it
      has a SMILES. */
  lemma NumberedRowStartsRecord(s: Scan, row: Row)
    requires IsDigits(Cell(row, 0))
    ensures !IsBlankRow(row)
    ensures Step(s, row) == Scan(Flush(s.clean, s.current),
                                Some(Draft(DigitsValue(Cell(row, 0)), Cell(row, 1), Cell(row, 2), Cell(row, 3))))
  {
    assert Strip(row[0]) != "";
  }

  /** An unnumbered row with a barcode never supplies a SMILES, and fills only an empty barcode. */
  lemma BarcodeRowNeverSetsSmiles(s: Scan, row: Row)
    requires s.current.Some? && !IsBlankRow(row) && Cell(row, 0) == "" && Cell(row, 2) != ""
    ensures Step(s, row).clean == s.clean && Step(s, row).current.Some?
    ensures Step(s, row).current.value.smiles == s.current.value.smiles
    ensures Step(s, row).current.value.barcode ==
              if s.current.value.barcode == "" then Cell(row, 2) else s.current.value.barcode
  {
  }

  /** An unnumbered row without a barcode fills only an empty SMILES. */
  lemma SmilesRowFillsOnlyEmpty(s: Scan, row: Row)
    requires s.current.Some? && !IsBlankRow(row) && Cell(row, 0) == "" && Cell(row, 2) == ""
    ensures Step(s, row).clean == s.clean && Step(s, row).current.Some?
    ensures Step(s, row).current.value.barcode == s.current.value.barcode
    ensures Step(s, row).current.value.smiles ==
              if s.current.value.smiles == "" then Cell(row, 3) else s.current.value.smiles
  {
  }

  // Properties of the whole fold.

  /** The number of rows with a numeric ID. */
  function Numbered(rows: seq<Row>): (n: nat)
    ensures n <= |rows|
  {
    if rows == [] then 0
    else Numbered(rows[..|rows| - 1]) + (if IsDigits(Cell(rows[|rows| - 1], 0)) then 1 else 0)
  }

  predicate HasSmiles(ds: seq<Draft>)
  {
    forall i :: 0 <= i < |ds| ==> ds[i].smiles != ""
  }

  /** At every point, the kept records have a SMILES, and kept records plus the one in progress
      are at most the numbered rows read. */
  lemma {:induction false} ScanInvariant(rows: seq<Row>)
    ensures HasSmiles(ScanRows(rows).clean)
    ensures |ScanRows(rows).clean| + (if ScanRows(rows).current.Some? then 1 else 0) <= Numbered(rows)
  {
    if rows != [] {
      var init := rows[..|rows| - 1];
      ScanInvariant(init);
      var row := rows[|rows| - 1];
      if !IsBlankRow(row) && IsDigits(Cell(row, 0)) {
        NumberedRowStartsRecord(ScanRows(init), row);
      }
    }
  }

  /** Every collected record has a SMILES, and there are at most as many as numbered rows. */
  lemma CollectedProperties(rows: seq<Row>)
    ensures HasSmiles(Collected(rows))
    ensures |Collected(rows)| <= Numbered(rows)
  {
    ScanInvariant(rows);
  }

  // Properties of the sort.

  lemma {:induction false} InsertElements(s: seq<Draft>, x: Draft)
    ensures multiset(Insert(s, x)) == multiset(s) + multiset{x}
  {
    if s != [] && s[|s| - 1].num > x.num {
      var init := s[..|s| - 1];
      InsertElements(init, x);
      assert s == init + [s[|s| - 1]];
    }
  }

  /** A bound on every number of `s` and on `x` bounds every number of the insertion. */
  lemma {:induction false} InsertBounded(s: seq<Draft>, x: Draft, b: nat)
    requires x.num <= b && forall i :: 0 <= i < |s| ==> s[i].num <= b
    ensures forall i :: 0 <= i < |Insert(s, x)| ==> Insert(s, x)[i].num <= b
  {
    if s != [] && s[|s| - 1].num > x.num {
      InsertBounded(s[..|s| - 1], x, b);
    }
  }

  lemma {:induction false} InsertSorted(s: seq<Draft>, x: Draft)
    requires SortedByNum(s)
    ensures SortedByNum(Insert(s, x))
  {
    if s != [] && s[|s| - 1].num > x.num {
      var init := s[..|s| - 1];
      var last := s[|s| - 1];
      InsertSorted(init, x);
      InsertBounded(init, x, last.num);
      var r := Insert(s, x);
      assert r == Insert(init, x) + [last];
      forall i, j | 0 <= i < j < |r| ensures r[i].num <= r[j].num {
        if j < |r| - 1 {
          assert r[i] == Insert(init, x)[i] && r[j] == Insert(init, x)[j];
        } else {
          assert r[i] == Insert(init, x)[i];
        }
      }
    }
  }

  lemma {:induction false} OfNumConcat(a: seq<Draft>, b: seq<Draft>, k: nat)
    ensures OfNum(a + b, k) == OfNum(a, k) + OfNum(b, k)
  {
    if b == [] {
      assert a + b == a;
    } else {
      OfNumConcat(a, b[..|b| - 1], k);
      assert (a + b)[..|a + b| - 1] == a + b[..|b| - 1];
    }
  }

  /** Insertion keeps the records of every number in their order, `x` after its equals. */
  lemma {:induction false} InsertOfNum(s: seq<Draft>, x: Draft, k: nat)
    ensures OfNum(Insert(s, x), k) == OfNum(s, k) + (if x.num == k then [x] else [])
  {
    if s == [] || s[|s| - 1].num <= x.num {
      OfNumConcat(s, [x], k);
    } else {
      var init := s[..|s| - 1];
      var last := s[|s| - 1];
      InsertOfNum(init, x, k);
      OfNumConcat(Insert(init, x), [last], k);
      OfNumConcat(init, [last], k);
      assert s == init + [last];
    }
  }

  /** The sort is a sorted permutation and is stable: records with equal numbers keep their order. */
  lemma {:induction false} SortByNumCorrect(ds: seq<Draft>)
    ensures SortedByNum(SortByNum(ds))
    ensures multiset(SortByNum(ds)) == multiset(ds)
    ensures forall k :: OfNum(SortByNum(ds), k) == OfNum(ds, k)
  {
    if ds != [] {
      var init := ds[..|ds| - 1];
      SortByNumCorrect(init);
      InsertSorted(SortByNum(init), ds[|ds| - 1]);
      InsertElements(SortByNum(init), ds[|ds| - 1]);
      assert ds == init + [ds[|ds| - 1]];
      forall k ensures OfNum(SortByNum(ds), k) == OfNum(ds, k) {
        InsertOfNum(SortByNum(init), ds[|ds| - 1], k);
      }
    }
  }

  /** The clean file: the header, then one row per collected record in number order, each with
      a SMILES and a number cell that reads back as the record's number. */
  lemma CleanFileProperties(input: Option<seq<Row>>)
    requires input.Some? && input.value != []
    ensures var r := CleanFile(input);
      var ds := SortByNum(Collected(input.value[1..]));
      && r.rows == [Header] + RowsOf(ds)
      && r.count == |Collected(input.value[1..])| <= Numbered(input.value[1..])
      && SortedByNum(ds) && multiset(ds) == multiset(Collected(input.value[1..]))
      && forall i :: 1 <= i < |r.rows| ==>
           r.rows[i][3] != "" && IsDigits(r.rows[i][0]) && DigitsValue(r.rows[i][0]) == ds[i - 1].num
  {
    var c := Collected(input.value[1..]);
    var ds := SortByNum(c);
    CollectedProperties(input.value[1..]);
    SortByNumCorrect(c);
    var r := CleanFile(input);
    forall i | 1 <= i < |r.rows|
      ensures r.rows[i][3] != "" && IsDigits(r.rows[i][0]) && DigitsValue(r.rows[i][0]) == ds[i - 1].num
    {
      assert r.rows[i] == RowOf(ds[i - 1]);
      assert ds[i - 1] in multiset(c);
      NatToStringRoundTrip(ds[i - 1].num);
    }
  }

  /** `clean_csv_file()`: read the rows after the header, fold them, flush, sort, and write the
      header and one row per record. */
  method CleanCsvFile(input: Option<seq<Row>>) returns (out: CleanOutcome)
    ensures out == CleanFile(input)
  {
    if input.None? || input.value == [] {
      return Crashed;
    }
    var rows := input.value[1..];
    var clean: seq<Draft> := [];
    var current: Option<Draft> := None;
    for i := 0 to |rows|
      invariant Scan(clean, current) == ScanRows(rows[..i])
    {
      assert rows[..i + 1][..i] == rows[..i];
      var row := rows[i];
      if IsBlankRow(row) {
        continue;
      }
      var padded := row;
      while |padded| < 4
        invariant |padded| >= |row| && padded[..|row|] == row
        invariant forall k :: |row| <= k < |padded| ==> padded[k] == ""
        decreases 4 - |padded|
      {
        padded := padded + [""];
      }
      assert forall k :: 0 <= k < 4 ==> Strip(padded[k]) == Cell(row, k) by {
        assert Strip("") == "";
      }
      var numStr := Strip(padded[0]);
      var name := Strip(padded[1]);
      var barcode := Strip(padded[2]);
      var smiles := Strip(padded[3]);
      if numStr != "" && IsDigits(numStr) {
        if current.Some? && current.value.smiles != "" {
          clean := clean + [current.value];
        }
        current := Some(Draft(DigitsValue(numStr), name, barcode, smiles));
      } else if barcode != "" && numStr == "" && current.Some? {
        if current.value.barcode == "" {
          current := Some(current.value.(barcode := barcode));
        }
      } else if smiles != "" && numStr == "" && current.Some? {
        if current.value.smiles == "" {
          current := Some(current.value.(smiles := smiles));
        }
      }
    }
    assert rows[..|rows|] == rows;
    if current.Some? && current.value.smiles != "" {
      clean := clean + [current.value];
    }
    clean := SortByNum(clean);
    var written := [Header];
    for k := 0 to |clean|
      invariant written == [Header] + RowsOf(clean[..k])
    {
      written := written + [RowOf(clean[k])];
    }
    assert clean[..|clean|] == clean;
    out := Cleaned(written, |clean|);
  }
}
