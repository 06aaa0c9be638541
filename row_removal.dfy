/**
 * `HashCompoundManager._remove_from_csv` (hash_compound_manager.py): the file is read back
 * through `DictReader`, each row rebuilt as the list of its header's fields, and every row
 * of at least four fields whose stripped (name, barcode, SMILES) equals the content of some
 * compound to delete is dropped, as is every shorter row; the header and the other rows are
 * written back in order.
 */
module RowRemoval {
  import opened Common
  import opened Text
  import opened Csv
  import opened CompoundIndex

  /** The content a file row is matched on: name, barcode and SMILES. */
  datatype Triple = Triple(name: string, stilbar: string, smiles: string)

  function TripleOf(c: Compound): Triple
  {
    Triple(c.name, c.stilbar, c.smiles)
  }

  /** Why `_remove_from_csv` raises: no file; an empty file, whose `None` header the writer
      cannot write; a `None` cell of a short row reaching `.strip()`. */
  datatype RemovalFault = FileMissing | HeaderMissing | MissingCell

  /** `compounds_to_delete`: the content of each requested hash that is stored, in request
      order (the source keys a dict by hash; only membership of the content matters). */
  function TargetsOf(idx: Index, keys: seq<string>): seq<Triple>
  {
    if keys == [] then []
    else
      var rest := TargetsOf(idx, keys[..|keys| - 1]);
      var h := keys[|keys| - 1];
      if h in idx.compounds then rest + [TripleOf(idx.compounds[h])] else rest
  }

  lemma {:induction false} TargetsOfMembers(idx: Index, keys: seq<string>)
    ensures forall t :: t in TargetsOf(idx, keys) ==>
              exists i :: 0 <= i < |keys| && keys[i] in idx.compounds && TripleOf(idx.compounds[keys[i]]) == t
    ensures forall i :: 0 <= i < |keys| && keys[i] in idx.compounds ==> TripleOf(idx.compounds[keys[i]]) in TargetsOf(idx, keys)
  {
    if keys != [] {
      var init := keys[..|keys| - 1];
      TargetsOfMembers(idx, init);
      forall t | t in TargetsOf(idx, keys)
        ensures exists i :: 0 <= i < |keys| && keys[i] in idx.compounds && TripleOf(idx.compounds[keys[i]]) == t
      {
        if t in TargetsOf(idx, init) {
          var i :| 0 <= i < |init| && init[i] in idx.compounds && TripleOf(idx.compounds[init[i]]) == t;
          assert keys[i] == init[i];
        } else {
          assert keys[|keys| - 1] in idx.compounds && TripleOf(idx.compounds[keys[|keys| - 1]]) == t;
        }
      }
      forall i | 0 <= i < |keys| && keys[i] in idx.compounds
        ensures TripleOf(idx.compounds[keys[i]]) in TargetsOf(idx, keys)
      {
        if i < |init| {
          assert init[i] == keys[i];
        }
      }
    }
  }

  /** `[row.get(field, '') for field in header]`: one cell per header field, never absent. */
  function Rebuild(header: Row, row: Row): (cells: seq<Cell>)
    ensures |cells| == |header|
    ensures forall k :: 0 <= k < |header| ==> cells[k] == Field(header, row, header[k]) && !cells[k].Absent?
  {
    seq(|header|, k requires 0 <= k < |header| => Field(header, row, header[k]))
  }

  /** `existing_data[1:]`: every row `DictReader` yields, rebuilt. */
  function RebuildAll(header: Row, rows: seq<Row>): (r: seq<seq<Cell>>)
    ensures |r| == |rows| && forall i :: 0 <= i < |rows| ==> r[i] == Rebuild(header, rows[i])
  {
    seq(|rows|, i requires 0 <= i < |rows| => Rebuild(header, rows[i]))
  }

  /** What `csv.writer` writes for a rebuilt row: `None` becomes the empty cell. */
  function Render(cells: seq<Cell>): (row: Row)
    ensures |row| == |cells|
    ensures forall k :: 0 <= k < |cells| && cells[k].Text? ==> row[k] == cells[k].text
  {
    seq(|cells|, k requires 0 <= k < |cells| => if cells[k].Text? then cells[k].text else "")
  }

  /** The stripped content of a rendered row of at least four cells. */
  function RowTriple(row: Row): Triple
    requires |row| >= 4
  {
    Triple(Strip(row[1]), Strip(row[2]), Strip(row[3]))
  }

  datatype Verdict = Keep | Drop | Fail

  /** The loop body for one rebuilt row. */
  function Judge(cells: seq<Cell>, targets: seq<Triple>): (v: Verdict)
    ensures v == Fail <==> |cells| >= 4 && (!cells[1].Text? || !cells[2].Text? || !cells[3].Text?)
    ensures v == Keep ==> |cells| >= 4
  {
    if |cells| < 4 then Drop
    else if !cells[1].Text? || !cells[2].Text? || !cells[3].Text? then Fail
    else if Triple(Strip(cells[1].text), Strip(cells[2].text), Strip(cells[3].text)) in targets then Drop
    else Keep
  }

  /** A row is kept exactly when it has four cells, none of the matched ones `None`, and
      its rendered content is no target's; it is dropped exactly when it is short or matches. */
  lemma JudgeMeaning(cells: seq<Cell>, targets: seq<Triple>)
    ensures Judge(cells, targets) == Keep <==>
              |cells| >= 4 && cells[1].Text? && cells[2].Text? && cells[3].Text? && RowTriple(Render(cells)) !in targets
    ensures Judge(cells, targets) == Drop <==>
              |cells| < 4 || (cells[1].Text? && cells[2].Text? && cells[3].Text? && RowTriple(Render(cells)) in targets)
  {
    if |cells| >= 4 && cells[1].Text? && cells[2].Text? && cells[3].Text? {
      var row := Render(cells);
      assert row[1] == cells[1].text && row[2] == cells[2].text && row[3] == cells[3].text;
    }
  }

  /** One iteration of the filter loop: a kept row is appended, a row that raises ends it. */
  function FilterStep(acc: Result<seq<Row>, RemovalFault>, cells: seq<Cell>, targets: seq<Triple>): Result<seq<Row>, RemovalFault>
  {
    if acc.Failure? then acc
    else
      match Judge(cells, targets)
      case Keep => Success(acc.value + [Render(cells)])
      case Drop => acc
      case Fail => Failure(MissingCell)
  }

  /** The filter loop over the rebuilt rows, stopping at the first row that raises. */
  function FilterCells(existing: seq<seq<Cell>>, targets: seq<Triple>): Result<seq<Row>, RemovalFault>
  {
    if existing == [] then Success([])
    else FilterStep(FilterCells(existing[..|existing| - 1], targets), existing[|existing| - 1], targets)
  }

  /** `_remove_from_csv` on the file's content: the new content, or why it raises. */
  function RemoveRows(data: Option<seq<Row>>, targets: seq<Triple>): (r: Result<seq<Row>, RemovalFault>)
    ensures data.None? ==> r == Failure(FileMissing)
    ensures data == Some([]) ==> r == Failure(HeaderMissing)
    ensures r.Success? ==> data.Some? && data.value != [] && r.value != [] && r.value[0] == data.value[0]
  {
    match data
    case None => Failure(FileMissing)
    case Some(file) =>
      if file == [] then Failure(HeaderMissing)
      else
        match FilterCells(RebuildAll(file[0], DataRows(file)), targets)
        case Failure(f) => Failure(f)
        case Success(kept) => Success([file[0]] + kept)
  }

  /** The filter works row by row: the kept rows of two runs of rows are those of the first
      run followed by those of the second, in file order, and a row that raises anywhere makes
      the whole filter raise. */
  lemma {:induction false} FilterCellsConcat(a: seq<seq<Cell>>, b: seq<seq<Cell>>, targets: seq<Triple>)
    ensures var fa, fb := FilterCells(a, targets), FilterCells(b, targets);
      && (fa.Failure? ==> FilterCells(a + b, targets) == fa)
      && (fa.Success? && fb.Success? ==> FilterCells(a + b, targets) == Success(fa.value + fb.value))
      && (fa.Success? && fb.Failure? ==> FilterCells(a + b, targets) == fb)
    decreases |b|
  {
    if b == [] {
      assert a + b == a;
      if FilterCells(a, targets).Success? {
        assert FilterCells(a, targets).value + [] == FilterCells(a, targets).value;
      }
    } else {
      var init := b[..|b| - 1];
      assert (a + b)[..|a + b| - 1] == a + init;
      assert (a + b)[|a + b| - 1] == b[|b| - 1];
      FilterCellsConcat(a, init, targets);
      var fa, fi := FilterCells(a, targets), FilterCells(init, targets);
      if fa.Success? && fi.Success? {
        var x := b[|b| - 1];
        if Judge(x, targets) == Keep {
          assert (fa.value + fi.value) + [Render(x)] == fa.value + (fi.value + [Render(x)]);
        }
      }
    }
  }

  /** The filter fails exactly when some row raises. */
  lemma {:induction false} FilterFailsIff(existing: seq<seq<Cell>>, targets: seq<Triple>)
    ensures FilterCells(existing, targets).Success? <==> forall i :: 0 <= i < |existing| ==> Judge(existing[i], targets) != Fail
  {
    if existing != [] {
      var init := existing[..|existing| - 1];
      FilterFailsIff(init, targets);
      if FilterCells(init, targets).Failure? {
        var i :| 0 <= i < |init| && Judge(init[i], targets) == Fail;
        assert existing[i] == init[i];
      } else {
        assert forall i :: 0 <= i < |init| ==> init[i] == existing[i];
      }
    }
  }

  /** No row the filter keeps is short or matches a target, and it keeps at most one row per
      input row. */
  lemma {:induction false} FilterKeepsOnlyUnmatched(existing: seq<seq<Cell>>, targets: seq<Triple>)
    requires FilterCells(existing, targets).Success?
    ensures var kept := FilterCells(existing, targets).value;
      && |kept| <= |existing|
      && forall r :: r in kept ==> |r| >= 4 && RowTriple(r) !in targets
  {
    if existing != [] {
      var init := existing[..|existing| - 1];
      var last := existing[|existing| - 1];
      FilterKeepsOnlyUnmatched(init, targets);
      JudgeMeaning(last, targets);
    }
  }

  /** Every row judged `Keep` appears in the output, rendered. */
  lemma {:induction false} FilterKeepsEveryUnmatched(existing: seq<seq<Cell>>, targets: seq<Triple>)
    requires FilterCells(existing, targets).Success?
    ensures forall i :: 0 <= i < |existing| && Judge(existing[i], targets) == Keep ==>
              Render(existing[i]) in FilterCells(existing, targets).value
  {
    if existing != [] {
      var init := existing[..|existing| - 1];
      FilterKeepsEveryUnmatched(init, targets);
      assert forall i :: 0 <= i < |init| ==> init[i] == existing[i];
    }
  }

  /** With a header of fewer than four fields every data row is dropped. */
  lemma ShortHeaderDropsAll(file: seq<Row>, targets: seq<Triple>)
    requires file != [] && |file[0]| < 4
    ensures RemoveRows(Some(file), targets) == Success([file[0]])
  {
    var existing := RebuildAll(file[0], DataRows(file));
    assert forall i :: 0 <= i < |existing| ==> |existing[i]| == |file[0]|;
    ShortRowsDropped(existing, targets);
    assert [file[0]] + [] == [file[0]];
  }

  lemma {:induction false} ShortRowsDropped(existing: seq<seq<Cell>>, targets: seq<Triple>)
    requires forall i :: 0 <= i < |existing| ==> |existing[i]| < 4
    ensures FilterCells(existing, targets) == Success([])
  {
    if existing != [] {
      ShortRowsDropped(existing[..|existing| - 1], targets);
    }
  }

  /** A target whose name carries surrounding whitespace never matches: rows are compared
      after stripping, so adding such a target to the list changes nothing.  Records added by
      `add_compound` keep their fields unstripped and are, in that case, never removed from the
      file. */
  lemma UnstrippedTargetNeverMatches(data: Option<seq<Row>>, targets: seq<Triple>, t: Triple)
    requires Strip(t.name) != t.name
    ensures RemoveRows(data, targets + [t]) == RemoveRows(data, targets)
  {
    if data.Some? && data.value != [] {
      FilterIgnoresUnstripped(RebuildAll(data.value[0], DataRows(data.value)), targets, t);
    }
  }

  lemma {:induction false} FilterIgnoresUnstripped(existing: seq<seq<Cell>>, targets: seq<Triple>, t: Triple)
    requires Strip(t.name) != t.name
    ensures FilterCells(existing, targets + [t]) == FilterCells(existing, targets)
  {
    if existing != [] {
      FilterIgnoresUnstripped(existing[..|existing| - 1], targets, t);
      var last := existing[|existing| - 1];
      if |last| >= 4 && last[1].Text? && last[2].Text? && last[3].Text? {
        var content := Triple(Strip(last[1].text), Strip(last[2].text), Strip(last[3].text));
        StripIdempotent(last[1].text);
        assert content != t;
        assert content in targets + [t] <==> content in targets;
      }
      assert Judge(last, targets + [t]) == Judge(last, targets);
    }
  }

  /** The filter loop as the source writes it: a `should_delete` flag found by scanning the
      targets, rows appended to the output, and the first row that raises ending the loop. */
  method FilterExisting(existing: seq<seq<Cell>>, targets: seq<Triple>) returns (r: Result<seq<Row>, RemovalFault>)
    ensures r == FilterCells(existing, targets)
  {
    var filtered: seq<Row> := [];
    var i := 0;
    while i < |existing|
      invariant 0 <= i <= |existing|
      invariant FilterCells(existing[..i], targets) == Success(filtered)
    {
      var row := existing[i];
      assert existing[..i + 1][..i] == existing[..i];
      if |row| >= 4 {
        if !row[1].Text? || !row[2].Text? || !row[3].Text? {
          assert FilterCells(existing[..i + 1], targets) == Failure(MissingCell);
          SuffixKeepsFailure(existing, i + 1, targets);
          return Failure(MissingCell);
        }
        var content := Triple(Strip(row[1].text), Strip(row[2].text), Strip(row[3].text));
        var shouldDelete := false;
        var j := 0;
        while j < |targets|
          invariant 0 <= j <= |targets|
          invariant shouldDelete <==> content in targets[..j]
          invariant shouldDelete ==> content in targets
        {
          assert targets[..j + 1] == targets[..j] + [targets[j]];
          if content == targets[j] {
            shouldDelete := true;
            break;
          }
          j := j + 1;
        }
        assert targets[..|targets|] == targets;
        if !shouldDelete {
          filtered := filtered + [Render(row)];
        }
      }
      i := i + 1;
    }
    assert existing[..|existing|] == existing;
    r := Success(filtered);
  }

  /** Once a prefix raises, the whole filter raises. */
  lemma {:induction false} SuffixKeepsFailure(existing: seq<seq<Cell>>, n: nat, targets: seq<Triple>)
    requires n <= |existing| && FilterCells(existing[..n], targets) == Failure(MissingCell)
    ensures FilterCells(existing, targets) == Failure(MissingCell)
    decreases |existing| - n
  {
    if n < |existing| {
      assert existing[..n + 1][..n] == existing[..n];
      SuffixKeepsFailure(existing, n + 1, targets);
    } else {
      assert existing[..n] == existing;
    }
  }
}
