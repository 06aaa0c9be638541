/**
 * `FixedSMILESGenerator` (fixed_smiles_generator.py): resolving a typed-in barcode or compound
 * number against the store of a `HashCompoundManager`, and the store's listings.  Every
 * operation reads the store only, so each is a function of the store's value.
 */
module SmilesGenerator {
  import opened Common
  import opened Text
  import opened CompoundIndex

  /** `found_method` of a hit; a compound-number hit also carries `compound_number`. */
  datatype FoundMethod = StilbarLookup | StilbarLookupOriginal | CompoundNumber(number: nat)

  /** The pair `generate_smiles` returns: the SMILES with its metadata, or `None` with the
      input in its three forms. */
  datatype Resolution =
    | Resolved(smiles: string, foundMethod: FoundMethod, compoundName: string, stilbarCode: string)
    | NotFound(inputCode: string, cleanedCode: string, normalizedCode: string)

  function FromRecord(c: Compound, m: FoundMethod): Resolution
  {
    Resolved(c.smiles, m, c.name, c.stilbar)
  }

  /** Neither barcode lookup finds the cleaned input: not its dash-normalised form, and not
      the cleaned form itself when that differs. */
  predicate ByCodeMisses(idx: Index, clean: string)
  {
    && GetCompoundByStilbar(idx, Normalize(clean)).None?
    && (clean == Normalize(clean) || GetCompoundByStilbar(idx, clean).None?)
  }

  /** `generate_smiles(input_code)`: the dash-normalised code first, then the cleaned code
      when it differs, then a 1-based position in the store's order. */
  function GenerateSmiles(idx: Index, input: string): (r: Resolution)
    requires IndexValid(idx)
    ensures r.NotFound? ==>
              r == NotFound(input, CleanInput(input), Normalize(CleanInput(input)))
    ensures r.Resolved? ==> exists h :: h in idx.compounds && r == FromRecord(idx.compounds[h], r.foundMethod)
    ensures r.Resolved? && r.foundMethod == StilbarLookupOriginal ==> '-' in CleanInput(input)
    ensures r.Resolved? && r.foundMethod.CompoundNumber? ==>
              IsDigits(CleanInput(input)) && r.foundMethod.number == DigitsValue(CleanInput(input))
              && 1 <= r.foundMethod.number <= |idx.compounds|
  {
    var clean := CleanInput(input);
    var normalized := Normalize(clean);
    var byCode := GetCompoundByStilbar(idx, normalized);
    if byCode.Some? then
      FromRecord(byCode.value, StilbarLookup)
    else
      var byOriginal := if clean != normalized then GetCompoundByStilbar(idx, clean) else None;
      if byOriginal.Some? then
        assert '-' in clean by {
          if '-' !in clean {
            ReplaceNoOp(clean, '-', EnDash);
          }
        }
        FromRecord(byOriginal.value, StilbarLookupOriginal)
      else
        var all := AllCompounds(idx);
        OrderSize(idx);
        if IsDigits(clean) && 1 <= DigitsValue(clean) <= |all| then
          var n := DigitsValue(clean);
          FromRecord(all[n - 1], CompoundNumber(n))
        else
          NotFound(input, clean, normalized)
  }

  /** The strategies are tried in order and the first that hits decides: the normalised code,
      then the cleaned code when it differs, then the position; the input is not found
      exactly when all three miss. */
  lemma ResolutionOrder(idx: Index, input: string)
    requires IndexValid(idx)
    ensures var n := Normalize(CleanInput(input));
      GetCompoundByStilbar(idx, n).Some? ==> GenerateSmiles(idx, input) == FromRecord(GetCompoundByStilbar(idx, n).value, StilbarLookup)
    ensures var c := CleanInput(input);
      GetCompoundByStilbar(idx, Normalize(c)).None? && c != Normalize(c) && GetCompoundByStilbar(idx, c).Some? ==>
        GenerateSmiles(idx, input) == FromRecord(GetCompoundByStilbar(idx, c).value, StilbarLookupOriginal)
    ensures var c := CleanInput(input);
      ByCodeMisses(idx, c) && IsDigits(c) && 1 <= DigitsValue(c) <= |idx.order| ==>
        GenerateSmiles(idx, input) == FromRecord(AllCompounds(idx)[DigitsValue(c) - 1], CompoundNumber(DigitsValue(c)))
    ensures var c := CleanInput(input);
      GenerateSmiles(idx, input).NotFound? <==> ByCodeMisses(idx, c) && !(IsDigits(c) && 1 <= DigitsValue(c) <= |idx.order|)
  {
    OrderSize(idx);
  }

  /** Digits and the cleaning: a digit string has no whitespace, no space and no hyphen. */
  lemma DigitsAreClean(s: string)
    requires IsDigits(s)
    ensures CleanInput(s) == s && Normalize(s) == s
  {
    assert !IsSpace(s[0]) && !IsSpace(s[|s| - 1]);
    StripNoOp(s);
    assert ' ' !in s && '-' !in s;
    RemoveCharNoOp(s, ' ');
    ReplaceNoOp(s, '-', EnDash);
  }

  /** A numeric input that is also a stored barcode resolves by the barcode, never by position. */
  lemma NumericBarcodeWinsOverPosition(idx: Index, input: string)
    requires IndexValid(idx)
    requires IsDigits(CleanInput(input)) && GetCompoundByStilbar(idx, CleanInput(input)).Some?
    ensures GenerateSmiles(idx, input) == FromRecord(GetCompoundByStilbar(idx, CleanInput(input)).value, StilbarLookup)
  {
    DigitsAreClean(CleanInput(input));
  }

  /** `str(n)` for a position `1 <= n <= size` that is not a stored barcode resolves to the n-th
      record of the store's order. */
  lemma NumberResolvesToPosition(idx: Index, n: nat)
    requires IndexValid(idx) && 1 <= n <= |idx.order|
    requires GetCompoundByStilbar(idx, NatToString(n)).None?
    ensures GenerateSmiles(idx, NatToString(n)) == FromRecord(AllCompounds(idx)[n - 1], CompoundNumber(n))
  {
    var s := NatToString(n);
    DigitsAreClean(s);
    NatToStringRoundTrip(n);
  }

  /** A number outside `1..size` (including `0`) that is not a stored barcode is not found. */
  lemma NumberOutOfRangeNotFound(idx: Index, input: string)
    requires IndexValid(idx)
    requires IsDigits(CleanInput(input)) && GetCompoundByStilbar(idx, CleanInput(input)).None?
    requires DigitsValue(CleanInput(input)) == 0 || DigitsValue(CleanInput(input)) > |idx.order|
    ensures GenerateSmiles(idx, input).NotFound?
  {
    DigitsAreClean(CleanInput(input));
  }

  /** Blank input is never found: the empty barcode is never mapped and is not a number. */
  lemma BlankInputNotFound(idx: Index, input: string)
    requires IndexValid(idx)
    requires forall i :: 0 <= i < |input| ==> IsSpace(input[i])
    ensures GenerateSmiles(idx, input) == NotFound(input, "", "")
  {
    StripSpec(input);
    assert CleanInput(input) == "";
  }

  /** After a record with a non-empty, already-normalised barcode is added, typing that barcode
      finds exactly that record by code. */
  lemma AddThenResolve(idx: Index, c: Compound)
    requires IndexValid(idx) && c.hash !in idx.compounds && c.hash != ""
    requires c.stilbar != "" && CleanStilbar(c.stilbar) == c.stilbar
    ensures IndexValid(Store(idx, c))
    ensures GenerateSmiles(Store(idx, c), c.stilbar) == Resolved(c.smiles, StilbarLookup, c.name, c.stilbar)
  {
    StoreEffect(idx, c);
    CleanedIsFixpoint(c.stilbar);
    AddThenLookup(idx, c);
  }

  /** A hyphenated barcode stored as typed is still found, through the second lookup, as long
      as its long-dash form is not mapped. */
  lemma HyphenatedBarcodeFoundAsTyped(idx: Index, code: string)
    requires IndexValid(idx)
    requires CleanInput(code) == code && '-' in code
    requires GetCompoundByStilbar(idx, Normalize(code)).None? && GetCompoundByStilbar(idx, code).Some?
    ensures GenerateSmiles(idx, code) == FromRecord(GetCompoundByStilbar(idx, code).value, StilbarLookupOriginal)
  {
    assert Normalize(code) != code by {
      var k :| 0 <= k < |code| && code[k] == '-';
      assert Normalize(code)[k] == EnDash;
    }
  }

  /** `get_all_compound_numbers`: `1..size`. */
  function GetAllCompoundNumbers(idx: Index): (r: seq<nat>)
    requires IndexValid(idx)
  {
    seq(|AllCompounds(idx)|, i requires 0 <= i < |AllCompounds(idx)| => i + 1)
  }

  /** `get_compound_info(n)`: the n-th record of the store's order, for `1 <= n <= size`. */
  datatype Info = Info(number: int, name: string, barcode: string, smiles: string)

  function GetCompoundInfo(idx: Index, n: int): (r: Option<Info>)
    requires IndexValid(idx)
    ensures r.Some? <==> 1 <= n <= |AllCompounds(idx)|
    ensures r.Some? ==> var c := AllCompounds(idx)[n - 1];
      r.value == Info(n, c.name, c.stilbar, c.smiles) && c in idx.compounds.Values
  {
    OrderSize(idx);
    var all := AllCompounds(idx);
    if 1 <= n <= |all| then
      var c := all[n - 1];
      Some(Info(n, c.name, c.stilbar, c.smiles))
    else None
  }

  /** The listed numbers are exactly the numbers `get_compound_info` answers for, in order. */
  lemma NumbersAreInfoDomain(idx: Index, n: int)
    requires IndexValid(idx)
    ensures var nums := GetAllCompoundNumbers(idx);
      && |nums| == |idx.compounds|
      && (forall i :: 0 <= i < |nums| ==> nums[i] == i + 1)
      && (n >= 0 && (n as nat) in nums <==> GetCompoundInfo(idx, n).Some?)
  {
    OrderSize(idx);
    var nums := GetAllCompoundNumbers(idx);
    if 1 <= n <= |nums| {
      assert nums[n - 1] == n;
    }
  }

  /** Resolving `str(n)` by position agrees with `get_compound_info(n)`. */
  lemma NumberAgreesWithInfo(idx: Index, n: nat)
    requires IndexValid(idx) && 1 <= n <= |idx.order|
    requires GetCompoundByStilbar(idx, NatToString(n)).None?
    ensures var info := GetCompoundInfo(idx, n).value;
      GenerateSmiles(idx, NatToString(n)) == Resolved(info.smiles, CompoundNumber(n), info.name, info.barcode)
  {
    OrderSize(idx);
    NumberResolvesToPosition(idx, n);
  }

  /** The non-empty barcodes of some records, in order. */
  function Barcodes(cs: seq<Compound>): (r: seq<string>)
    ensures |r| <= |cs|
  {
    if cs == [] then []
    else
      var rest := Barcodes(cs[..|cs| - 1]);
      var b := cs[|cs| - 1].stilbar;
      if b != "" then rest + [b] else rest
  }

  /** The listing works record by record: one barcode for each record that has one, in
      record order, repeats included. */
  lemma {:induction false} BarcodesConcat(a: seq<Compound>, b: seq<Compound>)
    ensures Barcodes(a + b) == Barcodes(a) + Barcodes(b)
    decreases |b|
  {
    if b == [] {
      assert a + b == a;
    } else {
      var init := b[..|b| - 1];
      assert (a + b)[..|a + b| - 1] == a + init;
      assert (a + b)[|a + b| - 1] == b[|b| - 1];
      BarcodesConcat(a, init);
    }
  }

  lemma BarcodesSingle(c: Compound)
    ensures Barcodes([c]) == if c.stilbar != "" then [c.stilbar] else []
  {
    assert [c][..0] == [];
  }

  lemma {:induction false} BarcodesMembers(cs: seq<Compound>)
    ensures forall b :: b in Barcodes(cs) <==> b != "" && exists i :: 0 <= i < |cs| && cs[i].stilbar == b
  {
    if cs != [] {
      var init := cs[..|cs| - 1];
      BarcodesMembers(init);
      forall b | b in Barcodes(cs) ensures exists i :: 0 <= i < |cs| && cs[i].stilbar == b {
        if b in Barcodes(init) {
          var i :| 0 <= i < |init| && init[i].stilbar == b;
          assert cs[i].stilbar == b;
        } else {
          assert cs[|cs| - 1].stilbar == b;
        }
      }
      forall b | b != "" && exists i :: 0 <= i < |cs| && cs[i].stilbar == b ensures b in Barcodes(cs) {
        var i :| 0 <= i < |cs| && cs[i].stilbar == b;
        if i < |init| {
          assert init[i].stilbar == b;
        }
      }
    }
  }

  /** `get_all_barcodes`: the non-empty barcodes of the records, in the store's order. */
  function GetAllBarcodes(idx: Index): (r: seq<string>)
    requires IndexValid(idx)
  {
    Barcodes(AllCompounds(idx))
  }

  /** A barcode is listed exactly when it is non-empty and some stored record has it. */
  lemma AllBarcodesListed(idx: Index)
    requires IndexValid(idx)
    ensures |GetAllBarcodes(idx)| <= |idx.compounds|
    ensures forall b :: b in GetAllBarcodes(idx) <==> b != "" && exists h :: h in idx.compounds && idx.compounds[h].stilbar == b
  {
    var all := AllCompounds(idx);
    BarcodesMembers(all);
    OrderSize(idx);
    forall b ensures b in GetAllBarcodes(idx) <==> b != "" && exists h :: h in idx.compounds && idx.compounds[h].stilbar == b {
      if b != "" && exists h :: h in idx.compounds && idx.compounds[h].stilbar == b {
        var h :| h in idx.compounds && idx.compounds[h].stilbar == b;
        assert idx.compounds[h] in all;
        var i :| 0 <= i < |all| && all[i] == idx.compounds[h];
        assert all[i].stilbar == b;
      }
      if b in GetAllBarcodes(idx) {
        var i :| 0 <= i < |all| && all[i].stilbar == b;
        assert all[i] == idx.compounds[idx.order[i]];
      }
    }
  }
}
