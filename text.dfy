/**
 * The string operations the catalogue applies to barcodes, names, SMILES and numbers:
 * Python's `str.strip()`, `str.replace`, `str.isdigit`, `int(...)` and `str(n)`.
 */
module Text {
  import opened Common

  /** The long dash of the StilBAR notation (U+2013 EN DASH). */
  const EnDash: char := '\U{2013}'

  /** Python's `str.isspace()`: the characters `str.strip()` removes. */
  predicate IsSpace(c: char)
  {
    ('\t' <= c <= '\r') || ('\U{1C}' <= c <= '\U{1F}') || c == ' ' || c == '\U{85}' || c == '\U{A0}'
    || c == '\U{1680}' || ('\U{2000}' <= c <= '\U{200A}') || c == '\U{2028}' || c == '\U{2029}'
    || c == '\U{202F}' || c == '\U{205F}' || c == '\U{3000}'
  }

  /** Leading whitespace removed. */
  function TrimStart(s: string): string
  {
    if s != [] && IsSpace(s[0]) then TrimStart(s[1..]) else s
  }

  /** Trailing whitespace removed. */
  function TrimEnd(s: string): string
  {
    if s != [] && IsSpace(s[|s| - 1]) then TrimEnd(s[..|s| - 1]) else s
  }

  /** Python's `s.strip()`. */
  function Strip(s: string): string
  {
    TrimEnd(TrimStart(s))
  }

  /** `TrimStart` removes a prefix of whitespace and leaves a string that starts with none. */
  lemma {:induction false} TrimStartSpec(s: string)
    ensures var r := TrimStart(s);
      && |r| <= |s| && r == s[|s| - |r|..]
      && (r == [] || !IsSpace(r[0]))
      && forall i :: 0 <= i < |s| - |r| ==> IsSpace(s[i])
  {
    if s != [] && IsSpace(s[0]) {
      var t := s[1..];
      TrimStartSpec(t);
      var r := TrimStart(t);
      assert t[|t| - |r|..] == s[|s| - |r|..];
      forall i | 0 <= i < |s| - |r| ensures IsSpace(s[i]) {
        if i > 0 {
          assert s[i] == t[i - 1];
        }
      }
    }
  }

  /** `TrimEnd` removes a suffix of whitespace and leaves a string that ends with none. */
  lemma {:induction false} TrimEndSpec(s: string)
    ensures var r := TrimEnd(s);
      && |r| <= |s| && r == s[..|r|]
      && (r == [] || !IsSpace(r[|r| - 1]))
      && forall i :: |r| <= i < |s| ==> IsSpace(s[i])
  {
    if s != [] && IsSpace(s[|s| - 1]) {
      TrimEndSpec(s[..|s| - 1]);
    }
  }

  /** The stripped string is the original without its leading and trailing whitespace: a
      piece `s[a..b]` with only whitespace before `a` and after `b`, and none at either end of
      the piece itself.  It is empty exactly when the original is all whitespace. */
  lemma StripSpec(s: string)
    ensures var r := Strip(s);
      && |r| <= |s|
      && (r == [] || (!IsSpace(r[0]) && !IsSpace(r[|r| - 1])))
      && (r == [] <==> forall i :: 0 <= i < |s| ==> IsSpace(s[i]))
      && exists a, b :: 0 <= a <= b <= |s| && r == s[a..b]
           && (forall i :: 0 <= i < a ==> IsSpace(s[i]))
           && (forall i :: b <= i < |s| ==> IsSpace(s[i]))
  {
    var t := TrimStart(s);
    TrimStartSpec(s);
    TrimEndSpec(t);
    var r := TrimEnd(t);
    if r != [] {
      assert r[0] == t[0];
    }
    if r == [] {
      assert t == [];
    }
    var a := |s| - |t|;
    var b := a + |r|;
    assert r == s[a..b];
    forall i | b <= i < |s| ensures IsSpace(s[i]) {
      assert s[i] == t[i - a];
    }
  }

  /** A string with no whitespace at either end is its own strip. */
  lemma StripNoOp(s: string)
    requires s == [] || (!IsSpace(s[0]) && !IsSpace(s[|s| - 1]))
    ensures Strip(s) == s
  {
  }

  /** Stripping twice is stripping once. */
  lemma StripIdempotent(s: string)
    ensures Strip(Strip(s)) == Strip(s)
  {
    StripSpec(s);
    StripNoOp(Strip(s));
  }

  /** Python's `s.replace(c, '')` for a single character `c`. */
  function RemoveChar(s: string, c: char): (r: string)
    ensures |r| <= |s|
    ensures forall x :: x in r <==> x in s && x != c
    ensures s != [] && s[0] != c ==> r != [] && r[0] == s[0]
    ensures s != [] && s[|s| - 1] != c ==> r != [] && r[|r| - 1] == s[|s| - 1]
  {
    if s == [] then []
    else (if s[0] == c then [] else [s[0]]) + RemoveChar(s[1..], c)
  }

  /** `replace(c, '')` works character by character: removal distributes over
      concatenation, so the kept characters stay in order and each occurrence is kept once. */
  lemma {:induction false} RemoveCharConcat(a: string, b: string, c: char)
    ensures RemoveChar(a + b, c) == RemoveChar(a, c) + RemoveChar(b, c)
  {
    if a == [] {
      assert a + b == b;
    } else {
      var head := if a[0] == c then [] else [a[0]];
      assert (a + b)[0] == a[0] && (a + b)[1..] == a[1..] + b;
      RemoveCharConcat(a[1..], b, c);
      AppendAssoc(head, RemoveChar(a[1..], c), RemoveChar(b, c));
    }
  }

  /** A single character is dropped exactly when it is the removed one. */
  lemma RemoveCharSingle(x: char, c: char)
    ensures RemoveChar([x], c) == if x == c then [] else [x]
  {
    assert [x][1..] == [];
  }

  /** Removing a character that does not occur changes nothing. */
  lemma {:induction false} RemoveCharNoOp(s: string, c: char)
    requires c !in s
    ensures RemoveChar(s, c) == s
  {
    if s != [] {
      RemoveCharNoOp(s[1..], c);
    }
  }

  /** Python's `s.replace(a, b)` for single characters `a` and `b`. */
  function Replace(s: string, a: char, b: char): (r: string)
    ensures |r| == |s|
    ensures forall i :: 0 <= i < |s| ==> r[i] == (if s[i] == a then b else s[i])
  {
    if s == [] then []
    else [if s[0] == a then b else s[0]] + Replace(s[1..], a, b)
  }

  /** Replacing a character that does not occur changes nothing. */
  lemma ReplaceNoOp(s: string, a: char, b: char)
    requires a !in s
    ensures Replace(s, a, b) == s
  {
    assert forall i :: 0 <= i < |s| ==> Replace(s, a, b)[i] == s[i];
  }

  /** The cleaning applied to every code typed in or stored: `strip()`, then all spaces removed. */
  function CleanInput(s: string): (r: string)
    ensures ' ' !in r
  {
    RemoveChar(Strip(s), ' ')
  }

  /** Every plain hyphen becomes the notation's long dash. */
  function Normalize(s: string): (r: string)
    ensures |r| == |s| && '-' !in r
  {
    Replace(s, '-', EnDash)
  }

  /** The barcode cleaning used for identities: strip, remove spaces, hyphen to long dash. */
  function CleanStilbar(s: string): (r: string)
    ensures ' ' !in r && '-' !in r
  {
    var t := Normalize(CleanInput(s));
    assert forall i :: 0 <= i < |t| ==> t[i] != ' ';
    t
  }

  /** A cleaned barcode is untouched by each step of the cleaning: it is already stripped,
      spaceless and normalised. */
  lemma {:induction false} CleanedIsFixpoint(s: string)
    ensures var t := CleanStilbar(s); Strip(t) == t && CleanInput(t) == t && Normalize(t) == t
  {
    var u := CleanInput(s);
    var t := Normalize(u);
    var st := Strip(s);
    StripSpec(s);
    // u keeps the first and the last character of the stripped string, which are not spaces
    if st != [] {
      assert st[0] != ' ' && st[|st| - 1] != ' ';
      assert u != [] && u[0] == st[0] && u[|u| - 1] == st[|st| - 1];
      assert !IsSpace(t[0]) && !IsSpace(t[|t| - 1]);
    } else {
      assert u == [] && t == [];
    }
    StripNoOp(t);
    RemoveCharNoOp(t, ' ');
    ReplaceNoOp(t, '-', EnDash);
  }

  /** Cleaning a barcode twice is cleaning it once. */
  lemma CleanStilbarIdempotent(s: string)
    ensures CleanStilbar(CleanStilbar(s)) == CleanStilbar(s)
  {
    CleanedIsFixpoint(s);
  }

  predicate IsDigit(c: char) { '0' <= c <= '9' }

  /** Python's `s.isdigit()` restricted to ASCII digits: non-empty and all digits. */
  predicate IsDigits(s: string)
  {
    |s| > 0 && forall i :: 0 <= i < |s| ==> IsDigit(s[i])
  }

  /** Python's `int(s)` for a string of ASCII digits (leading zeros allowed). */
  function DigitsValue(s: string): (n: nat)
    requires forall i :: 0 <= i < |s| ==> IsDigit(s[i])
  {
    if s == [] then 0
    else
      assert IsDigit(s[|s| - 1]);
      10 * DigitsValue(s[..|s| - 1]) + (s[|s| - 1] as int - '0' as int)
  }

  /** Python's `str(n)` for a natural number: decimal digits, no leading zero. */
  function NatToString(n: nat): (s: string)
    ensures IsDigits(s)
    ensures |s| > 1 ==> s[0] != '0'
  {
    var d := [(('0' as int) + n % 10) as char];
    if n < 10 then d else NatToString(n / 10) + d
  }

  /** `int(str(n)) == n`. */
  lemma {:induction false} NatToStringRoundTrip(n: nat)
    ensures DigitsValue(NatToString(n)) == n
  {
    var s := NatToString(n);
    if n >= 10 {
      NatToStringRoundTrip(n / 10);
      assert s[..|s| - 1] == NatToString(n / 10);
    }
  }
}
