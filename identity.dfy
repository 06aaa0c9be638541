/**
 * Compound identity (hash_compound_manager.py, `generate_hash`): the first eight hex digits of
 * the SHA-256 digest of "<cleaned barcode>|<stripped name>".  The digest itself is not
 * modelled: it is a parameter, any function that yields eight characters.
 */
module Identity {
  import opened Text

  /** The truncated digest: SHA-256 of the UTF-8 bytes, hex, first eight characters. */
  type Digest = f: string -> string | forall s :: |f(s)| == 8 witness (s: string) => "00000000"

  /** The string that is hashed. */
  function HashInput(stilbarCode: string, compoundName: string): string
  {
    CleanStilbar(stilbarCode) + "|" + Strip(compoundName)
  }

  /** `generate_hash(stilbar_code, compound_name)`. */
  function GenerateHash(digest: Digest, stilbarCode: string, compoundName: string): (h: string)
    ensures |h| == 8
  {
    digest(HashInput(stilbarCode, compoundName))
  }

  /** The identity depends on the barcode only through its cleaned form and on the name only
      through its stripped form: codes that differ in spaces or in hyphen versus long dash
      share an identity. */
  lemma SameIdentityForEquivalentInputs(digest: Digest, c1: string, n1: string, c2: string, n2: string)
    requires CleanStilbar(c1) == CleanStilbar(c2) && Strip(n1) == Strip(n2)
    ensures GenerateHash(digest, c1, n1) == GenerateHash(digest, c2, n2)
  {
  }

  /** Hashing an already-cleaned barcode gives the same identity as hashing the raw one. */
  lemma IdentityOfCleanedCode(digest: Digest, code: string, name: string)
    ensures GenerateHash(digest, CleanStilbar(code), Strip(name)) == GenerateHash(digest, code, name)
  {
    CleanStilbarIdempotent(code);
    StripIdempotent(name);
  }

  /** Position of the last `|` in `s`, or -1. */
  function LastBar(s: string): (k: int)
    ensures -1 <= k < |s|
  {
    if s == [] then -1
    else if s[|s| - 1] == '|' then |s| - 1
    else LastBar(s[..|s| - 1])
  }

  lemma {:induction false} LastBarIsSeparator(a: string, b: string)
    requires '|' !in b
    ensures LastBar(a + "|" + b) == |a|
  {
    if b != [] {
      var s := a + "|" + b;
      assert s[..|s| - 1] == a + "|" + b[..|b| - 1];
      LastBarIsSeparator(a, b[..|b| - 1]);
    }
  }

  /** While the name holds no `|`, the hashed string determines the cleaned barcode and the
      stripped name: two inputs that differ there hash different strings. */
  lemma HashInputInjective(c1: string, n1: string, c2: string, n2: string)
    requires '|' !in Strip(n1) && '|' !in Strip(n2)
    requires HashInput(c1, n1) == HashInput(c2, n2)
    ensures CleanStilbar(c1) == CleanStilbar(c2) && Strip(n1) == Strip(n2)
  {
    var a1, b1, a2, b2 := CleanStilbar(c1), Strip(n1), CleanStilbar(c2), Strip(n2);
    var s := a1 + "|" + b1;
    assert s == a2 + "|" + b2;
    // the separator is the last `|` of the hashed string, so it sits at the same place in both
    LastBarIsSeparator(a1, b1);
    LastBarIsSeparator(a2, b2);
    assert |a1| == |a2|;
    assert a1 == s[..|a1|] == a2;
    assert b1 == s[|a1| + 1..] == b2;
  }
}
