/** Small shared vocabulary: optional values, results with an error, CSV rows. */
module Common {

  datatype Option<+T> = None | Some(value: T)

  /** The outcome of an operation that can raise: a value, or the cause of the exception. */
  datatype Result<+T, +E> = Success(value: T) | Failure(error: E)

  /** One parsed line of a CSV file: its cells, in order (a blank line is the empty row). */
  type Row = seq<string>

  /** Regrouping a concatenation; stating it as a lemma lets list proofs use it without
      re-deriving sequence equality element by element. */
  lemma AppendAssoc<T>(p: seq<T>, q: seq<T>, r: seq<T>)
    ensures p + (q + r) == (p + q) + r
  {
  }
}
