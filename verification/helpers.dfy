/**
  The closure generation: a `Func[T]` is a Go function `func() (T, bool,
  error)` returning one value per call, a flag that is false once the
  iterator is exhausted, and an error. helpers.go builds the two shapes of
  that triple.
 */
module Helpers {
  import opened Types

  /** The `(value, more, err)` triple one call of a `Func[T]` returns. */
  datatype Produced<T> = Produced(value: T, more: bool, err: Option<Error>)

  /** `Done[T](err)`: the end of iteration, carrying `err`; `zero` is the
      zero value of `T`. */
  function Done<T>(zero: T, err: Option<Error>): (r: Produced<T>)
    ensures !r.more && r.value == zero && r.err == err
  {
    Produced(zero, false, err)
  }

  /** `Value(val, err)`: one produced value, with its error. */
  function Value<T>(val: T, err: Option<Error>): (r: Produced<T>)
    ensures r.more && r.value == val && r.err == err
  {
    Produced(val, true, err)
  }

  /** The two helpers between them build exactly the triples a well-behaved
      iterator returns: every triple with `more` set is a `Value`, and a triple
      is a `Done` exactly when `more` is clear and the value is the zero
      value. Two different errors never give the same `Done`. */
  lemma HelpersCover<T>(zero: T, r: Produced<T>, e1: Option<Error>, e2: Option<Error>)
    ensures r.more <==> r == Value(r.value, r.err)
    ensures r == Done(zero, r.err) <==> !r.more && r.value == zero
    ensures Done(zero, e1) == Done(zero, e2) <==> e1 == e2
  {
  }
}
