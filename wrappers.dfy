/** The optional value used wherever the source has a nullable reference or a `bool?`. */
module Wrappers {

  datatype Option<+T> = None | Some(value: T)

  /** Regrouping a concatenation, stated once so that loop steps can cite it. */
  lemma AppendAssociative<T>(a: seq<T>, b: seq<T>, c: seq<T>)
    ensures (a + b) + c == a + (b + c)
  {
  }

}
