/**
  The optional value used for nullable indices (a node's parent, its path
  position), and a fact about sequences several modules rely on.
 */
module Options {

  datatype Option<T> = None | Some(value: T)

  /** Concatenation is associative. */
  lemma AppendAssoc<T>(a: seq<T>, b: seq<T>, c: seq<T>)
    ensures a + (b + c) == (a + b) + c
  {
  }
}
