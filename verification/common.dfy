/** Vocabulary shared by every part of the NodeCanvas kernel: the execution
    status enumeration and an optional value (the source's nullable references). */
module Common {

  /** The outcome of executing a node, a task or a connection. */
  datatype Status = Resting | Running | Success | Failure | Error

  /** A value that may be absent (`null` in the source). */
  datatype Option<T> = None | Some(value: T)

  /** No element of `s` occurs twice. */
  predicate NoDup<T(==)>(s: seq<T>) {
    forall i, j :: 0 <= i < j < |s| ==> s[i] != s[j]
  }
}
