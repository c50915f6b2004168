/** Optional values, used where the source returns a flag plus an out-parameter
    or where a component may be absent from an entity, and sequences without repeats. */
module Wrappers {

  datatype Option<+T> = None | Some(value: T)

  /** No element occurs twice. */
  predicate NoDup<T(==)>(s: seq<T>) {
    forall i, j :: 0 <= i < j < |s| ==> s[i] != s[j]
  }
}
