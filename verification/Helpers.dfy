/** Small definitions that several components share. */
module Helpers {
  datatype Option<T> = None | Some(value: T)

  /** s has no element twice. */
  ghost predicate Distinct<T>(s: seq<T>) {
    forall i, j :: 0 <= i < j < |s| ==> s[i] != s[j]
  }
}
