/** A value that may be missing, and lists without repetition. */
module Wrappers {

  datatype Option<T> = None | Some(value: T)

  ghost predicate Distinct<T>(s: seq<T>) {
    forall m, n | 0 <= m < n < |s| :: s[m] != s[n]
  }
}
