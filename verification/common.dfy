/** Small general-purpose definitions shared by every module: an optional
    value and the "no repeats" property of a sequence. */
module Common {

  datatype Option<+T> = None | Some(value: T)

  /** No element occurs twice. */
  predicate Distinct<T(==)>(s: seq<T>) {
    forall i, j :: 0 <= i < j < |s| ==> s[i] != s[j]
  }
}
