/** Result types shared by every module, and the size of a subset. */
module Prelude {

  /** A value or nothing, for Go's `value, ok` results. */
  datatype Option<+T> = None | Some(value: T)

  /** A value or an error, for Go's `value, err` results. */
  datatype Result<+T, +E> = Ok(value: T) | Err(error: E)

  lemma SubsetIsSmaller<T>(a: set<T>, b: set<T>)
    requires a <= b
    ensures |a| <= |b| && (|a| == |b| ==> a == b)
  {
    assert b == a + (b - a);
    assert |b| == |a| + |b - a|;
  }
}
