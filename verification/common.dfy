/** Small shared vocabulary: optional values, fallible results, bytes. */
module Common {

  /** A value that may be absent; stands for the source's `T | null`. */
  datatype Option<+T> = None | Some(value: T)

  /** Either a value or the error an operation throws. */
  datatype Result<+R, +E> = Success(value: R) | Failure(error: E)

  /** One octet of file content. */
  newtype byte = x: int | 0 <= x < 256

  function Min(a: int, b: int): int
  {
    if a <= b then a else b
  }

  function Last<T>(s: seq<T>): T
    requires |s| > 0
  {
    s[|s| - 1]
  }

  /** Sequence concatenation is associative. */
  lemma AppendAssoc<T>(a: seq<T>, b: seq<T>, c: seq<T>)
    ensures a + b + c == a + (b + c)
  {
  }

  /** Every element is at most each later one. */
  predicate NonDecreasing(s: seq<int>)
  {
    forall i, j :: 0 <= i < j < |s| ==> s[i] <= s[j]
  }
}
