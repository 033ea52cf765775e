/** Result and option types shared by every module. */
module Wrappers {
  datatype Option<+T> = None | Some(value: T)

  datatype Result<+T, +E> = Success(value: T) | Failure(error: E) {
    predicate IsFailure() {
      Failure?
    }

    function PropagateFailure<U>(): (r: Result<U, E>)
      requires Failure?
    {
      Failure(error)
    }

    function Extract(): T
      requires Success?
    {
      value
    }
  }

  /** No element occurs twice. */
  ghost predicate Distinct<T>(s: seq<T>) {
    forall i, j :: 0 <= i < j < |s| ==> s[i] != s[j]
  }

  /** A sequence without its element at `k`. */
  function Without<T>(s: seq<T>, k: nat): seq<T>
    requires k < |s|
  {
    s[..k] + s[k + 1..]
  }

  /** `s` with the elements from position `i` on replaced by `part`. */
  function WriteSlice<T>(s: seq<T>, i: nat, part: seq<T>): (r: seq<T>)
    requires i + |part| <= |s|
    ensures |r| == |s|
    ensures forall j :: 0 <= j < |s| ==> r[j] == if i <= j < i + |part| then part[j - i] else s[j]
  {
    s[..i] + part + s[i + |part|..]
  }
}
