/** Failure-carrying result types shared by the dashboard's workflows. */
module Wrappers {

  datatype Option<+T> = None | Some(value: T)

  datatype Result<+T, +E> = Success(value: T) | Failure(error: E)
}

/** Sequence helpers: distinctness and Python's slice rules. */
module Sequences {

  predicate Distinct<T(==)>(s: seq<T>) {
    forall i, j :: 0 <= i < j < |s| ==> s[i] != s[j]
  }

  /** A Python slice bound normalised against length `n`: a negative bound
      counts from the end, and the result is clamped into `0..n`. */
  function ClampBound(n: nat, k: int): nat {
    if k < 0 then (if n + k < 0 then 0 else n + k)
    else if k > n then n
    else k
  }

  /** A slice as Python evaluates it: never fails, and is empty when the
      normalised bounds cross. Within bounds it is Dafny's own slice. */
  function Slice<T>(s: seq<T>, start: int, stop: int): (r: seq<T>)
    ensures ClampBound(|s|, start) <= ClampBound(|s|, stop) ==>
      |r| == ClampBound(|s|, stop) - ClampBound(|s|, start)
    ensures ClampBound(|s|, stop) <= ClampBound(|s|, start) ==> r == []
    ensures forall k :: 0 <= k < |r| ==>
      ClampBound(|s|, start) + k < |s| && r[k] == s[ClampBound(|s|, start) + k]
    ensures 0 <= start <= stop <= |s| ==> r == s[start..stop]
  {
    var lo, hi := ClampBound(|s|, start), ClampBound(|s|, stop);
    if lo < hi then s[lo..hi] else []
  }
}
