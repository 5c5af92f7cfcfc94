/** Python's sequence slicing and `str.startswith`, exactly as the interpreter
    evaluates them on strings: slice bounds may be negative (counted from the
    end) and are clamped into the sequence, and an empty range yields `''`. */
module PySlice {

  /** Where a Python slice bound `i` lands in a sequence of length `n`. */
  function Bound(i: int, n: nat): (b: nat)
    ensures b <= n
  {
    if i < 0 then (if n + i < 0 then 0 else n + i)
    else if i > n then n
    else i
  }

  /** Python's `s[i:j]`. */
  function Slice<T>(s: seq<T>, i: int, j: int): (r: seq<T>)
    ensures |r| == (if Bound(i, |s|) < Bound(j, |s|) then Bound(j, |s|) - Bound(i, |s|) else 0)
    ensures forall k :: 0 <= k < |r| ==> r[k] == s[Bound(i, |s|) + k]
  {
    var lo := Bound(i, |s|);
    var hi := Bound(j, |s|);
    if lo < hi then s[lo..hi] else []
  }

  /** Python's `s[i:]`. */
  function SliceFrom<T>(s: seq<T>, i: int): seq<T>
  {
    Slice(s, i, |s|)
  }

  /** Python's `s.startswith(p)`. */
  predicate StartsWith<T(==)>(s: seq<T>, p: seq<T>)
  {
    |p| <= |s| && s[..|p|] == p
  }

  /** Bounds already inside the sequence slice as Dafny does. */
  lemma SliceInRange<T>(s: seq<T>, i: int, j: int)
    requires 0 <= i <= j <= |s|
    ensures Slice(s, i, j) == s[i..j]
  {
  }

  /** A negative stop `-m` counts `m` elements back from the end, and a
      stop further back than the start yields the empty sequence. */
  lemma SliceNegativeStop<T>(s: seq<T>, i: int, m: int)
    requires 0 <= i && 0 < m
    ensures i <= |s| - m ==> Slice(s, i, -m) == s[i..|s| - m]
    ensures i >= |s| - m ==> Slice(s, i, -m) == []
  {
  }

  /** `s[i:]` is the suffix from `i`, and empty once `i` passes the end. */
  lemma SliceFromSuffix<T>(s: seq<T>, i: int)
    requires 0 <= i
    ensures i <= |s| ==> SliceFrom(s, i) == s[i..]
    ensures i > |s| ==> SliceFrom(s, i) == []
  {
  }
}
