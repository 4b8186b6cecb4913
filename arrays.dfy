/** The JavaScript array updates the reducer performs on the roster:
    `splice(start, 1)` and an index assignment `a[index] = v`. */
module Arrays {

  /** Where `splice(start, …)` begins on an array of length `len`: a negative
      start counts from the end and is clamped at 0, a start past the end is
      clamped at the length. */
  function SpliceStart(len: nat, start: int): (k: nat)
    ensures k <= len
  {
    if start < 0 then (if len + start < 0 then 0 else len + start)
    else if start > len then len
    else start
  }

  /** `a.splice(start, 1)` on a copy of `a`: the array without the element at
      the normalised start, if there is one. */
  function RemoveAt<T>(a: seq<T>, start: int): (r: seq<T>)
    ensures 0 <= start < |a| ==> |r| == |a| - 1
    ensures 0 <= start < |a| ==> forall i :: 0 <= i < start ==> r[i] == a[i]
    ensures 0 <= start < |a| ==> forall i :: start <= i < |r| ==> r[i] == a[i + 1]
    ensures |a| <= start ==> r == a
    ensures -|a| <= start < 0 ==> r == a[..|a| + start] + a[|a| + start + 1..]
    ensures start < -|a| ==> r == (if a == [] then a else a[1..])
  {
    var k := SpliceStart(|a|, start);
    if k < |a| then a[..k] + a[k + 1..] else a
  }

  /** `a[index] = v` on a copy of `a`, for an index no larger than the length:
      an index inside the array replaces that element, the index equal to the
      length appends, and a negative index only sets a named property, which
      leaves the elements as they were. */
  function Assign<T>(a: seq<T>, index: int, v: T): (r: seq<T>)
    requires index <= |a|
    ensures 0 <= index < |a| ==> |r| == |a| && r[index] == v
    ensures 0 <= index < |a| ==> forall i :: 0 <= i < |a| && i != index ==> r[i] == a[i]
    ensures index == |a| ==> r == a + [v]
    ensures index < 0 ==> r == a
  {
    if index < 0 then a
    else if index == |a| then a + [v]
    else a[index := v]
  }
}
