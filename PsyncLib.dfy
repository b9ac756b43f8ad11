/**
 * The array helper of PsyncLib.h: ShiftLeft moves the elements
 * [from, arraySize) of an array one place towards the front with a single
 * memmove, overwriting the element at index from - 1.
 */
module PsyncLib {

  /** The largest int32_t, the width of every size the library stores. */
  const Int32Max: int := 0x7FFF_FFFF

  /** The sequence s without its element at index i. */
  function RemoveAt<T>(s: seq<T>, i: nat): (r: seq<T>)
    requires i < |s|
    ensures |r| == |s| - 1
    ensures forall k :: 0 <= k < i ==> r[k] == s[k]
    ensures forall k :: i <= k < |r| ==> r[k] == s[k + 1]
  {
    assert s == s[..i] + [s[i]] + s[i + 1..];
    s[..i] + s[i + 1..]
  }

  /**
   * The contents of an array after ShiftLeft(a, arraySize, from): the
   * elements below from - 1 and from arraySize - 1 on are untouched, every
   * other slot holds its right-hand neighbour.
   */
  function ShiftedLeft<T>(s: seq<T>, arraySize: nat, from: nat): (r: seq<T>)
    requires 1 <= from < arraySize <= |s|
    ensures |r| == |s|
    ensures forall k :: 0 <= k < from - 1 ==> r[k] == s[k]
    ensures forall k :: from - 1 <= k < arraySize - 1 ==> r[k] == s[k + 1]
    ensures forall k :: arraySize - 1 <= k < |s| ==> r[k] == s[k]
  {
    s[..from - 1] + s[from..arraySize] + s[arraySize - 1..]
  }

  /**
   * Shifting left from index i + 1 deletes element i of the first
   * arraySize entries: this is how the allocator compacts its tables.
   */
  lemma ShiftedLeftRemoves<T>(s: seq<T>, arraySize: nat, i: nat)
    requires i + 1 < arraySize <= |s|
    ensures ShiftedLeft(s, arraySize, i + 1)[..arraySize - 1] == RemoveAt(s[..arraySize], i)
  {
  }

  /** ShiftLeft: memmove of a[from..arraySize) onto a[from - 1..arraySize - 1). */
  method ShiftLeft<T>(a: array<T>, arraySize: nat, from: nat)
    requires 1 <= from < arraySize <= a.Length
    modifies a
    ensures a[..] == ShiftedLeft(old(a[..]), arraySize, from)
  {
    forall k | from - 1 <= k < arraySize - 1 {
      a[k] := a[k + 1];
    }
  }
}
