/**
 * tPArrayT (PsyncArray.h): a fixed-capacity array laid out right after its
 * own header, with a count of how many leading elements are constructed,
 * and its pointer-like iterator.  Iterators are modelled as positions
 * relative to BeginPtr, so pointer comparison becomes comparison of
 * positions within one container.
 */
module PsyncArray {
  import opened PsyncLib

  /** A size_t converted to int32_t: the value modulo 2^32, read as signed. */
  function ToInt32(x: nat): (r: int)
    ensures -0x8000_0000 <= r <= Int32Max
    ensures (x - r) % 0x1_0000_0000 == 0
    ensures x <= Int32Max ==> r == x
  {
    var m := x % 0x1_0000_0000;
    if m <= Int32Max then m else m - 0x1_0000_0000
  }

  /**
   * The byte count PMakeArrayT asks the allocator for: the array's header
   * followed by numElements elements, computed in size_t and stored in an
   * int32_t.
   */
  function PMakeArraySize(headerSize: nat, elementSize: nat, numElements: int): (r: int)
    requires numElements > 0
    ensures -0x8000_0000 <= r <= Int32Max
    ensures headerSize + elementSize * numElements <= Int32Max ==> r == headerSize + elementSize * numElements
  {
    ToInt32(headerSize + elementSize * numElements)
  }

  /** The offset, from the array's start, one past element i. */
  function ElementEnd(headerSize: nat, elementSize: nat, i: nat): nat
  {
    headerSize + (i + 1) * elementSize
  }

  /**
   * When the total fits an int32_t, the request holds the header and then
   * every one of the numElements elements, and nothing more.
   */
  lemma {:induction false} PMakeArraySizeHoldsElements(headerSize: nat, elementSize: nat, numElements: int)
    requires numElements > 0
    requires headerSize + elementSize * numElements <= Int32Max
    ensures forall i: nat :: i < numElements ==> ElementEnd(headerSize, elementSize, i) <= PMakeArraySize(headerSize, elementSize, numElements)
    ensures PMakeArraySize(headerSize, elementSize, numElements) - headerSize == numElements * elementSize
  {
    forall i: nat | i < numElements
      ensures ElementEnd(headerSize, elementSize, i) <= PMakeArraySize(headerSize, elementSize, numElements)
    {
      assert (i + 1) * elementSize <= numElements * elementSize by {
        MulMonotone(i + 1, numElements, elementSize);
      }
    }
  }

  lemma MulMonotone(a: nat, b: nat, c: nat)
    requires a <= b
    ensures a * c <= b * c
  {
    assert b * c == a * c + (b - a) * c;
  }

  class PArray<T(0)> {
    /** m_NumElements: the capacity, fixed at construction. */
    const numElements: int
    /** m_NumConstructed: how many leading elements are constructed. */
    var numConstructed: int
    /** The element storage that follows the header. */
    const elements: array<T>

    /** Invariant (PsyncArray.h:188-200). */
    ghost predicate Valid()
      reads this
    {
      0 < numElements <= Int32Max
      && elements.Length == numElements
      && 0 <= numConstructed <= numElements
    }

    /** The constructed elements, in index order. */
    ghost function Contents(): seq<T>
      reads this, elements
      requires Valid()
    {
      elements[..numConstructed]
    }

    constructor (numElements: int)
      requires 0 < numElements <= Int32Max
      ensures Valid() && fresh(elements)
      ensures this.numElements == numElements && Contents() == []
    {
      this.numElements := numElements;
      numConstructed := 0;
      elements := new T[numElements];
    }

    /** NumReserved: the capacity. */
    function NumReserved(): (r: int)
      reads this
      requires Valid()
      ensures r == elements.Length
    {
      numElements
    }

    /** Size: the number of constructed elements. */
    function Size(): (r: int)
      reads this, elements
      requires Valid()
      ensures r == |Contents()| && r <= NumReserved()
    {
      numConstructed
    }

    /**
     * Construct and Construct(args): build v in the first unconstructed
     * slot and return that slot's index.
     */
    method Construct(v: T) returns (index: int)
      requires Valid() && numConstructed < numElements
      modifies this, elements
      ensures Valid()
      ensures index == old(Size()) && elements[index] == v
      ensures Contents() == old(Contents()) + [v]
    {
      index := numConstructed;
      elements[index] := v;
      numConstructed := numConstructed + 1;
    }

    /** operator[]: the constructed element at index. */
    function At(index: int): (r: T)
      reads this, elements
      requires Valid() && 0 <= index < numConstructed
      ensures r == Contents()[index]
    {
      elements[index]
    }

    /**
     * Clear (also the destructor): run the destructor of every constructed
     * element, walking from BeginPtr to EndPtr, then forget them.  The
     * result lists the elements in the order they were destroyed.
     */
    method Clear() returns (destroyed: seq<T>)
      requires Valid()
      modifies this
      ensures Valid() && Contents() == []
      ensures destroyed == old(Contents())
    {
      destroyed := [];
      var elem := 0;
      while elem != numConstructed
        invariant 0 <= elem <= numConstructed
        invariant destroyed == elements[..elem]
      {
        destroyed := destroyed + [elements[elem]];
        elem := elem + 1;
      }
      numConstructed := 0;
    }

    /** begin: an iterator at BeginPtr. */
    method Begin() returns (it: Iterator<T>)
      requires Valid()
      ensures fresh(it) && it.container == this && it.pos == 0
    {
      it := new Iterator(this, 0);
    }

    /** end: an iterator at EndPtr, one past the last constructed element. */
    method End() returns (it: Iterator<T>)
      requires Valid()
      ensures fresh(it) && it.container == this && it.pos == Size()
    {
      it := new Iterator(this, numConstructed);
    }
  }

  class Iterator<T(0)> {
    /** m_Container: the array iterated over. */
    const container: PArray<T>
    /** m_PItem, as an offset from the container's BeginPtr. */
    var pos: int

    constructor (container: PArray<T>, pos: int)
      ensures this.container == container && this.pos == pos
    {
      this.container := container;
      this.pos := pos;
    }

    /** operator== and operator!=: both iterators must share a container. */
    function Equals(other: Iterator<T>): (r: bool)
      reads this, other
      requires other.container == container
      ensures r <==> pos == other.pos
    {
      other.pos == pos
    }

    /** operator*: the element under the iterator, which must be constructed. */
    function Get(): (r: T)
      reads this, container, container.elements
      requires container.Valid() && 0 <= pos < container.numConstructed
      ensures r == container.Contents()[pos]
    {
      container.elements[pos]
    }

    /** Pre-increment: step forward and return a copy of the new position. */
    method Inc() returns (copy: Iterator<T>)
      modifies this
      ensures pos == old(pos) + 1
      ensures fresh(copy) && copy.container == container && copy.pos == pos
    {
      pos := pos + 1;
      copy := new Iterator(container, pos);
    }

    /** Post-increment: step forward and return a copy of the old position. */
    method PostInc() returns (copy: Iterator<T>)
      modifies this
      ensures pos == old(pos) + 1
      ensures fresh(copy) && copy.container == container && copy.pos == old(pos)
    {
      copy := new Iterator(container, pos);
      pos := pos + 1;
    }

    /** Pre-decrement. */
    method Dec() returns (copy: Iterator<T>)
      modifies this
      ensures pos == old(pos) - 1
      ensures fresh(copy) && copy.container == container && copy.pos == pos
    {
      pos := pos - 1;
      copy := new Iterator(container, pos);
    }

    /** Post-decrement. */
    method PostDec() returns (copy: Iterator<T>)
      modifies this
      ensures pos == old(pos) - 1
      ensures fresh(copy) && copy.container == container && copy.pos == old(pos)
    {
      copy := new Iterator(container, pos);
      pos := pos - 1;
    }
  }

  /**
   * The loop of the array tests: walking an iterator from begin() to end()
   * with ++ visits every constructed element exactly once, in index order.
   */
  method Traverse<T(0)>(a: PArray<T>) returns (visited: seq<T>)
    requires a.Valid()
    ensures visited == a.Contents()
  {
    var it := a.Begin();
    var last := a.End();
    visited := [];
    while !it.Equals(last)
      invariant fresh(it) && fresh(last) && it != last
      invariant it.container == a && last.container == a && last.pos == a.numConstructed
      invariant 0 <= it.pos <= a.numConstructed
      invariant visited == a.elements[..it.pos]
      decreases a.numConstructed - it.pos
    {
      visited := visited + [it.Get()];
      var _ := it.Inc();
    }
  }

  /**
   * The walk back from end() with -- visits the same elements in reverse.
   */
  method TraverseBackwards<T(0)>(a: PArray<T>) returns (visited: seq<T>)
    requires a.Valid()
    ensures |visited| == |a.Contents()|
    ensures forall i :: 0 <= i < |visited| ==> visited[i] == a.Contents()[|visited| - 1 - i]
  {
    var first := a.Begin();
    var it := a.End();
    visited := [];
    while !it.Equals(first)
      invariant fresh(it) && fresh(first) && it != first
      invariant it.container == a && first.container == a && first.pos == 0
      invariant 0 <= it.pos <= a.numConstructed
      invariant |visited| == a.numConstructed - it.pos
      invariant forall i :: 0 <= i < |visited| ==> visited[i] == a.elements[a.numConstructed - 1 - i]
      decreases it.pos
    {
      var _ := it.Dec();
      visited := visited + [it.Get()];
    }
  }
}
