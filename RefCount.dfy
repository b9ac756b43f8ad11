/**
 * tRefCount (RefCount.h): a counter of outstanding references that the
 * allocator consults when it is cleared.
 */
module RefCounting {

  class RefCount {
    /** m_Count: the number of references handed out and not yet released. */
    var count: int

    constructor ()
      ensures count == 0
    {
      count := 0;
    }

    /** AddRef: one more outstanding reference. */
    method AddRef()
      modifies this`count
      ensures count == old(count) + 1
    {
      count := count + 1;
    }

    /** Count: the current number of outstanding references. */
    function Count(): (r: int)
      reads this
      ensures r == count
    {
      count
    }

    /** Release: one reference given back; there is no floor at zero. */
    method Release()
      modifies this`count
      ensures count == old(count) - 1
    {
      count := count - 1;
    }
  }
}
