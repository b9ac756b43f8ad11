/**
 * tLazyT (LazyObject.h): storage for one object whose construction is
 * delayed.  The payload is a value of type T; the ghost logs record every
 * payload ever built in the storage and every payload destroyed there, so
 * that the class invariant can say that each payload is destroyed exactly
 * once unless it is the one still alive.
 */
module LazyObject {

  class Lazy<T(0)> {
    /** m_Constructed: whether the storage currently holds a live payload. */
    var constructed: bool
    /** m_Memory: the storage; meaningful only while constructed. */
    var memory: T
    /** Every payload constructed in the storage, in construction order. */
    ghost var built: seq<T>
    /** Every payload whose destructor has run, in destruction order. */
    ghost var destroyed: seq<T>

    /**
     * Each payload built has been destroyed, in order, except the live one,
     * which is the last payload built.
     */
    ghost predicate Valid()
      reads this
    {
      built == destroyed + (if constructed then [memory] else [])
    }

    constructor ()
      ensures Valid() && !constructed
      ensures built == [] && destroyed == []
    {
      constructed := false;
      built := [];
      destroyed := [];
    }

    function IsConstructed(): (r: bool)
      reads this
      requires Valid()
      ensures r <==> |destroyed| < |built|
    {
      constructed
    }

    /** operator*: the live payload; the storage must hold one. */
    function Get(): (r: T)
      reads this
      requires Valid() && constructed
      ensures r == built[|built| - 1]
    {
      memory
    }

    /** Clear (also the destructor): destroy the live payload, if any. */
    method Clear()
      requires Valid()
      modifies this
      ensures Valid() && !constructed
      ensures built == old(built)
      ensures destroyed == old(destroyed) + (if old(constructed) then [old(memory)] else [])
    {
      if constructed {
        destroyed := destroyed + [memory];
        constructed := false;
      }
    }

    /**
     * Construct, Construct(args) and operator= (all through _Construct):
     * destroy the live payload, if any, then build payload v in the storage.
     */
    method Construct(v: T)
      requires Valid()
      modifies this
      ensures Valid() && constructed && Get() == v
      ensures built == old(built) + [v]
      ensures destroyed == old(destroyed) + (if old(constructed) then [old(memory)] else [])
    {
      Clear();
      memory := v;
      constructed := true;
      built := built + [v];
    }
  }

  /**
   * Over a whole life (construct a, reassign b, destroy) each payload's
   * destructor runs exactly once, in construction order.
   */
  method LifeCycle<T(0)>(a: T, b: T) returns (lazy: Lazy<T>)
    ensures fresh(lazy) && lazy.Valid() && !lazy.constructed
    ensures lazy.destroyed == [a, b]
  {
    lazy := new Lazy<T>();
    lazy.Construct(a);
    lazy.Construct(b);
    lazy.Clear();
  }
}
