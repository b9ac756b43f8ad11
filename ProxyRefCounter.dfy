/**
 * tProxyRefCounterT (ProxyRefCounter.h): a base part of managed objects
 * that holds one reference on a counter from the moment it is attached
 * until the object is destroyed.
 */
module ProxyRefCounting {
  import opened RefCounting

  class ProxyRefCounter {
    /** m_Object: the counter this proxy holds a reference on, or NULL. */
    var obj: RefCount?

    constructor ()
      ensures obj == null
    {
      obj := null;
    }

    /**
     * ProxyRefCounterSetObject: attach to counter c and take a reference on
     * it.  A counter attached earlier is overwritten without being released.
     */
    method SetObject(c: RefCount)
      modifies this`obj, c`count
      ensures obj == c
      ensures c.count == old(c.count) + 1
    {
      obj := c;
      obj.AddRef();
    }

    /** The destructor: give the reference back, if one is held. */
    method Destroy()
      modifies this, obj
      ensures obj == null
      ensures old(obj) != null ==> old(obj).count == old(obj.count) - 1
    {
      if obj != null {
        obj.Release();
        obj := null;
      }
    }
  }

  /**
   * A proxy that is attached once and then destroyed leaves the counter
   * where it was: every reference a proxy takes it also gives back.
   */
  method AttachThenDestroy(c: RefCount) returns (proxy: ProxyRefCounter)
    modifies c
    ensures fresh(proxy) && proxy.obj == null
    ensures c.count == old(c.count)
  {
    proxy := new ProxyRefCounter();
    proxy.SetObject(c);
    assert c.count == old(c.count) + 1;
    proxy.Destroy();
  }

  /**
   * Attaching twice takes two references but the destructor gives back
   * only one: the counter ends one above where it started.
   */
  method AttachTwiceThenDestroy(c: RefCount) returns (proxy: ProxyRefCounter)
    modifies c
    ensures fresh(proxy) && proxy.obj == null
    ensures c.count == old(c.count) + 1
  {
    proxy := new ProxyRefCounter();
    proxy.SetObject(c);
    proxy.SetObject(c);
    proxy.Destroy();
  }
}
