/**
 * tBlockAllocatorT (BlockAllocator.h) as an object: the two parallel
 * arrays m_Blocks and m_BlockSizes, the block count, the configured sizes
 * and the leak counter.  Ghost state ties the heap to the pool value of
 * BlockPool: chains[i] is active block i followed by the blocks reachable
 * from it through previous links, and model is what those blocks hold.
 * Every method is proved against the pool function of the same name.
 */
module BlockAllocating {
  import opened Wrappers
  import opened PsyncLib
  import opened ManagedMemoryBlock
  import opened BlockPool
  import opened RefCounting
  import opened ProxyRefCounting
  import opened BlockTables

  /** How an operation ended: normally, with std::bad_alloc from malloc, or with the leak report of Clear. */
  datatype Status = Success | BadAlloc | ResourceProblem

  class BlockAllocator {
    /** m_NumBlocks */
    var numBlocks: nat
    /** m_Blocks: the active blocks. */
    const blocks: array<MemoryBlock?>
    /** m_BlockSizes: the cached free bytes of the active blocks. */
    const blockSizes: array<int>
    /** m_InitialSize */
    const initialSize: int
    /** m_SubsequentBlockSize */
    const subsequentBlockSize: int
    /** m_RefCount: the counter proxies attach to. */
    const refCount: RefCount
    /** The chain each active block heads. */
    ghost var chains: seq<seq<MemoryBlock>>
    /** The pool the allocator holds, as a value. */
    ghost var model: Pool

    /**
     * The allocator's Invariant (BlockAllocator.h:661-691) as far as the
     * operations keep it: the pool is valid, the arrays hold its active
     * blocks and their cached sizes, and the heap links its chains.
     */
    ghost predicate Valid()
      reads this, blocks, blockSizes, Objects(chains)
    {
      && Table(blocks, blockSizes, numBlocks, chains, model)
      && model.initialSize == initialSize && model.subsequentBlockSize == subsequentBlockSize
    }

    /** The constructor: no blocks; a subsequent size of 0 means the initial size. */
    constructor (initialSize: int, subsequentBlockSize: int)
      requires MinConfiguredSize <= initialSize <= MaxConfiguredSize
      requires subsequentBlockSize == 0 || MinConfiguredSize <= subsequentBlockSize <= MaxConfiguredSize
      ensures Valid() && fresh(blocks) && fresh(blockSizes) && fresh(refCount)
      ensures model == EmptyPool(initialSize, subsequentBlockSize) && refCount.count == 0
    {
      this.initialSize := initialSize;
      this.subsequentBlockSize := if subsequentBlockSize != 0 then subsequentBlockSize else initialSize;
      numBlocks := 0;
      blocks := new MemoryBlock?[MaxNumBlocks];
      blockSizes := new int[MaxNumBlocks];
      refCount := new RefCount();
      chains := [];
      model := EmptyPool(initialSize, subsequentBlockSize);
    }

    /** NextBlockSize(): the configured size of the next block, padded. */
    function NextConfiguredBlockSize(): (r: int)
      reads this, blocks, blockSizes, Objects(chains)
      requires Valid()
      ensures r == PoolBaseBlockSize(model)
    {
      BaseBlockSize(numBlocks, initialSize, subsequentBlockSize)
    }

    /** NextBlockSize(size, alignment, managed) */
    function NextBlockSize(size: int, alignment: int, managed: bool): (r: int)
      reads this, blocks, blockSizes, Objects(chains)
      requires Valid() && 0 < size <= MaxRequest && 0 < alignment <= MaxAlignment
      ensures r == BlockPool.NextBlockSize(model, size, alignment, managed)
    {
      var minimum := MinimumBlockSize(size, alignment, managed);
      var base := NextConfiguredBlockSize();
      if minimum > base then minimum else base
    }

    /**
     * SmallestBlockIdx: scan the cached sizes, starting from the largest
     * int32_t, keeping the first index that is strictly smaller.
     */
    method SmallestBlockIdx() returns (r: int)
      requires Valid()
      ensures r == SmallestIndex(BlockSizes(model))
    {
      var smallestSize := Int32Max;
      r := -1;
      var i := 0;
      while i < numBlocks
        invariant 0 <= i <= numBlocks
        invariant r == SmallestIndex(blockSizes[..i])
        invariant r == -1 ==> smallestSize == Int32Max
        invariant r != -1 ==> smallestSize == blockSizes[r]
      {
        assert blockSizes[..i + 1][..i] == blockSizes[..i];
        assert blockSizes[i] == BlockSizes(model)[i];
        if blockSizes[i] < smallestSize {
          r := i;
          smallestSize := blockSizes[i];
        }
        i := i + 1;
      }
    }

    /**
     * The block-level half of Use: carve from active block idx and refresh
     * its cached size.  Nothing moves in the table.
     */
    method UseHead(idx: nat, size: int, alignment: int, managed: bool) returns (mem: Option<nat>)
      requires Valid() && idx < numBlocks && 0 < size <= MaxRequest && 0 < alignment <= MaxAlignment
      modifies (blocks[idx] as MemoryBlock)`ptr, blockSizes, this`model
      ensures Valid() && chains == old(chains)
      ensures mem == TryUse(old(model).chains[idx][0], size, alignment, managed).0
      ensures model == old(model).(chains := old(model).chains[idx :=
        [TryUse(old(model).chains[idx][0], size, alignment, managed).1] + old(model).chains[idx][1..]])
    {
      ghost var p0 := model;
      MirrorsSeparate(chains, model.chains);
      var b := blocks[idx];
      ghost var cs := p0.chains[idx := [TryUse(b.State(), size, alignment, managed).1] + p0.chains[idx][1..]];
      ReplaceHeadValid(p0, idx, TryUse(b.State(), size, alignment, managed).1);
      model := p0.(chains := cs);
      mem := UseInChains(b, blockSizes, idx, chains, p0.chains, size, alignment, managed);
      assert blockSizes[..numBlocks] == old(blockSizes[..numBlocks])[idx := NumBytesLeft(b.State())];
    }

    /** Retire active block idx behind its parent: the pool's Retire. */
    method RetireBlock(idx: nat)
      requires Valid() && 1 < numBlocks && idx < numBlocks
      modifies this`numBlocks, this`chains, this`model, blocks, blockSizes, Objects(chains)`previous
      ensures Valid() && Objects(chains) == old(Objects(chains))
      ensures model == old(model).(chains := Retire(old(model).chains, idx))
    {
      ghost var c0, p0 := chains, model;
      RetireTable(blocks, blockSizes, numBlocks, idx, c0, p0);
      SetTable(numBlocks - 1, Retire(c0, idx), p0.(chains := Retire(p0.chains, idx)));
    }

    /**
     * The block CreateAnotherBlock gives up: with a full table the
     * smallest, with a lone block below the cutoff that block, otherwise
     * none (-1).
     */
    method EvictionCandidate() returns (k: int)
      requires Valid()
      ensures k == EvictedIndex(model)
    {
      k := -1;
      if numBlocks == MaxNumBlocks {
        k := SmallestBlockIdx();
      } else if numBlocks == 1 {
        assert blockSizes[0] == blockSizes[..numBlocks][0];
        if blockSizes[0] < BlockCutOffPointBytes {
          k := 0;
        }
      }
    }

    /**
     * CreateAnotherBlock(nbytes): newMemory is what malloc returned (0 for
     * NULL, reported as bad_alloc with nothing changed).  A full table
     * first gives up its smallest block, a lone block below the cutoff
     * likewise; the given-up block becomes the new block's tail.
     */
    method CreateAnotherBlock(nbytes: int, newMemory: nat) returns (status: Status, ghost added: set<MemoryBlock>)
      requires Valid() && HeaderSize + PointerSize < nbytes <= Int32Max
      requires newMemory != 0 ==> AddressBag(model.chains)[newMemory] == 0
      modifies this`numBlocks, this`chains, this`model, blocks, blockSizes
      ensures Valid() && status == (if newMemory == 0 then BadAlloc else Success)
      ensures model == if newMemory == 0 then old(model) else BlockPool.CreateAnotherBlock(old(model), nbytes, newMemory)
      ensures (forall o :: o in added ==> fresh(o)) && Objects(chains) == old(Objects(chains)) + added
    {
      if newMemory == 0 {
        return BadAlloc, {};
      }
      ghost var b := InstallNewBlock(nbytes, newMemory);
      added := {b};
      status := Success;
    }

    /** CreateAnotherBlock once malloc has returned the address of the new block. */
    method InstallNewBlock(nbytes: int, newMemory: nat) returns (ghost b: MemoryBlock)
      requires Valid() && HeaderSize + PointerSize < nbytes <= Int32Max
      requires AddressBag(model.chains)[newMemory] == 0
      modifies this`numBlocks, this`chains, this`model, blocks, blockSizes
      ensures Valid() && model == BlockPool.CreateAnotherBlock(old(model), nbytes, newMemory)
      ensures fresh(b) && Objects(chains) == old(Objects(chains)) + {b}
    {
      var k := EvictionCandidate();
      ghost var p0, c0 := model, chains;
      ghost var c, q; var m;
      b, c, m, q := AddBlock(blocks, blockSizes, numBlocks, k, nbytes, newMemory, c0, p0);
      SetTable(m, c, q);
    }

    /** Record a new table: the count, and the chains and pool it holds. */
    method SetTable(n: nat, ghost c: seq<seq<MemoryBlock>>, ghost p: Pool)
      requires Table(blocks, blockSizes, n, c, p)
      requires p.initialSize == initialSize && p.subsequentBlockSize == subsequentBlockSize
      modifies this`numBlocks, this`chains, this`model
      ensures Valid() && numBlocks == n && chains == c && model == p
    {
      numBlocks, chains, model := n, c, p;
    }

    /**
     * Use: carve from active block idx; on success refresh its cached size
     * and, with more than one block active and at most the cutoff left,
     * hold on to it behind its parent and remove it from the table.
     */
    method Use(idx: nat, size: int, alignment: int, managed: bool) returns (mem: Option<nat>)
      requires Valid() && idx < numBlocks && 0 < size <= MaxRequest && 0 < alignment <= MaxAlignment
      modifies this`numBlocks, this`chains, this`model, blocks, blockSizes
      modifies Objects(chains)`ptr, Objects(chains)`previous
      ensures Valid() && Objects(chains) == old(Objects(chains))
      ensures (mem, model) == BlockPool.UseBlock(old(model), idx, size, alignment, managed)
    {
      ghost var p0 := model;
      mem := UseHead(idx, size, alignment, managed);
      if mem.Some? {
        UseBlockShape(p0, idx, size, alignment, managed);
        if 1 < numBlocks && blockSizes[idx] <= BlockCutOffPointBytes {
          RetireBlock(idx);
        }
      } else {
        assert model.chains == p0.chains;
      }
    }

    /** CreateFirstBlock: the first block, of the configured initial size, if there is none yet. */
    method CreateFirstBlock(newMemory: nat) returns (status: Status)
      requires Valid() && (newMemory != 0 ==> AddressBag(model.chains)[newMemory] == 0)
      modifies this`numBlocks, this`chains, this`model, blocks, blockSizes
      ensures Valid()
      ensures status == if old(numBlocks) == 0 && newMemory == 0 then BadAlloc else Success
      ensures model == if old(numBlocks) != 0 || newMemory == 0 then old(model)
                       else BlockPool.CreateAnotherBlock(old(model), PoolBaseBlockSize(old(model)), newMemory)
    {
      status := Success;
      if numBlocks == 0 {
        ghost var added;
        status, added := CreateAnotherBlock(NextConfiguredBlockSize(), newMemory);
      }
    }

    /**
     * ManageObjectDestruction: register obj in active block idx and
     * refresh its cached size.  The index must still name an active block.
     */
    method ManageObjectDestruction(idx: nat, obj: ObjId)
      requires Valid() && idx < numBlocks && CanRegister(model.chains[idx][0])
      modifies (blocks[idx] as MemoryBlock)`registry, blockSizes, this`model
      ensures Valid() && chains == old(chains)
      ensures model == BlockPool.ManageObjectDestruction(old(model), idx, obj)
    {
      ghost var p0 := model;
      MirrorsSeparate(chains, model.chains);
      var b := blocks[idx];
      ghost var q := BlockPool.ManageObjectDestruction(p0, idx, obj);
      assert q.chains == p0.chains[idx := [Registered(b.State(), obj)] + p0.chains[idx][1..]];
      ReplaceHeadValid(p0, idx, Registered(b.State(), obj));
      model := q;
      RegisterInChains(b, blockSizes, idx, chains, p0.chains, obj);
      assert blockSizes[..numBlocks] == old(blockSizes[..numBlocks])[idx := NumBytesLeft(b.State())];
    }

    /**
     * The leak-detecting allocator's ManageObjectDestruction: as above, and
     * the object's proxy takes a reference on the allocator's counter.
     */
    method ManageRefCountedObjectDestruction(idx: nat, obj: ObjId, proxy: ProxyRefCounter)
      requires Valid() && idx < numBlocks && CanRegister(model.chains[idx][0])
      modifies (blocks[idx] as MemoryBlock)`registry, blockSizes, this`model, proxy`obj, refCount`count
      ensures Valid() && chains == old(chains)
      ensures model == BlockPool.ManageObjectDestruction(old(model), idx, obj)
      ensures proxy.obj == refCount && refCount.count == old(refCount.count) + 1
      ensures PoolRegistries(model.chains) == PoolRegistries(old(model).chains) + multiset{obj}
    {
      RegisterAddsObject(model, idx, obj);
      ManageObjectDestruction(idx, obj);
      label Registered:
      proxy.SetObject(refCount);
      ValidKept@Registered();
    }

    /** Valid() depends only on the allocator, its tables and its blocks. */
    twostate lemma ValidKept()
      requires old(Valid()) && unchanged(this, blocks, blockSizes) && unchanged(Objects(chains))
      ensures Valid()
    {
    }

    /**
     * Clear (also the destructor): delete every active block with its
     * chain, active index 0 first, then forget them all.  Destroying a
     * ref-counted object destroys its proxy part, which gives its reference
     * back; proxies maps such an object to that part.  A counter that is
     * not back at zero after the teardown is reported as a resource problem.
     */
    method Clear(proxies: map<ObjId, ProxyRefCounter>) returns (status: Status, trace: seq<Event>)
      requires Valid() && Attached(proxies, refCount)
      modifies this`numBlocks, this`chains, this`model, Objects(chains)`registry, proxies.Values, refCount
      ensures Valid() && model == old(model).(chains := []) && numBlocks == 0
      ensures trace == PoolTeardown(old(model).chains)
      ensures Released(proxies.Keys, trace) == set o | o in proxies && o in PoolRegistries(old(model).chains)
      ensures refCount.count == old(refCount.count) - |Released(proxies.Keys, trace)|
      ensures forall o :: o in proxies ==> proxies[o].obj == if o in Released(proxies.Keys, trace) then null else refCount
      ensures (forall o :: o in proxies ==> o in PoolRegistries(old(model).chains)) ==>
                refCount.count == old(refCount.count) - |proxies|
      ensures status == if refCount.count != 0 then ResourceProblem else Success
    {
      ghost var cs := model.chains;
      trace := DeleteBlocks();
      label TornDown:
      ReleaseProxies(trace, proxies, refCount);
      ValidKept@TornDown();
      ReleasedRegistered(proxies.Keys, cs);
      status := if refCount.Count() != 0 then ResourceProblem else Success;
    }

    /** Clear's loop: DeleteBlock on every active index, then no blocks are left. */
    method DeleteBlocks() returns (trace: seq<Event>)
      requires Valid()
      modifies this`numBlocks, this`chains, this`model, Objects(chains)`registry
      ensures Valid() && model == old(model).(chains := []) && numBlocks == 0
      ensures trace == PoolTeardown(old(model).chains)
    {
      trace := DeleteAll(blocks, numBlocks, chains, model.chains);
      EmptyTable(blocks, blockSizes, model);
      SetTable(0, [], model.(chains := []));
    }

    /**
     * One step of _Allocate's loop: block idx is tried only when its cached
     * size covers the request plus its slot.
     */
    method TryBlock(idx: nat, size: int, alignment: int, managed: bool) returns (mem: Option<nat>)
      requires Valid() && idx < numBlocks && 0 < size <= MaxRequest && 0 < alignment <= MaxAlignment
      modifies this`numBlocks, this`chains, this`model, blocks, blockSizes
      modifies Objects(chains)`ptr, Objects(chains)`previous
      ensures Valid() && Objects(chains) == old(Objects(chains))
      ensures mem.None? ==> model == old(model) && Scan(model, idx + 1, size, alignment, managed) == Scan(model, idx, size, alignment, managed)
      ensures mem.Some? ==> (Scan(old(model), idx, size, alignment, managed) == Some(idx)
        && (mem, model) == UseBlock(old(model), idx, size, alignment, managed))
    {
      mem := None;
      assert blockSizes[idx] == blockSizes[..numBlocks][idx];
      if blockSizes[idx] >= size + ManagedOverhead(managed) {
        mem := Use(idx, size, alignment, managed);
      }
    }

    /**
     * The first-fit loop of _Allocate: try the active blocks in index
     * order until one serves the request.
     */
    method ScanBlocks(managed: bool, size: int, alignment: int) returns (mem: Option<nat>, blockIdx: nat)
      requires Valid() && 0 < size <= MaxRequest && 0 < alignment <= MaxAlignment
      modifies this`numBlocks, this`chains, this`model, blocks, blockSizes
      modifies Objects(chains)`ptr, Objects(chains)`previous
      ensures Valid() && Objects(chains) == old(Objects(chains))
      ensures mem.None? ==> model == old(model) && Scan(model, 0, size, alignment, managed).None?
      ensures mem.Some? ==> (Scan(old(model), 0, size, alignment, managed) == Some(blockIdx)
        && (mem, model) == UseBlock(old(model), blockIdx, size, alignment, managed))
    {
      ghost var p1 := model;
      mem, blockIdx := None, 0;
      while blockIdx < numBlocks
        invariant Valid() && model == p1 && Objects(chains) == old(Objects(chains)) && blockIdx <= |p1.chains| && mem.None?
        invariant Scan(p1, blockIdx, size, alignment, managed) == Scan(p1, 0, size, alignment, managed)
        decreases |p1.chains| - blockIdx
      {
        mem := TryBlock(blockIdx, size, alignment, managed);
        if mem.Some? {
          return;
        }
        blockIdx := blockIdx + 1;
      }
    }

    /** The start of _Allocate: the first block, sized for the request, when there is none. */
    method EnsureFirstBlock(managed: bool, size: int, alignment: int, newMemory: nat)
      returns (status: Status, ghost added: set<MemoryBlock>)
      requires Valid() && 0 < size <= MaxRequest && 0 < alignment <= MaxAlignment
      requires newMemory != 0 ==> AddressBag(model.chains)[newMemory] == 0
      modifies this`numBlocks, this`chains, this`model, blocks, blockSizes
      ensures Valid() && fresh(added) && Objects(chains) == old(Objects(chains)) + added
      ensures status == (if old(numBlocks) == 0 && newMemory == 0 then BadAlloc else Success)
      ensures status == BadAlloc ==> model == old(model)
      ensures status == Success ==> model == ScannedPool(old(model), managed, size, alignment, newMemory)
      ensures status == Success && old(numBlocks) == 0 ==> Scan(model, 0, size, alignment, managed).Some?
    {
      status, added := Success, {};
      if numBlocks == 0 {
        ghost var p0 := model;
        status, added := CreateAnotherBlock(NextBlockSize(size, alignment, managed), newMemory);
        if status == Success {
          FirstBlockServes(p0, managed, size, alignment, newMemory);
        }
      }
    }

    /** The end of _Allocate: a block big enough for the request, used at once. */
    method AllocateInNewBlock(managed: bool, size: int, alignment: int, newMemory: nat)
      returns (status: Status, mem: Option<nat>, blockIdx: nat)
      requires Valid() && 0 < size <= MaxRequest && 0 < alignment <= MaxAlignment
      requires newMemory != 0 ==> AddressBag(model.chains)[newMemory] == 0
      modifies this`numBlocks, this`chains, this`model, blocks, blockSizes
      modifies Objects(chains)`ptr, Objects(chains)`previous
      ensures Valid()
      ensures status == (if newMemory == 0 then BadAlloc else Success)
      ensures status == BadAlloc ==> model == old(model)
      ensures status == Success ==>
        var p3 := BlockPool.CreateAnotherBlock(old(model), BlockPool.NextBlockSize(old(model), size, alignment, managed), newMemory);
        blockIdx == |p3.chains| - 1 && (mem, model) == UseBlock(p3, blockIdx, size, alignment, managed)
    {
      mem, blockIdx := None, 0;
      ghost var added;
      status, added := CreateAnotherBlock(NextBlockSize(size, alignment, managed), newMemory);
      if status == Success {
        blockIdx := numBlocks - 1;
        mem := Use(blockIdx, size, alignment, managed);
      }
    }

    /**
     * _Allocate once there is a block: scan the active blocks; if none
     * serves the request, create a block big enough and use that.
     */
    method AllocateFromBlocks(managed: bool, size: int, alignment: int, newMemory: nat)
      returns (status: Status, mem: Option<nat>, blockIdx: nat)
      requires Valid() && 0 < size <= MaxRequest && 0 < alignment <= MaxAlignment
      requires newMemory != 0 && Scan(model, 0, size, alignment, managed).None? ==> AddressBag(model.chains)[newMemory] == 0
      modifies this`numBlocks, this`chains, this`model, blocks, blockSizes
      modifies Objects(chains)`ptr, Objects(chains)`previous
      ensures Valid()
      ensures var r := AllocateFrom(old(model), managed, size, alignment, newMemory);
        if r.OutOfMemory? then status == BadAlloc && model == old(model)
        else status == Success && mem == r.mem && blockIdx == r.blockIdx && model == r.pool
    {
      status := Success;
      mem, blockIdx := ScanBlocks(managed, size, alignment);
      if mem.None? {
        status, mem, blockIdx := AllocateInNewBlock(managed, size, alignment, newMemory);
      }
    }

    /**
     * _Allocate(manage, size, alignment, blockidx): newMemory is what malloc
     * returns if a block has to be created.  Create the first block if
     * there is none, then allocate from the blocks.  The index returned is
     * the one used, which Use may have just retired.
     */
    method Allocate(managed: bool, size: int, alignment: int, newMemory: nat)
      returns (status: Status, mem: Option<nat>, blockIdx: nat)
      requires Valid() && 0 < size <= MaxRequest && 0 < alignment <= MaxAlignment
      requires newMemory != 0 ==> AddressBag(model.chains)[newMemory] == 0
      modifies this`numBlocks, this`chains, this`model, blocks, blockSizes
      modifies Objects(chains)`ptr, Objects(chains)`previous
      ensures Valid()
      ensures var r := BlockPool.Allocate(old(model), managed, size, alignment, newMemory);
        if r.OutOfMemory? then status == BadAlloc && model == old(model)
        else status == Success && mem == r.mem && blockIdx == r.blockIdx && model == r.pool
    {
      mem, blockIdx := None, 0;
      ghost var added;
      status, added := EnsureFirstBlock(managed, size, alignment, newMemory);
      if status == Success {
        status, mem, blockIdx := AllocateFromBlocks(managed, size, alignment, newMemory);
      }
    }
  }

  /**
   * The proxy parts of ref-counted managed objects, by object: each holds
   * its reference on counter, and no two objects share one.
   */
  ghost predicate Attached(proxies: map<ObjId, ProxyRefCounter>, counter: RefCount)
    reads proxies.Values
  {
    && (forall o :: o in proxies ==> proxies[o].obj == counter)
    && (forall o, o' :: o in proxies && o' in proxies && o != o' ==> proxies[o] != proxies[o'])
  }

  /** A single proxy attached to counter is an attached proxy table of one. */
  lemma OneAttached(obj: ObjId, proxy: ProxyRefCounter, counter: RefCount)
    requires proxy.obj == counter
    ensures Attached(map[obj := proxy], counter) && map[obj := proxy].Values == {proxy} && |map[obj := proxy]| == 1
  {
    assert map[obj := proxy].Keys == {obj};
  }

  /** The objects among objs whose destructor the trace runs. */
  function Released(objs: set<ObjId>, trace: seq<Event>): set<ObjId>
  {
    set o | o in objs && Destructed(o) in trace
  }

  /** Clear's teardown destroys exactly the objects among objs that the pool has registered. */
  lemma ReleasedRegistered(objs: set<ObjId>, cs: seq<seq<BlockState>>)
    ensures Released(objs, PoolTeardown(cs)) == set o | o in objs && o in PoolRegistries(cs)
    ensures (forall o :: o in objs ==> o in PoolRegistries(cs)) ==> Released(objs, PoolTeardown(cs)) == objs
  {
    TeardownDestroysRegistered(cs);
    forall o | o in objs
      ensures o in Released(objs, PoolTeardown(cs)) <==> o in PoolRegistries(cs)
    {
      DestroyedBagHas(PoolTeardown(cs), o);
    }
  }

  /** One more event releases at most the object it destructs. */
  lemma ReleasedSnoc(objs: set<ObjId>, trace: seq<Event>, i: nat)
    requires i < |trace|
    ensures Released(objs, trace[..i + 1]) ==
      Released(objs, trace[..i]) + if trace[i].Destructed? && trace[i].obj in objs then {trace[i].obj} else {}
  {
    assert trace[..i + 1] == trace[..i] + [trace[i]];
  }

  /**
   * The proxies' destructors as the trace's destructor calls reach them:
   * the first destruction of an object destroys its proxy, which releases
   * the counter once; a later one finds the proxy detached.
   */
  method ReleaseProxies(trace: seq<Event>, proxies: map<ObjId, ProxyRefCounter>, counter: RefCount)
    requires Attached(proxies, counter)
    modifies proxies.Values, counter
    ensures counter.count == old(counter.count) - |Released(proxies.Keys, trace)|
    ensures forall o :: o in proxies ==> proxies[o].obj == if o in Released(proxies.Keys, trace) then null else counter
  {
    var i := 0;
    while i < |trace|
      invariant 0 <= i <= |trace|
      invariant counter.count == old(counter.count) - |Released(proxies.Keys, trace[..i])|
      invariant forall o :: o in proxies ==> proxies[o].obj == if o in Released(proxies.Keys, trace[..i]) then null else counter
    {
      ghost var before := Released(proxies.Keys, trace[..i]);
      ReleasedSnoc(proxies.Keys, trace, i);
      if trace[i].Destructed? && trace[i].obj in proxies {
        var o := trace[i].obj;
        ghost var c0 := counter.count;
        if o !in before {
          assert |before + {o}| == |before| + 1;
          assert proxies[o].obj == counter;
        } else {
          assert before + {o} == before;
          assert proxies[o].obj == null;
        }
        proxies[o].Destroy();
        assert counter.count == c0 - if o in before then 0 else 1;
      }
      i := i + 1;
    }
    assert trace[..i] == trace;
  }

  /**
   * Clear with one ref-counted object, registered in the pool: its proxy
   * gives its reference back during the teardown.
   */
  method ClearOne(a: BlockAllocator, obj: ObjId, proxy: ProxyRefCounter) returns (status: Status, trace: seq<Event>)
    requires a.Valid() && proxy.obj == a.refCount && obj in PoolRegistries(a.model.chains)
    modifies a`numBlocks, a`chains, a`model, Objects(a.chains)`registry, proxy, a.refCount
    ensures a.refCount.count == old(a.refCount.count) - 1 && proxy.obj == null
    ensures status == if a.refCount.count != 0 then ResourceProblem else Success
  {
    var proxies := map[obj := proxy];
    OneAttached(obj, proxy, a.refCount);
    status, trace := a.Clear(proxies);
  }

  /**
   * A ref-counted registration followed by Clear balances: the proxy's
   * reference goes back when the teardown destroys its object, so the
   * counter ends where it started and an allocator that had no
   * outstanding references reports no leak.
   */
  method RegisterRefCountedThenClear(a: BlockAllocator, idx: nat, obj: ObjId, proxy: ProxyRefCounter)
    returns (status: Status, trace: seq<Event>)
    requires a.Valid() && idx < a.numBlocks && CanRegister(a.model.chains[idx][0])
    modifies a`numBlocks, a`chains, a`model, a.blockSizes, Objects(a.chains)`registry, proxy, a.refCount
    ensures proxy.obj == null && a.refCount.count == old(a.refCount.count)
    ensures status == if old(a.refCount.count) != 0 then ResourceProblem else Success
  {
    a.ManageRefCountedObjectDestruction(idx, obj, proxy);
    status, trace := ClearOne(a, obj, proxy);
  }
}
