# Block allocator: a Dafny model

This project models the engine of a block ("arena") allocator for C++
objects. It has two layers.

- `tManagedMemoryBlockT` is one buffer obtained from `malloc`. It starts
  with its own header. Raw requests are carved from the front by bumping a
  cursor. Objects whose destruction the block manages get a pointer-sized
  slot taken from the back. A `previous` link lets one block keep older,
  retired blocks alive behind it: its tail chain.
- `tBlockAllocatorT` keeps up to four active blocks in two parallel arrays:
  the blocks, and their cached free bytes. It serves a request from the
  first active block that takes it. Otherwise it creates a block big enough.
  A full table first gives up its smallest block, which becomes the new
  block's tail. After a request leaves a block with 64 bytes or fewer, and
  more than one block is active, that block is retired behind a neighbour.
  No block is freed before `Clear`. `Clear` tears down every chain and
  reports a leak when the reference counter is not back at zero.

The model also covers the helpers the allocator uses:

- `ShiftLeft`, the in-place array shift.
- `tPArrayT`, a fixed-capacity array, and its iterator.
- `tLazyT`, storage for an object whose construction is delayed.
- `tRefCount`, the leak counter.
- `tProxyRefCounterT`, a managed object's hold on that counter.

## How the model is built

Each module mirrors one header.

- `ManagedMemoryBlock`: ManagedMemoryBlock.h.
- `BlockPool`, `BlockTables` and `BlockAllocating`: BlockAllocator.h.
- `PsyncLib`: PsyncLib.h.
- `PsyncArray`: PsyncArray.h.
- `LazyObject`: LazyObject.h.
- `RefCounting`: RefCount.h.
- `ProxyRefCounting`: ProxyRefCounter.h.

`Scenarios` replays the allocator's use-up-all-blocks unit test on the pool
value. It also holds the concrete runs described below.

**Addresses.** Addresses are natural numbers. A managed object is named by
its address, an `ObjId`.

**Blocks.** A block is a class, `MemoryBlock`, whose `ptr`, `registry` and
`previous` fields change in place. Its state as a value is `BlockState`.
Each method is proved against a function of that value: `TryUse`,
`Registered` or `Emptied`.

**The pool.** The allocator is also a class, `BlockAllocator`. Its
`m_Blocks` and `m_BlockSizes` arrays are Dafny arrays. Two ghost fields
describe the heap behind them:

- `chains[i]` is active block `i` followed by the blocks its `previous`
  links reach.
- `model` is a `Pool` value: the states those blocks hold.

The invariant `Valid()` says:

- the heap links every chain as listed;
- the blocks hold `model`;
- the arrays hold the chain heads and their `NumBytesLeft`;
- no block is reachable twice (`DistinctAddresses`).

Every allocator method is proved against the `BlockPool` function of the
same name: `UseBlock`, `CreateAnotherBlock`, `Allocate`,
`ManageObjectDestruction` and `PoolTeardown`. The properties the code
promises are then proved about those functions.

**Side effects.**

- Destructors and calls to `free` become a returned trace of `Event`s:
  `Destructed(obj)` and `Freed(address)`.
- A ref-counted managed object holds its reference through its
  `tProxyRefCounterT` part. `Clear` takes those parts as a map from object
  to proxy. Each proxy whose object the trace destructs is destroyed, which
  releases the counter once. The leak verdict is read from the counter
  after those releases, as the destructor order in the source has it.
- `malloc` becomes a parameter, `newMemory`. It is the address `malloc`
  returned, with `0` standing for NULL. A NULL result becomes the status
  `BadAlloc`, and nothing changes: the code throws `std::bad_alloc` before
  touching any state.

**Behaviours a reader might not expect.** The model follows the code in
each of them.

- Destructors run in registration order, oldest first.
  The first object registered sits in the last slot, and
  `DestroyManagedObjects` walks the slots downwards
  (ManagedMemoryBlock.h:197, 213-220).
- A block's destructor does not destroy its tail. `DeleteBlock` walks the
  chain instead (BlockAllocator.h:203-216).
- A lone block is given up when a second one is created only if it has
  fewer than 64 bytes left (BlockAllocator.h:620-622). A block with
  exactly 64 bytes left stays active.
- The pad a block adds before an object is the cursor's remainder modulo
  the alignment, and the block size's remainder modulo the pointer size.
  That is the distance back to the previous multiple, so the address
  handed out is aligned only when the remainder is 0 or half the
  alignment. `UseAlignedIff` and `PaddedBlocksizeAlignedIff` prove this
  exact condition. `MisalignedUse` gives an input where the assertion at
  ManagedMemoryBlock.h:288 fails.
- The stated invariant says every cached size exceeds the 64-byte cutoff
  while more than one block is active (BlockAllocator.h:671-676). The
  operations do not keep it:
  - `LoneBlockAtCutoff`: a lone block with exactly 64 bytes left stays
    active when a second block is created.
  - `RegistrationBelowCutoff`: a managed request passes `Use`'s cutoff
    check with 68 bytes left. Registering the object's slot then takes
    the block to 60 bytes.

  The model proves instead that allocation, managed or not, keeps the
  weaker clause `AtLeastCutoff`: no active block below the cutoff. What
  breaks even that clause is the registration of a managed object, as
  `RegistrationBelowCutoff` shows.
- The block index `_Allocate` returns can be stale. `StaleBlockIndex`
  shows a request whose new block is retired at once, so the index
  returned is no longer an active index. `AllocateIndexOrRetired` states
  what does hold: the index names the block the memory came from, or that
  block has been retired onto a chain.

## Model

| member | source | states |
|---|---|---|
| ManagedMemoryBlock.NumBytesLeft | ManagedMemoryBlock.h:174-181 | The free gap between the cursor and the slots is never negative and stays below the int32_t maximum. |
| ManagedMemoryBlock.Invariant | ManagedMemoryBlock.h:226-261 | A block's own invariant: the cursor lies between the buffer's start and the slots, the allocatable area is non-empty, the first slot lies past the start, and the block size fits an int32_t. |
| ManagedMemoryBlock.EnoughSpace | ManagedMemoryBlock.h:263-272 | A request fits when pad + size, plus one slot if managed, is at most the bytes left. |
| ManagedMemoryBlock.CanRegister | ManagedMemoryBlock.h:192-201 | The block has room for one more slot without the slot crossing the cursor or the buffer's start. |
| ManagedMemoryBlock.BeginBytePtr | ManagedMemoryBlock.h:146-151 | The first byte after the block's header. |
| ManagedMemoryBlock.EndAllocatableBytePtr | ManagedMemoryBlock.h:165-172 | The end of the area still open to raw allocation: the buffer's end less one pointer per registered object. |
| ManagedMemoryBlock.FirstManagedSlot | ManagedMemoryBlock.h:131-138 | PFirstManagedObject: the last pointer-sized slot before the buffer's end. |
| ManagedMemoryBlock.SlotAddress | ManagedMemoryBlock.h:192-199 | The slot of the i-th registered object, counted down one pointer at a time from the first slot. |
| ManagedMemoryBlock.ManagedOverhead | ManagedMemoryBlock.h:16 | eOverheadForManagedObject: one pointer for a managed allocation, nothing otherwise. |
| ManagedMemoryBlock.NumBytesUsed | ManagedMemoryBlock.h:183-190 | Bytes used plus bytes left is exactly the buffer after the header (the invariant's accounting at ManagedMemoryBlock.h:257-259). Bytes used count at least the registered slots. |
| ManagedMemoryBlock.AlignmentPadRequired | ManagedMemoryBlock.h:203-207 | The pad is below the alignment, and cursor minus pad is a multiple of it: the pad reaches back to the previous multiple. |
| ManagedMemoryBlock.FreshBlock | ManagedMemoryBlock.h:85-98 | A newly constructed block keeps its invariant. It has no managed objects, bytes left equal the block size minus the header, and bytes used are 0. |
| ManagedMemoryBlock.TryUse | ManagedMemoryBlock.h:263-299 | Use succeeds exactly when pad + size + (slot if managed) fits in the bytes left. On success it returns cursor + pad, moves the cursor to just past the object (within the allocatable area), lowers bytes left by pad + size, and still leaves room for the slot. On failure the block is untouched. The invariant holds either way. |
| ManagedMemoryBlock.RemainderPadAligns | ManagedMemoryBlock.h:203-207 | x plus its remainder modulo m is a multiple of m exactly when that remainder is 0 or m/2. |
| ManagedMemoryBlock.UseAlignedIff | ManagedMemoryBlock.h:282-290 | A successful Use returns an aligned address exactly when the cursor's remainder is 0 or half the alignment. An already-aligned cursor needs no pad and is returned itself. |
| ManagedMemoryBlock.MisalignedUse | ManagedMemoryBlock.h:286-289 | A fresh block that malloc placed at address 16 serves a 1-byte request at 48. A following 4-byte request at alignment 4 is handed address 50, which is not 4-aligned. |
| ManagedMemoryBlock.Registered | ManagedMemoryBlock.h:192-201 | Registering appends the object to the registry and leaves the cursor alone. Bytes left drop by one pointer (8 bytes) and bytes used rise by one pointer (8 bytes). The new slot is the new end of the allocatable area, at or above the cursor. |
| ManagedMemoryBlock.Emptied | ManagedMemoryBlock.h:209-223 | After the managed objects are destroyed the registry is empty, the cursor is unchanged and the slots are free bytes again. |
| ManagedMemoryBlock.SlotHoldsRegistered | ManagedMemoryBlock.h:131-144 | Slot i, counted down from PFirstManagedObject, holds the i-th object registered. |
| ManagedMemoryBlock.MemoryBlock.constructor | ManagedMemoryBlock.h:85-98 | The block's state is a fresh block at its address, and its previous link is the given block. |
| ManagedMemoryBlock.MemoryBlock.PreviousBlock | ManagedMemoryBlock.h:301-305 | Returns the block's tail link. |
| ManagedMemoryBlock.MemoryBlock.Use | ManagedMemoryBlock.h:274-299 | The address returned and the block's new state are TryUse of its old state, so every property of TryUse holds of the method. |
| ManagedMemoryBlock.MemoryBlock.ManageObjectDestruction | ManagedMemoryBlock.h:192-201 | The block's new state is Registered(old state, obj). |
| ManagedMemoryBlock.MemoryBlock.DestroyManagedObjects | ManagedMemoryBlock.h:209-223 | The loop from PFirstManagedObject downwards destroys every registered object exactly once, in registration order, and leaves the block Emptied. |
| ManagedMemoryBlock.MemoryBlock.ChainAttachBlock | ManagedMemoryBlock.h:108-123 | Walking the previous links to the end of this block's chain and linking the block there makes the old chain followed by that block a linked chain. Only the old end's link is written. |
| BlockPool.ParentIdx | BlockAllocator.h:434-446 | The block a retired block is attached to is another active block. |
| BlockPool.Retire | BlockAllocator.h:476-481 | The table of chains after HoldOntoBlock then RemoveBlock has one chain fewer. |
| BlockPool.Evict | BlockAllocator.h:606-640 | The table keeps its length. The chains kept come first, in order, and the new block heads the given-up chain last. |
| BlockPool.Wellformed | BlockAllocator.h:661-691 | The allocator's invariant without the cutoff clause: sizes configured in range, at most four active blocks, every chain non-empty, every block within its own invariant. |
| BlockPool.Valid | BlockAllocator.h:661-691 | A well-formed pool in which no block is reachable twice. |
| BlockPool.AboveCutoff | BlockAllocator.h:671-676 | The stated cutoff clause: with more than one active block, every cached size exceeds 64. |
| BlockPool.AtLeastCutoff | BlockAllocator.h:671-676 | The weaker clause that allocation keeps: with more than one active block, no cached size is below 64. |
| BlockPool.MinimumBlockSize | BlockAllocator.h:542-568 | What a request demands of a new block holds the header, the request, the worst alignment pad and a slot if managed. It exceeds that by less than one alignment step and two pointers. |
| BlockPool.Skipped | BlockAllocator.h:236-249 | The scan passes a block over when its cached size is below the request (plus a slot if managed) or its Use fails. |
| BlockPool.Allocate | BlockAllocator.h:218-261 | _Allocate: an empty pool with malloc returning NULL fails. Otherwise the pool is scanned and served. A successful result is well formed. |
| BlockPool.AllocateFrom | BlockAllocator.h:230-258 | The first block that serves the request, else a new block big enough for it. A successful result is well formed. |
| BlockPool.BlockTeardown | BlockAllocator.h:203-216 | One block's destructors in registration order, then its free. |
| BlockPool.ChainTeardown | BlockAllocator.h:203-216 | DeleteBlock: every block of the chain from the head down. |
| BlockPool.PoolTeardown | BlockAllocator.h:183-190 | Clear's trace: every chain, active index 0 first. |
| BlockPool.RetireKeepsBlocks | BlockAllocator.h:476-481 | Holding on to a block and removing it from the table keeps the multiset of owned blocks: none is lost or duplicated. |
| BlockPool.RetireValid | BlockAllocator.h:476-481 | Retiring an active block keeps the pool valid. The cached sizes lose that block's entry and keep the others in order. |
| BlockPool.EvictAddsBlock | BlockAllocator.h:606-640 | Giving up a block to become the new block's tail adds exactly the new block to the owned blocks. |
| BlockPool.BlockSizes | BlockAllocator.h:667-670 | Cached size i is the bytes left in active block i. |
| BlockPool.SmallestIndex | BlockAllocator.h:384-404 | SmallestBlockIdx gives -1 exactly when there are no blocks. Otherwise it gives an index holding the minimum, with every earlier index strictly larger (the lowest such index). |
| BlockPool.AlignmentPaddingForBlocksize | BlockAllocator.h:571-586 | The pad added to a block size is below the pointer size. |
| BlockPool.PaddedBlocksizeAlignedIff | BlockAllocator.h:579-583 | The padded block size is a multiple of the pointer size, as asserted, exactly when the remainder is 0 or 4. |
| BlockPool.BaseBlockSize | BlockAllocator.h:693-699 | The next configured size (the initial size while there are no blocks, otherwise the subsequent size) plus its pad lies between 1000 and the int32_t maximum. |
| BlockPool.NextBlockSize | BlockAllocator.h:542-568 | The size of a block created for a request is the larger of the configured size and the request's minimum. It always holds the header, the request, the worst alignment pad and (if managed) a slot. |
| BlockPool.FreshBlockFits | BlockAllocator.h:250-258 | A new block of NextBlockSize bytes always serves the request it was created for. |
| BlockPool.EmptyPool | BlockAllocator.h:168-174 | A new allocator holds a valid pool with no blocks. A subsequent size of 0 means the initial size. |
| BlockPool.CreateAnotherBlock | BlockAllocator.h:588-642 | Creating a block keeps the pool well formed and its configuration, never exceeds four active blocks, and puts the new fresh block last. The owned blocks grow by exactly the new one: nothing is freed. |
| BlockPool.CreateKeepsBlocks | BlockAllocator.h:606-640 | Each of CreateAnotherBlock's three layouts is well formed and owns exactly the old blocks plus the new one: nothing is freed. |
| BlockPool.EvictedIndex | BlockAllocator.h:606-632 | A block is given up exactly when the table is full, or when the one block left has fewer than 64 bytes. The index given up is an active index. |
| BlockPool.CreateAnotherBlockShape | BlockAllocator.h:606-640 | After CreateAnotherBlock the table holds the blocks kept, in order, then the new block heading the chain of the block given up (or no tail). |
| BlockPool.CreateAnotherBlockTail | BlockAllocator.h:606-632 | The three cases written out: a full table loses its smallest block to the new block's tail; a lone block under the cutoff likewise; otherwise the new block is appended with no tail. |
| BlockPool.CreateAnotherBlockValid | BlockAllocator.h:598-640 | When malloc returns an address the pool does not own, the pool stays valid. |
| BlockPool.CreateAnotherBlockSizes | BlockAllocator.h:636-640 | The cached sizes lose the given-up block's entry and gain the new block's bytes left, last. |
| BlockPool.ReplaceHeadValid | BlockAllocator.h:717-722 | A new state for an active block keeps the pool valid, and only that block's cached size changes (UpdateBlockSize). |
| BlockPool.UseBlock | BlockAllocator.h:461-486 | The allocator's Use returns the block's Use result. On failure nothing changes. It keeps the pool well formed, its configuration and its owned blocks. |
| BlockPool.UseBlockKeepsBlock | BlockAllocator.h:461-486 | After a successful Use, the memory lies in the block carved and the pool stays valid. Either the block keeps its index and heads its chain, or it has at most 64 bytes, has left the table, and sits at the end of its parent's chain (index idx + 1, or 0 for the last). |
| BlockPool.ManagedUseCanRegister | ManagedMemoryBlock.h:263-272 | A successful managed Use leaves room for the object's slot. |
| BlockPool.RetiredSizes | BlockAllocator.h:476-481 | When Use retires the block, the other cached sizes stay, in order. |
| BlockPool.KeptSizes | BlockAllocator.h:466-476 | When Use keeps the block active, only its own cached size changes, to its new bytes left. |
| BlockPool.UseBlockAboveCutoff | BlockAllocator.h:471-482 | Use on its own keeps the stated cutoff clause. |
| BlockPool.UseBlockAtLeastCutoff | BlockAllocator.h:471-482 | Use keeps the weaker clause: no active block below the cutoff while more than one is active. |
| BlockPool.Scan | BlockAllocator.h:236-249 | A block the first-fit loop picks is an active index at or after the starting point, and is not passed over: its cached size covers the request and its Use succeeds. |
| BlockPool.ScanFindsNothing | BlockAllocator.h:236-249 | The loop finds no block exactly when every block is passed over. |
| BlockPool.ScanFindsFirst | BlockAllocator.h:236-249 | Every block before the one the loop picks is passed over: first fit. |
| BlockPool.ScannedPool | BlockAllocator.h:222-229 | The pool _Allocate scans is well formed. An allocator that already had blocks is left unchanged. An empty one gets its first block, unless malloc returned NULL and it stays empty. |
| BlockPool.FirstBlockServes | BlockAllocator.h:222-249 | The first block, created for a request, serves that request. |
| BlockPool.AllocateFromCarved | BlockAllocator.h:230-258 | Scanning then creating always yields memory. It lies in the block at the index returned (with room for the slot if managed), or in a block that has just been retired. |
| BlockPool.AllocateNeverNull | BlockAllocator.h:258 | Whenever _Allocate succeeds it returns memory, never NULL, as asserted. |
| BlockPool.AllocateFromKeepsBlocks | BlockAllocator.h:230-258 | Scanning then creating fails only without memory, keeps the pool valid and configured, and adds at most the block malloc returned. |
| BlockPool.AllocateKeepsBlocks | BlockAllocator.h:218-261 | _Allocate fails only when malloc returns NULL. It keeps the pool valid and configured, loses no block and adds at most the one malloc returned. |
| BlockPool.UseBlockCarved | BlockAllocator.h:461-486 | After a successful Use the memory lies in the block still at idx (with room for a slot if managed), or in a block now retired on a chain. |
| BlockPool.AllocateIndexOrRetired | BlockAllocator.h:236-258 | The index _Allocate returns names the block the memory came from, or that block has been retired by the same call. |
| BlockPool.AllocateFromAtLeastCutoff | BlockAllocator.h:230-258 | Scanning then creating keeps the weaker cutoff clause. |
| BlockPool.AllocateAtLeastCutoff | BlockAllocator.h:218-261 | _Allocate keeps the weaker cutoff clause. |
| BlockPool.CreateAtLeastCutoff | BlockAllocator.h:606-632 | Creating a block keeps the weaker clause. It keeps the stated clause unless a lone block has exactly 64 bytes left. |
| BlockPool.ManageObjectDestruction | BlockAllocator.h:701-706 | Only block idx changes, to Registered(block, obj). Its cached size drops by one pointer and the owned blocks stay the same. |
| BlockPool.Destructions | ManagedMemoryBlock.h:209-223 | One destructor call per registered object, in registration order. |
| BlockPool.ChainTeardownSnoc | BlockAllocator.h:203-216 | DeleteBlock's loop extends the trace one block at a time: that block's destructors, then its free. |
| BlockPool.PoolTeardownSnoc | BlockAllocator.h:183-190 | Clear's loop extends the trace one chain at a time. |
| BlockPool.ChainTeardownFrees | BlockAllocator.h:203-216 | DeleteBlock frees exactly the blocks of the chain. |
| BlockPool.TeardownFreesOwnedBlocks | BlockAllocator.h:183-216 | Clear frees exactly the blocks the pool owns, active and retired. |
| BlockPool.TeardownFreesEachBlockOnce | BlockAllocator.h:183-216 | In a valid pool Clear frees each owned block exactly once, and nothing else. |
| BlockPool.DestroyedBagHas | BlockAllocator.h:203-216 | An object counts as destroyed exactly when the trace holds its destructor call. |
| BlockPool.DestroyedBagConcat | BlockAllocator.h:203-216 | The objects destroyed by two traces in a row are those of each. |
| BlockPool.DestructionsDestroy | ManagedMemoryBlock.h:209-223 | DestroyManagedObjects destroys each registered object exactly as often as it was registered. |
| BlockPool.ChainTeardownDestroys | BlockAllocator.h:203-216 | DeleteBlock destroys exactly the objects registered in the chain's blocks. |
| BlockPool.TeardownDestroysRegistered | BlockAllocator.h:183-216 | Clear destroys exactly the objects registered anywhere in the pool, active or retired, each once per registration. |
| BlockPool.PoolRegistriesConcat | BlockAllocator.h:183-190 | The objects registered in two tables of chains together are those of each. |
| BlockPool.PoolRegistriesUpdate | BlockAllocator.h:701-706 | Replacing one chain changes the pool's registrations by exactly that chain's difference. |
| BlockPool.RegisterAddsObject | BlockAllocator.h:701-706 | Registering an object adds exactly that object to the pool's registrations. |
| BlockPool.HeadRegistersObject | ManagedMemoryBlock.h:192-201 | A chain whose head block registers one more object gains exactly that object. |
| BlockTables.UseInChains | BlockAllocator.h:462-470 | The block's Use, then UpdateBlockSize: the heap holds the pool with only that block's state replaced, and only its cached size changes. |
| BlockTables.RemoveBlock | BlockAllocator.h:644-658 | The first n - 1 entries of both arrays are the old entries without idx, in order. |
| BlockTables.CompactTables | BlockAllocator.h:644-658 | RemoveBlock before a retirement: the arrays hold the heads of the retired table, and the sizes lose entry idx, in order. |
| BlockTables.HoldOntoBlock | BlockAllocator.h:434-446 | Attaching block idx behind its parent (idx + 1, or 0 for the last) makes the heap hold the retired table. The arrays are untouched. |
| BlockTables.RemoveHead | BlockAllocator.h:644-658 | After RemoveBlock the array holds the heads of the other chains in order, and their cached sizes. |
| BlockTables.DetachChain | BlockAllocator.h:606-632 | CreateAnotherBlock's choice: the block given up (if any) leaves the arrays and becomes the new block's previous. |
| BlockTables.PushHead | BlockAllocator.h:633-640 | A new block, with the given tail, takes the next free slot of both arrays along with its bytes left. |
| BlockTables.InstallBlock | BlockAllocator.h:606-640 | The arrays hold the kept chains then the new block heading the tail chain. The heap holds the matching pool. |
| BlockTables.AddBlock | BlockAllocator.h:588-642 | The table then holds CreateAnotherBlock of the pool, and the blocks are the old ones plus the new one. |
| BlockTables.RetireFromTable | BlockAllocator.h:476-481 | HoldOntoBlock then RemoveBlock: the heap and the arrays hold the retired table. |
| BlockTables.RetireTable | BlockAllocator.h:476-481 | The table then holds the pool's Retire, over the same blocks. |
| BlockTables.RegisterInChains | BlockAllocator.h:701-706 | Registering in block idx, then UpdateBlockSize: only that block's state and cached size change. |
| BlockTables.DestroyAndFree | BlockAllocator.h:209-214 | One DeleteBlock step: the block's destructors, then its free. |
| BlockTables.DeleteBlock | BlockAllocator.h:203-216 | Walking a chain from its head through the previous links produces exactly the chain's teardown trace and empties every registry. |
| BlockTables.DeleteChainAt | BlockAllocator.h:186-189 | One round of Clear's loop tears down chain i and leaves the later chains as they were. |
| BlockTables.DeleteAll | BlockAllocator.h:186-189 | Clear's loop produces the whole pool's teardown trace, active index 0 first. |
| BlockAllocating.BlockAllocator.constructor | BlockAllocator.h:168-174 | A new allocator is valid, holds EmptyPool, and its counter is 0. |
| BlockAllocating.BlockAllocator.NextConfiguredBlockSize | BlockAllocator.h:693-699 | NextBlockSize() is the pool's base block size. |
| BlockAllocating.BlockAllocator.NextBlockSize | BlockAllocator.h:542-568 | NextBlockSize(size, alignment, managed) is the pool function's value. |
| BlockAllocating.BlockAllocator.SmallestBlockIdx | BlockAllocator.h:384-404 | The loop over the cached sizes returns SmallestIndex of the pool's sizes. |
| BlockAllocating.BlockAllocator.UseHead | BlockAllocator.h:462-470 | The block's Use and UpdateBlockSize: the result is TryUse of the active block, and the pool has that block's new state. |
| BlockAllocating.BlockAllocator.RetireBlock | BlockAllocator.h:476-481 | HoldOntoBlock then RemoveBlock: the pool becomes its Retire at idx, over the same blocks. |
| BlockAllocating.BlockAllocator.EvictionCandidate | BlockAllocator.h:606-632 | The block CreateAnotherBlock gives up is EvictedIndex of the pool. |
| BlockAllocating.BlockAllocator.CreateAnotherBlock | BlockAllocator.h:588-642 | NULL from malloc is BadAlloc with nothing changed. Otherwise the pool becomes the pool function's CreateAnotherBlock, and the only new block objects are fresh ones. |
| BlockAllocating.BlockAllocator.InstallNewBlock | BlockAllocator.h:606-641 | After malloc succeeds, the pool becomes CreateAnotherBlock, with one fresh block added. |
| BlockAllocating.BlockAllocator.Use | BlockAllocator.h:461-486 | The result and the new pool are UseBlock of the old pool, over the same blocks. |
| BlockAllocating.BlockAllocator.CreateFirstBlock | BlockAllocator.h:527-539 | With no blocks, a block of the configured initial size is created (BadAlloc if malloc fails). Otherwise nothing changes. |
| BlockAllocating.BlockAllocator.ManageObjectDestruction | BlockAllocator.h:701-706 | The pool becomes ManageObjectDestruction of the old pool. |
| BlockAllocating.BlockAllocator.ManageRefCountedObjectDestruction | BlockAllocator.h:708-715 | As ManageObjectDestruction, and the proxy now holds one more reference on the allocator's counter. The pool's registrations gain exactly the object. |
| BlockAllocating.BlockAllocator.Clear | BlockAllocator.h:182-201 | The trace is the teardown of every chain, and no blocks are left. The proxies released are exactly those whose object is registered in the pool. Each is detached and lowers the counter once, so when every proxy's object is registered the counter drops by the number of proxies. The status is ResourceProblem exactly when the counter is not zero after these releases. |
| BlockAllocating.BlockAllocator.DeleteBlocks | BlockAllocator.h:184-190 | Clear's loop over the active indices: the trace is the teardown of every chain, and the table is left empty and valid. |
| BlockAllocating.ReleaseProxies | ProxyRefCounter.h:18-26 | The proxies' destructors as the trace reaches them. The counter drops by exactly the number of proxies whose object the trace destructs, and those proxies are detached. A second destruction of the same object releases nothing. |
| BlockAllocating.ReleasedRegistered | BlockAllocator.h:184-199 | The proxies Clear releases are exactly those of objects registered in the pool. When all of them are registered, all are released. |
| BlockAllocating.ReleasedSnoc | ProxyRefCounter.h:18-26 | One more event releases at most the object it destructs. |
| BlockAllocating.OneAttached | BlockAllocator.h:708-715 | A single proxy attached to the counter forms a valid proxy map of one. |
| BlockAllocating.ClearOne | BlockAllocator.h:182-201 | Clearing an allocator with one registered ref-counted object gives the counter's reference back and detaches the proxy. The status is Success exactly when the counter is then zero. |
| BlockAllocating.RegisterRefCountedThenClear | BlockAllocator.h:708-715 | A ref-counted registration followed by Clear leaves the counter where it was and the proxy detached. An allocator that started at zero reports Success. |
| BlockAllocating.BlockAllocator.TryBlock | BlockAllocator.h:241-248 | One loop step. A block whose cached size is too small, or whose Use fails, is passed over and nothing changes. Otherwise it is the scan's pick, and the pool becomes UseBlock. |
| BlockAllocating.BlockAllocator.ScanBlocks | BlockAllocator.h:236-249 | The loop finds nothing exactly when Scan finds nothing, and changes nothing then. Otherwise it uses the block Scan picks. |
| BlockAllocating.BlockAllocator.EnsureFirstBlock | BlockAllocator.h:222-229 | An empty allocator gets a first block sized for the request, which then serves it, unless malloc fails. |
| BlockAllocating.BlockAllocator.AllocateInNewBlock | BlockAllocator.h:250-257 | A block of NextBlockSize is created and used at the last index, unless malloc fails. |
| BlockAllocating.BlockAllocator.AllocateFromBlocks | BlockAllocator.h:230-258 | Status, memory, index and pool are AllocateFrom of the old pool. |
| BlockAllocating.BlockAllocator.Allocate | BlockAllocator.h:218-261 | _Allocate's status, memory, index and new pool are the pool function Allocate of the old pool. |
| PsyncLib.ShiftedLeft | PsyncLib.h:16-25 | After the shift, the slots from from - 1 up to arraySize - 1 hold their right-hand neighbours. The elements below and the last element (now duplicated) keep their values. |
| PsyncLib.ShiftedLeftRemoves | PsyncLib.h:16-25 | Shifting from i + 1 deletes element i of the first arraySize entries. |
| PsyncLib.ShiftLeft | PsyncLib.h:16-25 | The array's new contents are ShiftedLeft of the old. |
| PsyncArray.ToInt32 | PsyncArray.h:94 | A size_t stored in an int32_t keeps its value modulo 2^32, lies in the int32_t range, and is unchanged when it fits. |
| PsyncArray.PMakeArraySize | PsyncArray.h:89-101 | The size requested lies in the int32_t range, and is exactly the header plus numElements elements when that total fits. |
| PsyncArray.PMakeArraySizeHoldsElements | PsyncArray.h:89-101 | When the total fits an int32_t, the size requested holds the header and then exactly numElements elements. |
| PsyncArray.PArray.constructor | PsyncArray.h:103-108 | A new array is valid, reserves numElements, and has no constructed elements. |
| PsyncArray.PArray.Valid | PsyncArray.h:188-200 | The array's invariant: a positive capacity within int32_t, storage of that length, and constructed elements at most the capacity. |
| PsyncArray.PArray.NumReserved | PsyncArray.h:294-298 | The capacity is the storage's length. |
| PsyncArray.PArray.Size | PsyncArray.h:300-304 | Size is the number of constructed elements and never exceeds the capacity. |
| PsyncArray.PArray.Construct | PsyncArray.h:319-341 | The element is built at index Size, which is returned. The constructed elements become the old ones followed by the new one. |
| PsyncArray.PArray.At | PsyncArray.h:349-356 | operator[] returns the constructed element at the index. |
| PsyncArray.PArray.Clear | PsyncArray.h:116-127 | Every constructed element is destroyed exactly once, in index order, and none remain. |
| PsyncArray.PArray.Begin | PsyncArray.h:176-180 | begin() is an iterator at the first element. |
| PsyncArray.PArray.End | PsyncArray.h:182-186 | end() is an iterator one past the last constructed element. |
| PsyncArray.Iterator.constructor | PsyncArray.h:208-219 | The iterator is at the given position of the given container. |
| PsyncArray.Iterator.Equals | PsyncArray.h:221-233 | Two iterators of one container are equal exactly when their positions are. |
| PsyncArray.Iterator.Get | PsyncArray.h:275-284 | Dereferencing gives the constructed element under the iterator. |
| PsyncArray.Iterator.Inc | PsyncArray.h:235-242 | Pre-increment moves one forward and returns the new position. |
| PsyncArray.Iterator.PostInc | PsyncArray.h:244-253 | Post-increment moves one forward and returns the old position. |
| PsyncArray.Iterator.Dec | PsyncArray.h:255-262 | Pre-decrement moves one back and returns the new position. |
| PsyncArray.Iterator.PostDec | PsyncArray.h:264-273 | Post-decrement moves one back and returns the old position. |
| PsyncArray.Traverse | PsyncArray_UnitTests.h:116-124 | Iterating from begin() to end() with ++ visits exactly the constructed elements, in index order. |
| PsyncArray.TraverseBackwards | PsyncArray.h:255-273 | A walk the source has no loop for: it exercises the decrement operators only. Stepping back from end() to begin() with -- visits the elements in reverse. |
| LazyObject.Lazy.constructor | LazyObject.h:48-52 | A new lazy object is not constructed and has built nothing. |
| LazyObject.Lazy.Valid | LazyObject.h:98-103 | The source's Invariant checks nothing. The model's own bookkeeping: every payload built has been destroyed, in order, except the live one, which is the last built. |
| LazyObject.Lazy.IsConstructed | LazyObject.h:72-76 | The object is constructed exactly when more payloads have been built than destroyed. |
| LazyObject.Lazy.Get | LazyObject.h:90-96 | operator* needs a constructed object and gives the payload built last. |
| LazyObject.Lazy.Clear | LazyObject.h:78-88 | A live payload is destroyed once and the flag cleared. Otherwise nothing happens, so Clear is idempotent. Every payload built has been destroyed except a live one. |
| LazyObject.Lazy.Construct | LazyObject.h:105-124 | Construct, _Construct and operator= first destroy the live payload (if any) exactly once, then build the new one, which operator* then returns. |
| LazyObject.LifeCycle | LazyObject.h:54-58 | Construct, reassign, then destroy: each payload's destructor runs exactly once, in construction order. |
| RefCounting.RefCount.constructor | RefCount.h:13-15 | A new counter is 0. |
| RefCounting.RefCount.AddRef | RefCount.h:17-20 | AddRef raises the count by exactly 1. |
| RefCounting.RefCount.Release | RefCount.h:22-25 | Release lowers the count by exactly 1, with no floor at 0. |
| RefCounting.RefCount.Count | RefCount.h:27-30 | Count reads the count. |
| ProxyRefCounting.ProxyRefCounter.constructor | ProxyRefCounter.h:13-16 | A new proxy has no counter. |
| ProxyRefCounting.ProxyRefCounter.SetObject | ProxyRefCounter.h:28-33 | The proxy attaches to the counter and raises it by exactly 1. |
| ProxyRefCounting.ProxyRefCounter.Destroy | ProxyRefCounter.h:18-26 | An attached counter is lowered exactly once and detached. Otherwise nothing happens. |
| ProxyRefCounting.AttachThenDestroy | ProxyRefCounter.h:13-33 | Attaching once and destroying leaves the counter where it was: the balance Clear's check relies on. |
| ProxyRefCounting.AttachTwiceThenDestroy | ProxyRefCounter.h:28-33 | Attaching twice takes two references, but the destructor gives back one. |
| Scenarios.FirstBlockStep | BlockAllocator_UnitTests.h:89-101 | CreateFirstBlock on a 1000-byte allocator gives one block with 968 bytes left. |
| Scenarios.Allocate700Step | BlockAllocator_UnitTests.h:104-109 | The 700-byte request is carved from the first block right after its header, and there is still one block. |
| Scenarios.Allocate600 | BlockAllocator_UnitTests.h:110-121 | Each of the next 600-byte requests gets a new block, appended last with 368 bytes left. |
| Scenarios.FullTable | BlockAllocator_UnitTests.h:122-145 | The table is then full. Block 0 is the smallest, with 268 bytes, and every block passes over a 600-byte request. |
| Scenarios.Allocate600Evicts | BlockAllocator_UnitTests.h:146-153 | The fifth 600-byte request keeps four blocks: block 0 becomes the new block's tail. |
| Scenarios.EvictedSizes | BlockAllocator_UnitTests.h:154-162 | Every active block then has 368 bytes left. |
| Scenarios.EvictedKeepsFirstBlock | BlockAllocator_UnitTests.h:163-171 | The first block is no longer active, but it is still owned, behind the new block. |
| Scenarios.ServedByNewBlock | BlockAllocator.h:250-257 | A request every active block passes over is served by a new block at the last index. |
| Scenarios.NewBlockStep | BlockAllocator.h:250-257 | With room in the table, such a request gets a new block appended with no tail. |
| Scenarios.EvictStep | BlockAllocator.h:606-617 | With the table full, such a request gives up the smallest block as the new block's tail. |
| Scenarios.LoneBlockAtCutoff | BlockAllocator.h:619-631 | A lone block with exactly 64 bytes stays active when a second block is created, which breaks the stated cutoff clause but not the weaker one. |
| Scenarios.RegistrationBelowCutoff | BlockAllocator.h:701-706 | A managed request leaves 68 bytes and passes Use's check. Registering the object then takes the block to 60 bytes with two blocks active, which breaks both clauses. |
| Scenarios.LargeBlockRetired | BlockAllocator.h:476-481 | A new block that the request leaves with 8 bytes is retired at once onto chain 0. |
| Scenarios.StaleBlockIndex | BlockAllocator.h:250-257 | The request's new block is retired at once, so the index _Allocate returns (1) is no longer an active index. |

## Left out

- The typed front-ends are not modelled: `AllocateUnmanaged`,
  `Allocate<Lazy>`, `AllocateAndConstruct*`, `AllocateAndConstructPoly*`
  and the free helpers. They are `sizeof` and `alignment_of` plumbing over
  `_Allocate`, placement `new` and `ManageObjectDestruction`, which are
  modelled.
- PolyWrap.h and IPoly.h are not part of this model. Running a managed
  object's virtual destructor is the event `Destructed(obj)`.
- `BlockAllocating.BlockAllocator.Clear`: the proxies are released after
  the trace is built, not between the frees. The counter at the end is the
  same. Destructors of managed objects other than the proxy part are
  events only.
- `BlockPool.Allocate`: no lemma states that allocation keeps every
  registration. The allocator's `Allocate` leaves each block's `registry`
  field outside its modifies clause.
- `malloc`, `free`, `memmove`, placement `new` and `reinterpret_cast` work
  on raw bytes. Addresses are naturals and buffers are abstract. `malloc`'s
  result is the parameter `newMemory`. Its contract that the address is not
  one the pool already owns is a precondition.
- The zero-initialisation flag of a new block (`memset`) does not change
  any state the model tracks, so it is not modelled.
- `ManagedMemoryBlock.TryUse`: requests are capped at `MaxRequest`
  (2^31 - 2^17) and configured sizes at `MaxConfiguredSize`. Every int32_t
  sum the block and the allocator form then stays in range. Larger
  requests would overflow a signed int32_t in the source, which C++
  leaves undefined.
- `BlockPool.Wellformed` leaves out the stated clause "every cached size
  exceeds 64 while more than one block is active". The operations do not
  keep it (see `LoneBlockAtCutoff` and `RegistrationBelowCutoff`).
  `AtLeastCutoff` is proved for every allocation instead. Registration is
  what breaks it.
- `ManagedMemoryBlock.UseAlignedIff`: the alignment the block asserts
  after padding is proved only under the condition that makes it true.
  `MisalignedUse` shows an input where it fails.
- `RefCounting.RefCount.AddRef`: the interlocked (atomic) increment and
  decrement are modelled as sequential updates. Concurrency is out of
  scope.
- `PsyncArray.PArray.Clear`: elements are values, and destroying one is
  recorded in the returned list. The element destructors' own effects
  (such as releasing a counter) are not modelled.
- `PsyncArray.Iterator.Get`: the debug-only checks that compare iterators'
  containers are preconditions. Pointer arithmetic is position arithmetic.
- ManagedMemoryBlock.cpp is not part of this model. It is a stale,
  non-template copy of the block that the templated header replaces.
- `LastBlockIdx`, `IsLastBlock`, `IsValidBlockIdx`, `SpaceForAnotherBlock`,
  `Block`, `BlockSize`, `SmallestBlock` and `UpdateBlockSize` are one-line
  accessors and tests. They appear inline in the members that
  use them, not as members of their own.
- Exception messages (`sprintf_s`) are not modelled; only the outcome is.
  The source throws `std::bad_alloc` both when malloc fails
  (BlockAllocator.h:604) and for the leak report (BlockAllocator.h:198).
  `Status` tells the two apart as `BadAlloc` and `ResourceProblem`.
- Every size and the example numbers are for a 64-bit target:
  `PointerSize` is 8 and the block header `HeaderSize` is 32 bytes.
  `PaddedBlocksizeAlignedIff` and every number in `Scenarios` depend on
  these two constants. A 32-bit build is not modelled.
- The scenarios cover the allocator's unit test one step at a time. No
  single lemma chains all the steps.
