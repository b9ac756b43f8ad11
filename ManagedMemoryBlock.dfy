/**
 * tManagedMemoryBlockT (ManagedMemoryBlock.h): one buffer obtained from
 * the system, laid out as
 *
 *   [header][bytes handed out ->      free      <- managed-object slots]
 *   address  BeginBytePtr   ptr   EndAllocatableBytePtr        endBytePtr
 *
 * Raw requests are served from the front by bumping the cursor ptr.  An
 * object whose destruction the block manages gets a pointer-sized slot
 * taken from the back: the first one registered sits in the last slot of
 * the buffer, the next one just below it, and so on.  Addresses are
 * naturals; a managed object is named by its address (ObjId).
 */
module ManagedMemoryBlock {
  import opened Wrappers
  import opened PsyncLib

  /** eOverheadForManagedObject = sizeof(POLYTYPE*) on a 64-bit target. */
  const PointerSize: nat := 8
  /** sizeof(tManagedMemoryBlockT): three pointers and an int32_t, padded. */
  const HeaderSize: nat := 32
  /** Alignments are passed as unsigned short. */
  const MaxAlignment: int := 0xFFFF
  /**
   * The largest request the model admits: every int32_t sum the block and
   * the allocator form from a request stays below 2^31 (see README).
   */
  const MaxRequest: int := 0x7FFE_0000

  type ObjId = nat

  /** The fields of a block, with the block's own address. */
  datatype BlockState = BlockState(address: nat, endBytePtr: nat, ptr: nat, registry: seq<ObjId>)

  /** The first byte after the header. */
  function BeginBytePtr(s: BlockState): nat
  {
    s.address + HeaderSize
  }

  /** The end of the area still open to raw allocation. */
  function EndAllocatableBytePtr(s: BlockState): int
  {
    s.endBytePtr - |s.registry| * PointerSize
  }

  /** PFirstManagedObject: the slot of the first object registered. */
  function FirstManagedSlot(s: BlockState): int
  {
    s.endBytePtr - PointerSize
  }

  /** The slot holding the i-th registered object (0 = the first). */
  function SlotAddress(s: BlockState, i: nat): int
  {
    FirstManagedSlot(s) - i * PointerSize
  }

  /** The extra bytes a managed allocation needs for its slot. */
  function ManagedOverhead(managed: bool): nat
  {
    if managed then PointerSize else 0
  }

  /**
   * Invariant (ManagedMemoryBlock.h:226-261), for one block; the recursion
   * into the previous block is the allocator's invariant over whole chains.
   * The block size was an int32_t.
   */
  ghost predicate Invariant(s: BlockState)
  {
    BeginBytePtr(s) <= s.ptr <= EndAllocatableBytePtr(s)
    && BeginBytePtr(s) < EndAllocatableBytePtr(s)
    && BeginBytePtr(s) < FirstManagedSlot(s)
    && s.endBytePtr - s.address <= Int32Max
  }

  /** NumBytesLeft: the free gap between the cursor and the slots. */
  function NumBytesLeft(s: BlockState): (r: nat)
    requires Invariant(s)
    ensures r < Int32Max
  {
    EndAllocatableBytePtr(s) - s.ptr
  }

  /**
   * NumBytesUsed: bytes handed out plus the slots.  Used and left together
   * are always the whole buffer after the header, so neither can exceed it.
   */
  function NumBytesUsed(s: BlockState): (r: nat)
    requires Invariant(s)
    ensures r + NumBytesLeft(s) == s.endBytePtr - BeginBytePtr(s)
    ensures |s.registry| <= r
  {
    (s.ptr - BeginBytePtr(s)) + |s.registry| * PointerSize
  }

  /**
   * AlignmentPadRequired: the cursor's remainder modulo the alignment.  This
   * is the distance BACK to the previous multiple of alignment, not the
   * distance forward to the next one.
   */
  function AlignmentPadRequired(ptr: nat, alignment: int): (r: nat)
    requires 0 < alignment
    ensures r < alignment
    ensures (ptr - r) % alignment == 0
  {
    DivModUnique(ptr - ptr % alignment, alignment, ptr / alignment, 0);
    ptr % alignment
  }

  /** EnoughSpace: does a request of size bytes, after padding, still fit? */
  function EnoughSpace(s: BlockState, size: int, pad: nat, managed: bool): bool
    requires Invariant(s)
  {
    pad + size + ManagedOverhead(managed) <= NumBytesLeft(s)
  }

  /** The block a freshly constructed tManagedMemoryBlockT describes. */
  function FreshBlock(address: nat, blockSize: int): (r: BlockState)
    requires HeaderSize + PointerSize < blockSize <= Int32Max
    ensures Invariant(r)
    ensures r.address == address && r.registry == []
    ensures NumBytesLeft(r) == blockSize - HeaderSize
    ensures NumBytesUsed(r) == 0
  {
    BlockState(address, address + blockSize, address + HeaderSize, [])
  }

  /**
   * Use, as a function of the block: on success the address handed out and
   * the block with its cursor moved past the new object, on failure None
   * and the block untouched.
   */
  function TryUse(s: BlockState, size: int, alignment: int, managed: bool): (r: (Option<nat>, BlockState))
    requires Invariant(s) && 0 < size <= MaxRequest && 0 < alignment <= MaxAlignment
    ensures Invariant(r.1)
    ensures r.0.Some? <==> AlignmentPadRequired(s.ptr, alignment) + size + ManagedOverhead(managed) <= NumBytesLeft(s)
    ensures r.0.None? ==> r.1 == s
    ensures r.0.Some? ==>
      && r.0.value == s.ptr + AlignmentPadRequired(s.ptr, alignment)
      && r.1 == s.(ptr := r.0.value + size)
      && s.ptr <= r.0.value && r.0.value + size <= EndAllocatableBytePtr(s)
      && NumBytesLeft(r.1) == NumBytesLeft(s) - AlignmentPadRequired(s.ptr, alignment) - size
      && NumBytesLeft(r.1) >= ManagedOverhead(managed)
  {
    var pad := AlignmentPadRequired(s.ptr, alignment);
    if EnoughSpace(s, size, pad, managed) then
      var start: nat := s.ptr + pad;
      (Some(start), s.(ptr := start + size))
    else
      (None, s)
  }

  /**
   * Whether x plus its remainder modulo m is a multiple of m: exactly when
   * the remainder is 0 or half of m.
   */
  lemma {:induction false} RemainderPadAligns(x: nat, m: nat)
    requires 0 < m
    ensures (x + x % m) % m == 0 <==> (x % m == 0 || 2 * (x % m) == m)
  {
    var q, r := x / m, x % m;
    assert x == q * m + r;
    assert x + r == q * m + 2 * r;
    if 2 * r < m {
      assert (x + r) % m == 2 * r by { ModOfMultiplePlus(q, m, 2 * r); }
    } else {
      assert (x + r) % m == 2 * r - m by {
        assert x + r == (q + 1) * m + (2 * r - m);
        ModOfMultiplePlus(q + 1, m, 2 * r - m);
      }
    }
  }

  lemma ModOfMultiplePlus(q: int, m: nat, r: nat)
    requires 0 < m && r < m
    ensures (q * m + r) % m == r
  {
    DivModUnique(q * m + r, m, q, r);
  }

  /** Euclidean division is unique. */
  lemma DivModUnique(x: int, m: int, q: int, r: int)
    requires 0 < m && 0 <= r < m && x == q * m + r
    ensures x % m == r && x / m == q
  {
    var q', r' := x / m, x % m;
    assert (q' - q) * m == r - r' by {
      assert q' * m + r' == q * m + r;
    }
    if q' > q {
      MulAtLeast(q' - q, m);
    } else if q' < q {
      assert (q - q') * m == r' - r;
      MulAtLeast(q - q', m);
    }
  }

  lemma MulAtLeast(a: int, m: int)
    requires 1 <= a && 0 < m
    ensures a * m >= m
  {
    assert a * m == (a - 1) * m + m;
  }

  /**
   * The alignment the block asserts after padding (ManagedMemoryBlock.h:288)
   * holds exactly when the cursor's remainder is zero or half the
   * alignment; in particular an aligned cursor needs no pad and yields an
   * aligned address.
   */
  lemma UseAlignedIff(s: BlockState, size: int, alignment: int, managed: bool)
    requires Invariant(s) && 0 < size <= MaxRequest && 0 < alignment <= MaxAlignment
    requires TryUse(s, size, alignment, managed).0.Some?
    ensures TryUse(s, size, alignment, managed).0.value % alignment == 0
      <==> (s.ptr % alignment == 0 || 2 * (s.ptr % alignment) == alignment)
    ensures s.ptr % alignment == 0 ==> TryUse(s, size, alignment, managed).0.value == s.ptr
  {
    RemainderPadAligns(s.ptr, alignment);
  }

  /**
   * A block malloc placed at 16: a 1-byte request leaves the cursor at 49,
   * and the next request with alignment 4 gets a pad of 1 and is handed
   * address 50, which is not 4-aligned.
   */
  lemma MisalignedUse()
    ensures var s := FreshBlock(16, 1000);
      var (first, s1) := TryUse(s, 1, 1, false);
      first == Some(48) && s1.ptr == 49 && TryUse(s1, 4, 4, false).0 == Some(50) && 50 % 4 != 0
  {
    var s := FreshBlock(16, 1000);
    assert s == BlockState(16, 1016, 48, []);
    assert AlignmentPadRequired(48, 1) == 0;
    var s1 := BlockState(16, 1016, 49, []);
    assert TryUse(s, 1, 1, false) == (Some(48), s1);
    assert AlignmentPadRequired(49, 4) == 1;
  }

  /** Whether a new slot can be taken: it must not cross the cursor. */
  ghost predicate CanRegister(s: BlockState)
  {
    Invariant(s) && PointerSize <= NumBytesLeft(s)
    && BeginBytePtr(s) < EndAllocatableBytePtr(s) - PointerSize
  }

  /**
   * ManageObjectDestruction, as a function of the block: obj goes into the
   * next slot down, which is taken from the free gap.
   */
  function Registered(s: BlockState, obj: ObjId): (r: BlockState)
    requires CanRegister(s)
    ensures Invariant(r)
    ensures r.ptr == s.ptr && r.registry == s.registry + [obj]
    ensures NumBytesLeft(r) == NumBytesLeft(s) - PointerSize
    ensures NumBytesUsed(r) == NumBytesUsed(s) + PointerSize
    ensures SlotAddress(r, |s.registry|) == EndAllocatableBytePtr(r) >= s.ptr
  {
    s.(registry := s.registry + [obj])
  }

  /** DestroyManagedObjects, as a function of the block: the slots are given back. */
  function Emptied(s: BlockState): (r: BlockState)
    requires Invariant(s)
    ensures Invariant(r) && r.ptr == s.ptr && r.registry == []
    ensures NumBytesLeft(r) == NumBytesLeft(s) + |s.registry| * PointerSize
  {
    s.(registry := [])
  }

  /** Whether addr is the slot of one of the registered objects. */
  predicate IsSlot(s: BlockState, addr: int)
  {
    PointerSize <= s.endBytePtr - addr <= |s.registry| * PointerSize
    && (s.endBytePtr - addr) % PointerSize == 0
  }

  /** The object whose pointer is stored in slot addr. */
  function ObjectAt(s: BlockState, addr: int): ObjId
    requires IsSlot(s, addr)
  {
    s.registry[(s.endBytePtr - addr) / PointerSize - 1]
  }

  /** Slot i holds the i-th registered object. */
  lemma {:induction false} SlotHoldsRegistered(s: BlockState, i: nat)
    requires i < |s.registry|
    ensures IsSlot(s, SlotAddress(s, i))
    ensures ObjectAt(s, SlotAddress(s, i)) == s.registry[i]
  {
    assert s.endBytePtr - SlotAddress(s, i) == (i + 1) * PointerSize;
  }

  class MemoryBlock {
    /** this: where the block's buffer starts. */
    const address: nat
    /** m_EndBytePtr */
    const endBytePtr: nat
    /** m_Ptr */
    var ptr: nat
    /** The slot contents, oldest first; |registry| is m_NumManagedObjects. */
    var registry: seq<ObjId>
    /** m_PreviousBlock: the next block down this block's tail chain. */
    var previous: MemoryBlock?

    function State(): BlockState
      reads this`ptr, this`registry
    {
      BlockState(address, endBytePtr, ptr, registry)
    }

    /** The constructor; the zero-initialisation flag is not modelled. */
    constructor (previousBlock: MemoryBlock?, blockSize: int, address: nat)
      requires HeaderSize + PointerSize < blockSize <= Int32Max
      ensures State() == FreshBlock(address, blockSize)
      ensures previous == previousBlock
    {
      this.address := address;
      endBytePtr := address + blockSize;
      ptr := address + HeaderSize;
      registry := [];
      previous := previousBlock;
    }

    /** PreviousBlock */
    function PreviousBlock(): (r: MemoryBlock?)
      reads this`previous
      ensures r == previous
    {
      previous
    }

    /** Use: carve size bytes at the requested alignment, or return NULL. */
    method Use(size: int, alignment: int, managed: bool) returns (rv: Option<nat>)
      requires Invariant(State()) && 0 < size <= MaxRequest && 0 < alignment <= MaxAlignment
      modifies this`ptr
      ensures (rv, State()) == TryUse(old(State()), size, alignment, managed)
    {
      var pad := AlignmentPadRequired(ptr, alignment);
      if EnoughSpace(State(), size, pad, managed) {
        if pad > 0 {
          ptr := ptr + pad;
        }
        rv := Some(ptr);
        ptr := ptr + size;
      } else {
        rv := None;
      }
    }

    /** ManageObjectDestruction: store obj in the next free slot. */
    method ManageObjectDestruction(obj: ObjId)
      requires CanRegister(State())
      modifies this`registry
      ensures State() == Registered(old(State()), obj)
    {
      registry := registry + [obj];
    }

    /**
     * DestroyManagedObjects (what the destructor does): read the slots from
     * PFirstManagedObject downwards, running each object's destructor, then
     * empty the registry.  The result lists the objects in the order their
     * destructors ran.
     */
    method DestroyManagedObjects() returns (destroyed: seq<ObjId>)
      requires Invariant(State())
      modifies this`registry
      ensures destroyed == old(registry)
      ensures State() == Emptied(old(State()))
    {
      var slot := FirstManagedSlot(State());
      destroyed := [];
      var i := 0;
      while i < |registry|
        invariant registry == old(registry)
        invariant 0 <= i <= |registry|
        invariant slot == SlotAddress(State(), i)
        invariant destroyed == registry[..i]
      {
        SlotHoldsRegistered(State(), i);
        destroyed := destroyed + [ObjectAt(State(), slot)];
        slot := slot - PointerSize;
        i := i + 1;
      }
      registry := [];
    }

    /**
     * ChainAttachBlock: walk this block's chain to its end and link block
     * there.  The walked chain followed by block is then linked, and only the
     * link of the old end changes.
     */
    method ChainAttachBlock(block: MemoryBlock, ghost chain: seq<MemoryBlock>)
      requires IsChain(chain) && chain[0] == this
      requires forall j :: 0 <= j < |chain| - 1 ==> chain[j] != chain[|chain| - 1]
      modifies (chain[|chain| - 1] as MemoryBlock)`previous
      ensures Links(chain + [block])
    {
      var iter := this;
      ghost var j := 0;
      while true
        invariant IsChain(chain)
        invariant 0 <= j < |chain| && iter == chain[j]
        invariant iter.previous == if j < |chain| - 1 then chain[j + 1] else null
        decreases |chain| - j
      {
        if iter.previous == null {
          iter.previous := block;
          break;
        }
        iter := iter.previous;
        j := j + 1;
      }
    }
  }

  /** Each block of c links to the one after it. */
  ghost predicate Links(c: seq<MemoryBlock>)
    reads c`previous
  {
    forall j {:trigger c[j].previous} :: 0 <= j < |c| - 1 ==> c[j].previous == c[j + 1]
  }

  /** c is the chain of blocks reachable from c[0] through previous links. */
  ghost predicate IsChain(c: seq<MemoryBlock>)
    reads c`previous
  {
    |c| > 0 && Links(c) && c[|c| - 1].previous == null
  }

  /** The states of the blocks of a chain, in chain order. */
  ghost function ChainStates(c: seq<MemoryBlock>): (r: seq<BlockState>)
    reads c`ptr, c`registry
    ensures |r| == |c|
  {
    if c == [] then [] else [c[0].State()] + ChainStates(c[1..])
  }

  /** Entry j of ChainStates(c) is the state of block j. */
  lemma {:induction false} ChainStatesAt(c: seq<MemoryBlock>, j: nat)
    requires j < |c|
    ensures ChainStates(c)[j] == c[j].State()
  {
    if j > 0 {
      ChainStatesAt(c[1..], j - 1);
    }
  }
}
