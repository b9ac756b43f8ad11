/**
 * The block pool of tBlockAllocatorT (BlockAllocator.h) as a value.  The
 * pool holds up to MaxNumBlocks active blocks; each active block heads a
 * chain: the block itself followed by the retired blocks reachable from it
 * through the previous links.  chains[i][0] is active block i, and the
 * cached size m_BlockSizes[i] is that block's NumBytesLeft.
 */
module BlockPool {
  import opened Wrappers
  import opened PsyncLib
  import opened ManagedMemoryBlock

  /** eMaxNumBlocks */
  const MaxNumBlocks: nat := 4
  /** eBlockCutOffPointBytes */
  const BlockCutOffPointBytes: int := 64
  /** The smallest block size the allocator's invariant accepts. */
  const MinConfiguredSize: int := 1000
  /** The largest configured size whose padding still fits an int32_t. */
  const MaxConfiguredSize: int := Int32Max - 7

  datatype Pool = Pool(initialSize: int, subsequentBlockSize: int, chains: seq<seq<BlockState>>)

  // ---------------------------------------------------------------------
  // Operations on the table of chains, for any kind of element.

  /** The chain a retired block is attached to: the next one, or the first. */
  function ParentIdx(n: nat, idx: nat): (r: nat)
    requires 1 < n && idx < n
    ensures r < n && r != idx
  {
    if idx == n - 1 then 0 else idx + 1
  }

  /**
   * HoldOntoBlock then RemoveBlock: chain idx goes onto the end of its
   * parent chain and leaves the table.
   */
  function Retire<T>(cs: seq<seq<T>>, idx: nat): (r: seq<seq<T>>)
    requires 1 < |cs| && idx < |cs|
    ensures |r| == |cs| - 1
  {
    var p := ParentIdx(|cs|, idx);
    RemoveAt(cs[p := cs[p] + cs[idx]], idx)
  }

  /** RemoveBlock(k) then a new block x appended with chain k as its tail. */
  function Evict<T>(cs: seq<seq<T>>, k: nat, x: T): (r: seq<seq<T>>)
    requires k < |cs|
    ensures |r| == |cs|
    ensures r[|r| - 1] == [x] + cs[k]
    ensures r[..|r| - 1] == RemoveAt(cs, k)
  {
    RemoveAt(cs, k) + [[x] + cs[k]]
  }

  // ---------------------------------------------------------------------
  // Which blocks the pool owns, counted by address.

  /** The addresses of the blocks of one chain. */
  function ChainBag(c: seq<BlockState>): multiset<nat>
  {
    if c == [] then multiset{} else multiset{c[0].address} + ChainBag(c[1..])
  }

  /** The addresses of every block on every chain. */
  function AddressBag(cs: seq<seq<BlockState>>): multiset<nat>
  {
    if cs == [] then multiset{} else ChainBag(cs[0]) + AddressBag(cs[1..])
  }

  /** No block is reachable twice: each address occurs at most once. */
  ghost predicate DistinctAddresses(cs: seq<seq<BlockState>>)
  {
    forall a :: AddressBag(cs)[a] <= 1
  }

  lemma {:induction false} ChainBagConcat(a: seq<BlockState>, b: seq<BlockState>)
    ensures ChainBag(a + b) == ChainBag(a) + ChainBag(b)
  {
    if a == [] {
      assert a + b == b;
    } else {
      assert (a + b)[1..] == a[1..] + b;
      ChainBagConcat(a[1..], b);
    }
  }

  lemma {:induction false} AddressBagConcat(a: seq<seq<BlockState>>, b: seq<seq<BlockState>>)
    ensures AddressBag(a + b) == AddressBag(a) + AddressBag(b)
  {
    if a == [] {
      assert a + b == b;
    } else {
      assert (a + b)[1..] == a[1..] + b;
      AddressBagConcat(a[1..], b);
    }
  }

  /** ChainBag of a block followed by a chain. */
  lemma ChainBagCons(x: BlockState, c: seq<BlockState>)
    ensures ChainBag([x] + c) == multiset{x.address} + ChainBag(c)
  {
    assert ([x] + c)[1..] == c;
  }

  lemma AddressBagCons(c: seq<BlockState>, cs: seq<seq<BlockState>>)
    ensures AddressBag([c] + cs) == ChainBag(c) + AddressBag(cs)
  {
    assert ([c] + cs)[1..] == cs;
  }

  /** A sequence is its prefix, its element i and its suffix. */
  lemma SplitAt<T>(s: seq<T>, i: nat)
    requires i < |s|
    ensures s == s[..i] + ([s[i]] + s[i + 1..])
  {
    assert s[i..] == [s[i]] + s[i + 1..];
    assert s == s[..i] + s[i..];
  }

  lemma ChainBagSplit(c: seq<BlockState>, j: nat)
    requires j < |c|
    ensures ChainBag(c) == ChainBag(c[..j]) + multiset{c[j].address} + ChainBag(c[j + 1..])
  {
    var pre, x, post := c[..j], c[j], c[j + 1..];
    SplitAt(c, j);
    ChainBagConcat(pre, [x] + post);
    ChainBagCons(x, post);
  }

  lemma AddressBagSplit(cs: seq<seq<BlockState>>, i: nat)
    requires i < |cs|
    ensures AddressBag(cs) == AddressBag(cs[..i]) + ChainBag(cs[i]) + AddressBag(cs[i + 1..])
  {
    var pre, x, post := cs[..i], cs[i], cs[i + 1..];
    SplitAt(cs, i);
    AddressBagConcat(pre, [x] + post);
    AddressBagCons(x, post);
  }

  lemma MultisetCancel(a: multiset<nat>, b: multiset<nat>, x: multiset<nat>)
    requires a + x == b + x
    ensures a == b
  {
    forall e
      ensures a[e] == b[e]
    {
      assert (a + x)[e] == (b + x)[e];
    }
  }

  lemma AddressBagRemoveAt(cs: seq<seq<BlockState>>, i: nat)
    requires i < |cs|
    ensures AddressBag(cs) == AddressBag(RemoveAt(cs, i)) + ChainBag(cs[i])
  {
    AddressBagSplit(cs, i);
    AddressBagConcat(cs[..i], cs[i + 1..]);
  }

  lemma AddressBagUpdate(cs: seq<seq<BlockState>>, i: nat, c: seq<BlockState>)
    requires i < |cs|
    ensures AddressBag(cs[i := c]) + ChainBag(cs[i]) == AddressBag(cs) + ChainBag(c)
  {
    AddressBagSplit(cs, i);
    AddressBagSplit(cs[i := c], i);
    assert cs[i := c][..i] == cs[..i];
    assert cs[i := c][i + 1..] == cs[i + 1..];
  }

  /** Retiring a chain neither loses nor duplicates a block. */
  lemma RetireKeepsBlocks(cs: seq<seq<BlockState>>, idx: nat)
    requires 1 < |cs| && idx < |cs|
    ensures AddressBag(Retire(cs, idx)) == AddressBag(cs)
  {
    var p := ParentIdx(|cs|, idx);
    var m := cs[p := cs[p] + cs[idx]];
    AddressBagUpdate(cs, p, cs[p] + cs[idx]);
    ChainBagConcat(cs[p], cs[idx]);
    MultisetCancel(AddressBag(m), AddressBag(cs) + ChainBag(cs[idx]), ChainBag(cs[p]));
    AddressBagRemoveAt(m, idx);
    MultisetCancel(AddressBag(RemoveAt(m, idx)), AddressBag(cs), ChainBag(cs[idx]));
  }

  /** Evicting a chain into a new block adds exactly the new block. */
  lemma EvictAddsBlock(cs: seq<seq<BlockState>>, k: nat, x: BlockState)
    requires k < |cs|
    ensures AddressBag(Evict(cs, k, x)) == AddressBag(cs) + multiset{x.address}
  {
    AddressBagRemoveAt(cs, k);
    AddressBagConcat(RemoveAt(cs, k), [[x] + cs[k]]);
    AddressBagCons([x] + cs[k], []);
    assert [[x] + cs[k]] == [[x] + cs[k]] + [];
    ChainBagCons(x, cs[k]);
  }

  /** Appending a chain adds its blocks. */
  lemma AppendAddsChain(cs: seq<seq<BlockState>>, c: seq<BlockState>)
    ensures AddressBag(cs + [c]) == AddressBag(cs) + ChainBag(c)
  {
    AddressBagConcat(cs, [c]);
    AddressBagCons(c, []);
    assert [c] == [c] + [];
  }

  /** Replacing a chain's head by a block at the same address keeps the blocks. */
  lemma ReplaceHeadKeepsBlocks(cs: seq<seq<BlockState>>, i: nat, b: BlockState)
    requires i < |cs| && |cs[i]| > 0 && b.address == cs[i][0].address
    ensures AddressBag(cs[i := [b] + cs[i][1..]]) == AddressBag(cs)
  {
    AddressBagUpdate(cs, i, [b] + cs[i][1..]);
    ChainBagCons(b, cs[i][1..]);
    ChainBagSplit(cs[i], 0);
    MultisetCancel(AddressBag(cs[i := [b] + cs[i][1..]]), AddressBag(cs), ChainBag(cs[i]));
  }

  lemma ChainBagHas(c: seq<BlockState>, j: nat)
    requires j < |c|
    ensures ChainBag(c)[c[j].address] >= 1
  {
    ChainBagSplit(c, j);
  }

  lemma AddressBagHasChain(cs: seq<seq<BlockState>>, i: nat, a: nat)
    requires i < |cs|
    ensures AddressBag(cs)[a] >= ChainBag(cs[i])[a]
  {
    AddressBagSplit(cs, i);
  }

  /** Two different positions holding the same address count it twice. */
  lemma SharedAddressCounted(cs: seq<seq<BlockState>>, i: nat, j: nat, k: nat, l: nat)
    requires i < |cs| && j < |cs[i]| && k < |cs| && l < |cs[k]|
    requires i != k || j != l
    requires cs[i][j].address == cs[k][l].address
    ensures AddressBag(cs)[cs[i][j].address] >= 2
  {
    if i == k {
      if j < l {
        SharedInChain(cs, i, j, l);
      } else {
        SharedInChain(cs, i, l, j);
      }
    } else if i < k {
      SharedAcrossChains(cs, i, j, k, l);
    } else {
      SharedAcrossChains(cs, k, l, i, j);
    }
  }

  /** Two positions lo < hi of chain i at the same address. */
  lemma SharedInChain(cs: seq<seq<BlockState>>, i: nat, lo: nat, hi: nat)
    requires i < |cs| && lo < hi < |cs[i]| && cs[i][lo].address == cs[i][hi].address
    ensures AddressBag(cs)[cs[i][lo].address] >= 2
  {
    var a := cs[i][lo].address;
    ChainBagSplit(cs[i], hi);
    ChainBagHas(cs[i][..hi], lo);
    assert ChainBag(cs[i])[a] >= 2;
    AddressBagHasChain(cs, i, a);
  }

  /** Positions on two chains lo < hi at the same address. */
  lemma SharedAcrossChains(cs: seq<seq<BlockState>>, lo: nat, jlo: nat, hi: nat, jhi: nat)
    requires lo < hi < |cs| && jlo < |cs[lo]| && jhi < |cs[hi]| && cs[lo][jlo].address == cs[hi][jhi].address
    ensures AddressBag(cs)[cs[lo][jlo].address] >= 2
  {
    var a := cs[lo][jlo].address;
    AddressBagSplit(cs, hi);
    AddressBagHasChain(cs[..hi], lo, a);
    ChainBagHas(cs[lo], jlo);
    ChainBagHas(cs[hi], jhi);
  }

  /**
   * With distinct addresses, two different positions in the table hold
   * blocks at different addresses.
   */
  lemma NotAliased(cs: seq<seq<BlockState>>, i: nat, j: nat, k: nat, l: nat)
    requires DistinctAddresses(cs)
    requires i < |cs| && j < |cs[i]| && k < |cs| && l < |cs[k]|
    requires i != k || j != l
    ensures cs[i][j].address != cs[k][l].address
  {
    if cs[i][j].address == cs[k][l].address {
      SharedAddressCounted(cs, i, j, k, l);
    }
  }

  // ---------------------------------------------------------------------
  // The pool.

  /**
   * The allocator's Invariant (BlockAllocator.h:661-691) minus the cutoff
   * clause: configured sizes, at most MaxNumBlocks active blocks, every
   * block on every chain within its own invariant.
   */
  ghost predicate Wellformed(p: Pool)
  {
    && MinConfiguredSize <= p.initialSize <= MaxConfiguredSize
    && MinConfiguredSize <= p.subsequentBlockSize <= MaxConfiguredSize
    && |p.chains| <= MaxNumBlocks
    && ChainsWellformed(p.chains)
  }

  /** Every chain is non-empty and every block on it keeps its invariant. */
  ghost predicate ChainsWellformed(cs: seq<seq<BlockState>>)
  {
    && (forall i :: 0 <= i < |cs| ==> |cs[i]| > 0)
    && (forall i, j :: 0 <= i < |cs| && 0 <= j < |cs[i]| ==> Invariant(cs[i][j]))
  }

  lemma EvictWellformed(cs: seq<seq<BlockState>>, k: nat, x: BlockState)
    requires ChainsWellformed(cs) && k < |cs| && Invariant(x)
    ensures ChainsWellformed(Evict(cs, k, x))
  {
    var r := Evict(cs, k, x);
    forall i, j | 0 <= i < |r| && 0 <= j < |r[i]|
      ensures Invariant(r[i][j])
    {
      if i < |r| - 1 {
        assert r[i] == RemoveAt(cs, k)[i];
      } else if j > 0 {
        assert r[i][j] == cs[k][j - 1];
      }
    }
  }

  lemma AppendWellformed(cs: seq<seq<BlockState>>, x: BlockState)
    requires ChainsWellformed(cs) && Invariant(x)
    ensures ChainsWellformed(cs + [[x]])
  {
  }

  /** A well-formed pool in which no block is reachable twice. */
  ghost predicate Valid(p: Pool)
  {
    Wellformed(p) && DistinctAddresses(p.chains)
  }

  /** The cached sizes, m_BlockSizes[0..m_NumBlocks). */
  function BlockSizes(p: Pool): (r: seq<int>)
    requires Wellformed(p)
    ensures |r| == |p.chains|
    ensures forall i :: 0 <= i < |r| ==> r[i] == NumBytesLeft(p.chains[i][0])
  {
    seq(|p.chains|, i requires 0 <= i < |p.chains| => NumBytesLeft(p.chains[i][0]))
  }

  /**
   * The stated cutoff clause (BlockAllocator.h:671-676): with more than one
   * active block every cached size exceeds the cutoff.
   */
  ghost predicate AboveCutoff(p: Pool)
    requires Wellformed(p)
  {
    |p.chains| > 1 ==> forall i :: 0 <= i < |p.chains| ==> BlockSizes(p)[i] > BlockCutOffPointBytes
  }

  /** The weaker clause the allocation operations, managed or not, do keep: no size below the cutoff. */
  ghost predicate AtLeastCutoff(p: Pool)
    requires Wellformed(p)
  {
    |p.chains| > 1 ==> forall i :: 0 <= i < |p.chains| ==> BlockSizes(p)[i] >= BlockCutOffPointBytes
  }

  /**
   * SmallestBlockIdx on the cached sizes: -1 for no blocks, otherwise the
   * lowest index holding the minimum.
   */
  function SmallestIndex(s: seq<int>): (r: int)
    ensures r == -1 <==> |s| == 0
    ensures |s| > 0 ==> 0 <= r < |s|
    ensures |s| > 0 ==> forall j :: 0 <= j < |s| ==> s[r] <= s[j]
    ensures |s| > 0 ==> forall j :: 0 <= j < r ==> s[r] < s[j]
  {
    if |s| == 0 then -1
    else
      var k := SmallestIndex(s[..|s| - 1]);
      if k == -1 || s[|s| - 1] < s[k] then |s| - 1 else k
  }

  /**
   * AlignmentPaddingForBlocksize: the block size's remainder modulo the
   * pointer size (the same backward remainder as the block's pad).
   */
  function AlignmentPaddingForBlocksize(blockSize: int): (r: nat)
    requires blockSize > 0
    ensures r < PointerSize
  {
    blockSize % PointerSize
  }

  /**
   * The padded size is a multiple of the pointer size, as the allocator
   * asserts (BlockAllocator.h:583), exactly when the remainder is 0 or 4.
   */
  lemma PaddedBlocksizeAlignedIff(blockSize: int)
    requires blockSize > 0
    ensures (blockSize + AlignmentPaddingForBlocksize(blockSize)) % PointerSize == 0
      <==> (blockSize % PointerSize == 0 || blockSize % PointerSize == 4)
  {
    RemainderPadAligns(blockSize, PointerSize);
  }

  /**
   * NextBlockSize(): the configured size for the next block (the initial
   * size while there are no blocks), padded.
   */
  function BaseBlockSize(numBlocks: nat, initialSize: int, subsequentBlockSize: int): (r: int)
    requires MinConfiguredSize <= initialSize <= MaxConfiguredSize
    requires MinConfiguredSize <= subsequentBlockSize <= MaxConfiguredSize
    ensures MinConfiguredSize <= r <= Int32Max
  {
    var size := if numBlocks == 0 then initialSize else subsequentBlockSize;
    size + AlignmentPaddingForBlocksize(size)
  }

  /** BaseBlockSize for the pool's own configuration and number of blocks. */
  function PoolBaseBlockSize(p: Pool): int
    requires Wellformed(p)
  {
    BaseBlockSize(|p.chains|, p.initialSize, p.subsequentBlockSize)
  }

  /** What NextBlockSize(size, alignment, managed) demands before comparing with the base. */
  function MinimumBlockSize(size: int, alignment: int, managed: bool): (r: int)
    requires 0 < size <= MaxRequest && 0 < alignment <= MaxAlignment
    ensures HeaderSize + size + (alignment - 1) + ManagedOverhead(managed) <= r
    ensures r < HeaderSize + size + alignment + 2 * PointerSize
  {
    var unaligned := size + HeaderSize + (if alignment > 1 then alignment else 0);
    if managed then
      unaligned + PointerSize + AlignmentPaddingForBlocksize(unaligned + PointerSize)
    else
      unaligned
  }

  /**
   * NextBlockSize(size, alignment, managed): big enough for the header, the
   * request, the worst alignment pad and a managed slot, and never below the
   * base size.
   */
  function NextBlockSize(p: Pool, size: int, alignment: int, managed: bool): (r: int)
    requires Wellformed(p) && 0 < size <= MaxRequest && 0 < alignment <= MaxAlignment
    ensures PoolBaseBlockSize(p) <= r <= Int32Max
    ensures MinimumBlockSize(size, alignment, managed) <= r
    ensures r == MinimumBlockSize(size, alignment, managed) || r == PoolBaseBlockSize(p)
    ensures HeaderSize + size + (if alignment > 1 then alignment else 0) + ManagedOverhead(managed) <= r
  {
    var minimum := MinimumBlockSize(size, alignment, managed);
    var base := PoolBaseBlockSize(p);
    if minimum > base then minimum else base
  }

  /** A newBlock block of NextBlockSize bytes always takes the request. */
  lemma FreshBlockFits(p: Pool, address: nat, size: int, alignment: int, managed: bool)
    requires Wellformed(p) && 0 < size <= MaxRequest && 0 < alignment <= MaxAlignment
    ensures TryUse(FreshBlock(address, NextBlockSize(p, size, alignment, managed)), size, alignment, managed).0.Some?
  {
    var b := FreshBlock(address, NextBlockSize(p, size, alignment, managed));
    assert AlignmentPadRequired(b.ptr, alignment) <= (if alignment > 1 then alignment else 0);
  }

  /** The constructor: no blocks; a subsequent size of 0 means the initial size. */
  function EmptyPool(initialSize: int, subsequentBlockSize: int): (p: Pool)
    requires MinConfiguredSize <= initialSize <= MaxConfiguredSize
    requires subsequentBlockSize == 0 || MinConfiguredSize <= subsequentBlockSize <= MaxConfiguredSize
    ensures Valid(p) && p.chains == []
    ensures p.subsequentBlockSize == if subsequentBlockSize == 0 then initialSize else subsequentBlockSize
  {
    Pool(initialSize, if subsequentBlockSize != 0 then subsequentBlockSize else initialSize, [])
  }

  /**
   * CreateAnotherBlock after a successful malloc at address: the new block
   * goes last.  A full table first loses its smallest block, which becomes
   * the new block's tail; a lone block below the cutoff does the same;
   * otherwise the new block has no tail.
   */
  function CreateAnotherBlock(p: Pool, nbytes: int, address: nat): (q: Pool)
    requires Wellformed(p) && HeaderSize + PointerSize < nbytes <= Int32Max
    ensures Wellformed(q)
    ensures q.initialSize == p.initialSize && q.subsequentBlockSize == p.subsequentBlockSize
    ensures 0 < |q.chains| <= MaxNumBlocks
    ensures q.chains[|q.chains| - 1][0] == FreshBlock(address, nbytes)
    ensures AddressBag(q.chains) == AddressBag(p.chains) + multiset{address}
  {
    var newBlock := FreshBlock(address, nbytes);
    var q :=
      if |p.chains| == MaxNumBlocks then
        p.(chains := Evict(p.chains, SmallestIndex(BlockSizes(p)), newBlock))
      else if |p.chains| == 1 && BlockSizes(p)[0] < BlockCutOffPointBytes then
        p.(chains := Evict(p.chains, 0, newBlock))
      else
        p.(chains := p.chains + [[newBlock]]);
    CreateKeepsBlocks(p, newBlock, q);
    q
  }

  /**
   * The index CreateAnotherBlock takes out of the table to become the new
   * block's tail, or -1 when the new block has none.
   */
  function EvictedIndex(p: Pool): (k: int)
    requires Wellformed(p)
    ensures -1 <= k < |p.chains|
    ensures k == -1 <==> |p.chains| < MaxNumBlocks && !(|p.chains| == 1 && BlockSizes(p)[0] < BlockCutOffPointBytes)
  {
    if |p.chains| == MaxNumBlocks then SmallestIndex(BlockSizes(p))
    else if |p.chains| == 1 && BlockSizes(p)[0] < BlockCutOffPointBytes then 0
    else -1
  }

  /** The rows that stay in the table when row k (if any) is taken out. */
  function Kept<T>(s: seq<T>, k: int): (r: seq<T>)
    requires -1 <= k < |s|
    ensures |r| == if k == -1 then |s| else |s| - 1
  {
    if k == -1 then s else RemoveAt(s, k)
  }

  /** The chain that becomes a new block's tail: chain k, or none. */
  function TailAt<T>(cs: seq<seq<T>>, k: int): seq<T>
    requires -1 <= k < |cs|
  {
    if k == -1 then [] else cs[k]
  }

  /** CreateAnotherBlock in one shape: the kept chains, then the new block heading the evicted chain. */
  lemma CreateAnotherBlockShape(p: Pool, nbytes: int, address: nat)
    requires Wellformed(p) && HeaderSize + PointerSize < nbytes <= Int32Max
    ensures CreateAnotherBlock(p, nbytes, address).chains
      == Kept(p.chains, EvictedIndex(p)) + [[FreshBlock(address, nbytes)] + TailAt(p.chains, EvictedIndex(p))]
  {
    var k := EvictedIndex(p);
    var x := FreshBlock(address, nbytes);
    if k == -1 {
      assert [x] + TailAt(p.chains, k) == [x];
    } else {
      assert CreateAnotherBlock(p, nbytes, address).chains == Evict(p.chains, k, x);
    }
  }

  /** A block at an address the pool does not own keeps the pool valid. */
  lemma CreateAnotherBlockValid(p: Pool, nbytes: int, address: nat)
    requires Valid(p) && HeaderSize + PointerSize < nbytes <= Int32Max && AddressBag(p.chains)[address] == 0
    ensures Valid(CreateAnotherBlock(p, nbytes, address))
  {
    var q := CreateAnotherBlock(p, nbytes, address);
    forall a
      ensures AddressBag(q.chains)[a] <= 1
    {
      assert AddressBag(q.chains)[a] == AddressBag(p.chains)[a] + multiset{address}[a];
    }
  }

  /** The cached sizes lose entry k and gain the new block's, last. */
  lemma CreateAnotherBlockSizes(p: Pool, nbytes: int, address: nat)
    requires Wellformed(p) && HeaderSize + PointerSize < nbytes <= Int32Max
    ensures BlockSizes(CreateAnotherBlock(p, nbytes, address))
      == Kept(BlockSizes(p), EvictedIndex(p)) + [NumBytesLeft(FreshBlock(address, nbytes))]
  {
    CreateAnotherBlockShape(p, nbytes, address);
    KeptPushSizes(p, CreateAnotherBlock(p, nbytes, address), EvictedIndex(p), FreshBlock(address, nbytes));
  }

  /** The cached sizes of the chains kept, followed by a new chain headed by x. */
  lemma KeptPushSizes(p: Pool, q: Pool, k: int, x: BlockState)
    requires Wellformed(p) && Wellformed(q) && -1 <= k < |p.chains| && Invariant(x)
    requires q.chains == Kept(p.chains, k) + [[x] + TailAt(p.chains, k)]
    ensures BlockSizes(q) == Kept(BlockSizes(p), k) + [NumBytesLeft(x)]
  {
    var s, t := BlockSizes(q), Kept(BlockSizes(p), k) + [NumBytesLeft(x)];
    forall i | 0 <= i < |s|
      ensures s[i] == t[i]
    {
      if i < |s| - 1 {
        assert q.chains[i] == Kept(p.chains, k)[i];
      }
    }
  }

  lemma CreateKeepsBlocks(p: Pool, newBlock: BlockState, q: Pool)
    requires Wellformed(p) && Invariant(newBlock)
    requires q.initialSize == p.initialSize && q.subsequentBlockSize == p.subsequentBlockSize
    requires q.chains == (
      if |p.chains| == MaxNumBlocks then Evict(p.chains, SmallestIndex(BlockSizes(p)), newBlock)
      else if |p.chains| == 1 && BlockSizes(p)[0] < BlockCutOffPointBytes then Evict(p.chains, 0, newBlock)
      else p.chains + [[newBlock]])
    ensures Wellformed(q)
    ensures AddressBag(q.chains) == AddressBag(p.chains) + multiset{newBlock.address}
  {
    if |p.chains| == MaxNumBlocks {
      EvictAddsBlock(p.chains, SmallestIndex(BlockSizes(p)), newBlock);
      EvictWellformed(p.chains, SmallestIndex(BlockSizes(p)), newBlock);
    } else if |p.chains| == 1 && BlockSizes(p)[0] < BlockCutOffPointBytes {
      EvictAddsBlock(p.chains, 0, newBlock);
      EvictWellformed(p.chains, 0, newBlock);
    } else {
      AppendWellformed(p.chains, newBlock);
      AppendAddsChain(p.chains, [newBlock]);
      ChainBagCons(newBlock, []);
      assert [newBlock] == [newBlock] + [];
    }
  }

  /** What CreateAnotherBlock keeps and what it puts where. */
  lemma CreateAnotherBlockTail(p: Pool, nbytes: int, address: nat)
    requires Wellformed(p) && HeaderSize + PointerSize < nbytes <= Int32Max
    ensures var q := CreateAnotherBlock(p, nbytes, address);
      var k := SmallestIndex(BlockSizes(p));
      && (|p.chains| == MaxNumBlocks ==>
            |q.chains| == MaxNumBlocks
            && q.chains[MaxNumBlocks - 1] == [FreshBlock(address, nbytes)] + p.chains[k]
            && q.chains[..MaxNumBlocks - 1] == RemoveAt(p.chains, k))
      && (|p.chains| == 1 && BlockSizes(p)[0] < BlockCutOffPointBytes ==>
            q.chains == [[FreshBlock(address, nbytes)] + p.chains[0]])
      && (|p.chains| < MaxNumBlocks && !(|p.chains| == 1 && BlockSizes(p)[0] < BlockCutOffPointBytes) ==>
            q.chains == p.chains + [[FreshBlock(address, nbytes)]])
  {
  }

  /**
   * Replacing an active block by a state of the same block keeps the pool
   * valid; only that block's cached size changes.
   */
  lemma ReplaceHeadValid(p: Pool, idx: nat, b: BlockState)
    requires Valid(p) && idx < |p.chains| && Invariant(b) && b.address == p.chains[idx][0].address
    ensures var q := p.(chains := p.chains[idx := [b] + p.chains[idx][1..]]);
      Valid(q) && BlockSizes(q) == BlockSizes(p)[idx := NumBytesLeft(b)]
  {
    var cs := p.chains[idx := [b] + p.chains[idx][1..]];
    var q := p.(chains := cs);
    ReplaceHeadKeepsBlocks(p.chains, idx, b);
    ReplaceHeadSizes(p, idx, b);
    assert DistinctAddresses(cs);
  }

  /** Replacing an active block changes only that block's cached size. */
  lemma ReplaceHeadSizes(p: Pool, idx: nat, b: BlockState)
    requires Wellformed(p) && idx < |p.chains| && Invariant(b)
    ensures var q := p.(chains := p.chains[idx := [b] + p.chains[idx][1..]]);
      Wellformed(q) && BlockSizes(q) == BlockSizes(p)[idx := NumBytesLeft(b)]
  {
    var q := p.(chains := p.chains[idx := [b] + p.chains[idx][1..]]);
    ReplaceHeadWellformed(p.chains, idx, b);
    forall i | 0 <= i < |q.chains|
      ensures BlockSizes(q)[i] == BlockSizes(p)[idx := NumBytesLeft(b)][i]
    {
    }
  }

  /** Replacing a chain's head by a block that keeps its invariant keeps every chain well formed. */
  lemma ReplaceHeadWellformed(cs: seq<seq<BlockState>>, idx: nat, b: BlockState)
    requires ChainsWellformed(cs) && idx < |cs| && Invariant(b)
    ensures ChainsWellformed(cs[idx := [b] + cs[idx][1..]])
  {
    var r := cs[idx := [b] + cs[idx][1..]];
    forall i, j | 0 <= i < |r| && 0 <= j < |r[i]|
      ensures Invariant(r[i][j])
    {
      if i == idx && j > 0 {
        assert r[i][j] == cs[idx][j];
      }
    }
  }

  /** Where row i of a retired table comes from. */
  lemma RetireAt<T>(cs: seq<seq<T>>, idx: nat, i: nat)
    requires 1 < |cs| && idx < |cs| && i < |cs| - 1
    ensures var src := if i < idx then i else i + 1;
      Retire(cs, idx)[i] == if src == ParentIdx(|cs|, idx) then cs[src] + cs[idx] else cs[src]
  {
  }

  /** Every element of a row of a retired table was an element of some row before. */
  lemma RetireElement(cs: seq<seq<BlockState>>, idx: nat, i: nat, j: nat)
    requires 1 < |cs| && idx < |cs| && i < |cs| - 1 && j < |Retire(cs, idx)[i]|
    ensures exists k, l :: 0 <= k < |cs| && 0 <= l < |cs[k]| && Retire(cs, idx)[i][j] == cs[k][l]
  {
    var src := if i < idx then i else i + 1;
    RetireAt(cs, idx, i);
    if src == ParentIdx(|cs|, idx) && j >= |cs[src]| {
      assert Retire(cs, idx)[i][j] == cs[idx][j - |cs[src]|];
    } else {
      assert Retire(cs, idx)[i][j] == cs[src][j];
    }
  }

  lemma RetireWellformed(cs: seq<seq<BlockState>>, idx: nat)
    requires ChainsWellformed(cs) && 1 < |cs| && idx < |cs|
    ensures ChainsWellformed(Retire(cs, idx))
    ensures forall i :: 0 <= i < |cs| - 1 ==> Retire(cs, idx)[i][0] == RemoveAt(cs, idx)[i][0]
  {
    var r := Retire(cs, idx);
    forall i | 0 <= i < |r|
      ensures |r[i]| > 0 && r[i][0] == RemoveAt(cs, idx)[i][0]
    {
      RetireAt(cs, idx, i);
    }
    forall i, j | 0 <= i < |r| && 0 <= j < |r[i]|
      ensures Invariant(r[i][j])
    {
      RetireElement(cs, idx, i, j);
    }
  }

  /**
   * Retiring chain idx keeps the pool valid; the cached sizes lose entry
   * idx and keep the others in order.
   */
  lemma RetireValid(p: Pool, idx: nat)
    requires Valid(p) && 1 < |p.chains| && idx < |p.chains|
    ensures var q := p.(chains := Retire(p.chains, idx));
      Valid(q) && BlockSizes(q) == RemoveAt(BlockSizes(p), idx)
  {
    RetireWellformed(p.chains, idx);
    RetireKeepsBlocks(p.chains, idx);
  }

  /** The heads of a retired table are the heads of the others, in order. */
  lemma RetireHeads<T>(cs: seq<seq<T>>, idx: nat)
    requires 1 < |cs| && idx < |cs| && forall i :: 0 <= i < |cs| ==> |cs[i]| > 0
    ensures forall i :: 0 <= i < |cs| - 1 ==>
      |Retire(cs, idx)[i]| > 0 && Retire(cs, idx)[i][0] == RemoveAt(cs, idx)[i][0]
  {
    forall i | 0 <= i < |cs| - 1
      ensures |Retire(cs, idx)[i]| > 0 && Retire(cs, idx)[i][0] == RemoveAt(cs, idx)[i][0]
    {
      RetireAt(cs, idx, i);
    }
  }

  /**
   * The tables' Use (BlockAllocator.h:462-486): carve from active block idx;
   * on success refresh its size and, with more than one block active and at
   * most the cutoff left, retire it onto its parent chain.
   */
  function UseBlock(p: Pool, idx: nat, size: int, alignment: int, managed: bool): (r: (Option<nat>, Pool))
    requires Wellformed(p) && idx < |p.chains| && 0 < size <= MaxRequest && 0 < alignment <= MaxAlignment
    ensures Wellformed(r.1)
    ensures r.1.initialSize == p.initialSize && r.1.subsequentBlockSize == p.subsequentBlockSize
    ensures r.0 == TryUse(p.chains[idx][0], size, alignment, managed).0
    ensures r.0.None? ==> r.1 == p
    ensures AddressBag(r.1.chains) == AddressBag(p.chains)
  {
    var (mem, b) := TryUse(p.chains[idx][0], size, alignment, managed);
    if mem.None? then (mem, p)
    else
      var cs := p.chains[idx := [b] + p.chains[idx][1..]];
      ReplaceHeadKeepsBlocks(p.chains, idx, b);
      ReplaceHeadWellformed(p.chains, idx, b);
      if |cs| > 1 && NumBytesLeft(b) <= BlockCutOffPointBytes then
        RetireWellformed(cs, idx);
        RetireKeepsBlocks(cs, idx);
        (mem, p.(chains := Retire(cs, idx)))
      else
        (mem, p.(chains := cs))
  }

  /** Whether the bytes [mem, mem + size) were carved from block b. */
  ghost predicate CarvedFrom(b: BlockState, mem: nat, size: int)
  {
    BeginBytePtr(b) <= mem && mem + size <= b.ptr
  }

  /** UseBlock spelled out: the head replaced, then Retire when the cutoff is reached. */
  lemma UseBlockShape(p: Pool, idx: nat, size: int, alignment: int, managed: bool)
    requires Wellformed(p) && idx < |p.chains| && 0 < size <= MaxRequest && 0 < alignment <= MaxAlignment
    requires TryUse(p.chains[idx][0], size, alignment, managed).0.Some?
    ensures var b := TryUse(p.chains[idx][0], size, alignment, managed).1;
      var cs := p.chains[idx := [b] + p.chains[idx][1..]];
      UseBlock(p, idx, size, alignment, managed).1.chains
        == if |cs| > 1 && NumBytesLeft(b) <= BlockCutOffPointBytes then Retire(cs, idx) else cs
  {
  }

  /**
   * After a successful Use the block either keeps its index, still heading
   * its chain, or is retired: it is then no longer active, has at most the
   * cutoff left and sits on its parent's chain.  Either way the pool still
   * owns it, exactly once when the pool had no duplicates.
   */
  lemma UseBlockKeepsBlock(p: Pool, idx: nat, size: int, alignment: int, managed: bool)
    requires Wellformed(p) && idx < |p.chains| && 0 < size <= MaxRequest && 0 < alignment <= MaxAlignment
    requires UseBlock(p, idx, size, alignment, managed).0.Some?
    ensures var (mem, q) := UseBlock(p, idx, size, alignment, managed);
      var b := TryUse(p.chains[idx][0], size, alignment, managed).1;
      && CarvedFrom(b, mem.value, size)
      && (Valid(p) ==> Valid(q))
      && ((|q.chains| == |p.chains| && q.chains[idx][0] == b)
         || (|q.chains| == |p.chains| - 1 && NumBytesLeft(b) <= BlockCutOffPointBytes
             && var pi := ParentIdx(|p.chains|, idx);
                var qi := if pi < idx then pi else pi - 1;
                q.chains[qi] == p.chains[pi] + [b] + p.chains[idx][1..]))
  {
    var r := UseBlock(p, idx, size, alignment, managed);
    var q := r.1;
    var b := TryUse(p.chains[idx][0], size, alignment, managed).1;
    var cs := p.chains[idx := [b] + p.chains[idx][1..]];
    UseBlockShape(p, idx, size, alignment, managed);
    if |cs| > 1 && NumBytesLeft(b) <= BlockCutOffPointBytes {
      var pi := ParentIdx(|p.chains|, idx);
      var qi := if pi < idx then pi else pi - 1;
      RetireAt(cs, idx, qi);
      assert q.chains[qi] == cs[pi] + cs[idx];
      assert cs[pi] + cs[idx] == p.chains[pi] + [b] + p.chains[idx][1..];
    }
    assert AddressBag(q.chains) == AddressBag(p.chains);
  }

  /** A managed Use leaves room for the object's slot in the block it carved. */
  lemma ManagedUseCanRegister(b: BlockState, size: int, alignment: int)
    requires Invariant(b) && 0 < size <= MaxRequest && 0 < alignment <= MaxAlignment
    requires TryUse(b, size, alignment, true).0.Some?
    ensures CanRegister(TryUse(b, size, alignment, true).1)
  {
  }

  /** The cached sizes after a Use that retires the block: the others, in order. */
  lemma RetiredSizes(p: Pool, idx: nat, size: int, alignment: int, managed: bool)
    requires Wellformed(p) && idx < |p.chains| && 0 < size <= MaxRequest && 0 < alignment <= MaxAlignment
    requires TryUse(p.chains[idx][0], size, alignment, managed).0.Some?
    requires |p.chains| > 1 && NumBytesLeft(TryUse(p.chains[idx][0], size, alignment, managed).1) <= BlockCutOffPointBytes
    ensures var q := UseBlock(p, idx, size, alignment, managed).1;
      && |q.chains| == |p.chains| - 1
      && forall i :: 0 <= i < |q.chains| ==> BlockSizes(q)[i] == BlockSizes(p)[if i < idx then i else i + 1]
  {
    var q := UseBlock(p, idx, size, alignment, managed).1;
    var b := TryUse(p.chains[idx][0], size, alignment, managed).1;
    var cs := p.chains[idx := [b] + p.chains[idx][1..]];
    UseBlockShape(p, idx, size, alignment, managed);
    forall i | 0 <= i < |q.chains|
      ensures BlockSizes(q)[i] == BlockSizes(p)[if i < idx then i else i + 1]
    {
      RetireAt(cs, idx, i);
    }
  }

  /** The cached sizes after a Use that keeps the block active: only its own shrinks. */
  lemma KeptSizes(p: Pool, idx: nat, size: int, alignment: int, managed: bool)
    requires Wellformed(p) && idx < |p.chains| && 0 < size <= MaxRequest && 0 < alignment <= MaxAlignment
    requires TryUse(p.chains[idx][0], size, alignment, managed).0.Some?
    requires !(|p.chains| > 1 && NumBytesLeft(TryUse(p.chains[idx][0], size, alignment, managed).1) <= BlockCutOffPointBytes)
    ensures var q := UseBlock(p, idx, size, alignment, managed).1;
      var b := TryUse(p.chains[idx][0], size, alignment, managed).1;
      && |q.chains| == |p.chains|
      && BlockSizes(q)[idx] == NumBytesLeft(b)
      && forall i :: 0 <= i < |q.chains| && i != idx ==> BlockSizes(q)[i] == BlockSizes(p)[i]
  {
    var q := UseBlock(p, idx, size, alignment, managed).1;
    UseBlockShape(p, idx, size, alignment, managed);
    forall i | 0 <= i < |q.chains| && i != idx
      ensures BlockSizes(q)[i] == BlockSizes(p)[i]
    {
      assert q.chains[i] == p.chains[i];
    }
  }

  /** Use keeps the stated cutoff clause. */
  lemma UseBlockAboveCutoff(p: Pool, idx: nat, size: int, alignment: int, managed: bool)
    requires Wellformed(p) && idx < |p.chains| && 0 < size <= MaxRequest && 0 < alignment <= MaxAlignment
    requires AboveCutoff(p)
    ensures AboveCutoff(UseBlock(p, idx, size, alignment, managed).1)
  {
    var r := TryUse(p.chains[idx][0], size, alignment, managed);
    if r.0.Some? {
      if |p.chains| > 1 && NumBytesLeft(r.1) <= BlockCutOffPointBytes {
        RetiredSizes(p, idx, size, alignment, managed);
      } else {
        KeptSizes(p, idx, size, alignment, managed);
      }
    }
  }

  /** Use keeps the weaker cutoff clause. */
  lemma UseBlockAtLeastCutoff(p: Pool, idx: nat, size: int, alignment: int, managed: bool)
    requires Wellformed(p) && idx < |p.chains| && 0 < size <= MaxRequest && 0 < alignment <= MaxAlignment
    requires AtLeastCutoff(p)
    ensures AtLeastCutoff(UseBlock(p, idx, size, alignment, managed).1)
  {
    var r := TryUse(p.chains[idx][0], size, alignment, managed);
    if r.0.Some? {
      if |p.chains| > 1 && NumBytesLeft(r.1) <= BlockCutOffPointBytes {
        RetiredSizes(p, idx, size, alignment, managed);
      } else {
        KeptSizes(p, idx, size, alignment, managed);
      }
    }
  }

  /** A block is passed over by the scan: its cached size is too small or Use fails. */
  predicate Skipped(p: Pool, k: nat, size: int, alignment: int, managed: bool)
    requires Wellformed(p) && k < |p.chains| && 0 < size <= MaxRequest && 0 < alignment <= MaxAlignment
  {
    BlockSizes(p)[k] < size + ManagedOverhead(managed)
    || TryUse(p.chains[k][0], size, alignment, managed).0.None?
  }

  /**
   * The first-fit loop of _Allocate from index from on: the index of the
   * first block that is not skipped, if any.  _Allocate then takes its
   * memory from that block.
   */
  function Scan(p: Pool, from: nat, size: int, alignment: int, managed: bool): (r: Option<nat>)
    requires Wellformed(p) && from <= |p.chains| && 0 < size <= MaxRequest && 0 < alignment <= MaxAlignment
    ensures r.Some? ==> from <= r.value < |p.chains| && !Skipped(p, r.value, size, alignment, managed)
    decreases |p.chains| - from
  {
    if from == |p.chains| then None
    else if !Skipped(p, from, size, alignment, managed) then
      Some(from)
    else
      Scan(p, from + 1, size, alignment, managed)
  }

  /** Scan finds nothing exactly when every block from index from on is skipped. */
  lemma {:induction false} ScanFindsNothing(p: Pool, from: nat, size: int, alignment: int, managed: bool)
    requires Wellformed(p) && from <= |p.chains| && 0 < size <= MaxRequest && 0 < alignment <= MaxAlignment
    ensures Scan(p, from, size, alignment, managed).None? <==>
      forall k :: from <= k < |p.chains| ==> Skipped(p, k, size, alignment, managed)
    decreases |p.chains| - from
  {
    if from < |p.chains| && Skipped(p, from, size, alignment, managed) {
      ScanFindsNothing(p, from + 1, size, alignment, managed);
    }
  }

  /** Scan is first fit: every block before the one it finds is skipped. */
  lemma {:induction false} ScanFindsFirst(p: Pool, from: nat, size: int, alignment: int, managed: bool, k: nat)
    requires Wellformed(p) && from <= |p.chains| && 0 < size <= MaxRequest && 0 < alignment <= MaxAlignment
    requires Scan(p, from, size, alignment, managed).Some? && from <= k < Scan(p, from, size, alignment, managed).value
    ensures Skipped(p, k, size, alignment, managed)
    decreases k - from
  {
    if k > from {
      ScanFindsFirst(p, from + 1, size, alignment, managed, k);
    }
  }

  /** The result of _Allocate: bad_alloc from malloc, or the address, the index it reports and the new pool. */
  datatype Allocation = OutOfMemory | Allocated(mem: Option<nat>, blockIdx: nat, pool: Pool)

  /** The pool _Allocate scans: p itself, or p with its first block when it had none. */
  function ScannedPool(p: Pool, managed: bool, size: int, alignment: int, address: nat): (p1: Pool)
    requires Wellformed(p) && 0 < size <= MaxRequest && 0 < alignment <= MaxAlignment
    ensures Wellformed(p1) && ((|p1.chains| > 0 && (|p.chains| > 0 ==> p1 == p)) || (|p.chains| == 0 && p1 == p))
  {
    if |p.chains| == 0 && address != 0 then CreateAnotherBlock(p, NextBlockSize(p, size, alignment, managed), address)
    else p
  }

  /**
   * _Allocate(manage, size, alignment): address is what malloc returns if
   * the call needs a new block (0 = NULL); at most one block is created.
   */
  function Allocate(p: Pool, managed: bool, size: int, alignment: int, address: nat): (r: Allocation)
    requires Wellformed(p) && 0 < size <= MaxRequest && 0 < alignment <= MaxAlignment
    ensures r.Allocated? ==> Wellformed(r.pool)
  {
    if |p.chains| == 0 && address == 0 then OutOfMemory
    else AllocateFrom(ScannedPool(p, managed, size, alignment, address), managed, size, alignment, address)
  }

  /**
   * The rest of _Allocate once the pool is scanned: the first block that
   * serves the request, else a new block big enough for it.
   */
  function AllocateFrom(p1: Pool, managed: bool, size: int, alignment: int, address: nat): (r: Allocation)
    requires Wellformed(p1) && 0 < size <= MaxRequest && 0 < alignment <= MaxAlignment
    ensures r.Allocated? ==> Wellformed(r.pool)
  {
    var found := Scan(p1, 0, size, alignment, managed);
    if found.Some? then
      var (mem, q) := UseBlock(p1, found.value, size, alignment, managed);
      Allocated(mem, found.value, q)
    else if address == 0 then OutOfMemory
    else
      var p3 := CreateAnotherBlock(p1, NextBlockSize(p1, size, alignment, managed), address);
      var (mem, q) := UseBlock(p3, |p3.chains| - 1, size, alignment, managed);
      Allocated(mem, |p3.chains| - 1, q)
  }

  /** A freshly created first block serves the request that caused it. */
  lemma FirstBlockServes(p: Pool, managed: bool, size: int, alignment: int, address: nat)
    requires Wellformed(p) && 0 < size <= MaxRequest && 0 < alignment <= MaxAlignment
    requires |p.chains| == 0 && address != 0
    ensures Scan(ScannedPool(p, managed, size, alignment, address), 0, size, alignment, managed).Some?
  {
    var p1 := ScannedPool(p, managed, size, alignment, address);
    FreshBlockFits(p, address, size, alignment, managed);
    assert !Skipped(p1, 0, size, alignment, managed);
  }

  /** What the scan-then-create part of _Allocate hands back: memory carved from the block it reports or from a retired one. */
  lemma AllocateFromCarved(p1: Pool, managed: bool, size: int, alignment: int, address: nat)
    requires Wellformed(p1) && 0 < size <= MaxRequest && 0 < alignment <= MaxAlignment
    requires AllocateFrom(p1, managed, size, alignment, address).Allocated?
    ensures var r := AllocateFrom(p1, managed, size, alignment, address);
      && r.mem.Some?
      && ((r.blockIdx < |r.pool.chains| && CarvedFrom(r.pool.chains[r.blockIdx][0], r.mem.value, size)
           && (managed ==> CanRegister(r.pool.chains[r.blockIdx][0])))
          || CarvedFromRetired(r.pool, r.mem.value, size))
  {
    var found := Scan(p1, 0, size, alignment, managed);
    if found.Some? {
      UseBlockCarved(p1, found.value, size, alignment, managed);
    } else {
      var p3 := CreateAnotherBlock(p1, NextBlockSize(p1, size, alignment, managed), address);
      FreshBlockFits(p1, address, size, alignment, managed);
      UseBlockCarved(p3, |p3.chains| - 1, size, alignment, managed);
    }
  }

  /** The allocator's assertion that _Allocate never returns NULL (BlockAllocator.h:258). */
  lemma AllocateNeverNull(p: Pool, managed: bool, size: int, alignment: int, address: nat)
    requires Wellformed(p) && 0 < size <= MaxRequest && 0 < alignment <= MaxAlignment
    ensures Allocate(p, managed, size, alignment, address).Allocated? ==>
      Allocate(p, managed, size, alignment, address).mem.Some?
  {
    if Allocate(p, managed, size, alignment, address).Allocated? {
      AllocateFromCarved(ScannedPool(p, managed, size, alignment, address), managed, size, alignment, address);
    }
  }

  /** The scan-then-create part of _Allocate fails only without memory, keeps the pool valid and adds at most one block. */
  lemma AllocateFromKeepsBlocks(p1: Pool, managed: bool, size: int, alignment: int, address: nat)
    requires Valid(p1) && 0 < size <= MaxRequest && 0 < alignment <= MaxAlignment
    requires address == 0 || Scan(p1, 0, size, alignment, managed).Some? || address !in AddressBag(p1.chains)
    ensures var r := AllocateFrom(p1, managed, size, alignment, address);
      && (r.OutOfMemory? ==> address == 0)
      && (r.Allocated? ==>
            && Valid(r.pool)
            && r.pool.initialSize == p1.initialSize && r.pool.subsequentBlockSize == p1.subsequentBlockSize
            && AddressBag(p1.chains) <= AddressBag(r.pool.chains) <= AddressBag(p1.chains) + multiset{address})
  {
    var found := Scan(p1, 0, size, alignment, managed);
    var r := AllocateFrom(p1, managed, size, alignment, address);
    if found.Some? {
      var u := UseBlock(p1, found.value, size, alignment, managed);
      assert r == Allocated(u.0, found.value, u.1);
      assert AddressBag(u.1.chains) == AddressBag(p1.chains);
    } else if address != 0 {
      var p3 := CreateAnotherBlock(p1, NextBlockSize(p1, size, alignment, managed), address);
      CreateAnotherBlockValid(p1, NextBlockSize(p1, size, alignment, managed), address);
      var u := UseBlock(p3, |p3.chains| - 1, size, alignment, managed);
      assert r == Allocated(u.0, |p3.chains| - 1, u.1);
      assert AddressBag(u.1.chains) == AddressBag(p1.chains) + multiset{address};
    }
  }

  /**
   * _Allocate fails only when malloc does, and then nothing changes; it
   * loses no block and adds at most the one malloc returned.
   */
  lemma AllocateKeepsBlocks(p: Pool, managed: bool, size: int, alignment: int, address: nat)
    requires Valid(p) && 0 < size <= MaxRequest && 0 < alignment <= MaxAlignment
    requires address == 0 || address !in AddressBag(p.chains)
    ensures var r := Allocate(p, managed, size, alignment, address);
      && (r.OutOfMemory? ==> address == 0)
      && (r.Allocated? ==>
            && Valid(r.pool)
            && r.pool.initialSize == p.initialSize && r.pool.subsequentBlockSize == p.subsequentBlockSize
            && AddressBag(p.chains) <= AddressBag(r.pool.chains) <= AddressBag(p.chains) + multiset{address})
  {
    if !(|p.chains| == 0 && address == 0) {
      var p1 := ScannedPool(p, managed, size, alignment, address);
      assert Valid(p1) && AddressBag(p.chains) <= AddressBag(p1.chains) <= AddressBag(p.chains) + multiset{address} by {
        if |p.chains| == 0 {
          assert AddressBag(p.chains) == multiset{};
          assert AddressBag(p1.chains) == multiset{address};
        }
      }
      if |p.chains| == 0 {
        FirstBlockServes(p, managed, size, alignment, address);
      }
      AllocateFromKeepsBlocks(p1, managed, size, alignment, address);
    }
  }

  /** The block holding [mem, mem + size) has been retired: it is on some chain past its head. */
  ghost predicate CarvedFromRetired(q: Pool, mem: nat, size: int)
  {
    exists i, j :: 0 <= i < |q.chains| && 0 < j < |q.chains[i]|
      && CarvedFrom(q.chains[i][j], mem, size) && Invariant(q.chains[i][j])
      && NumBytesLeft(q.chains[i][j]) <= BlockCutOffPointBytes
  }

  /** After a successful Use, the carved block is the head at idx or it has been retired. */
  lemma UseBlockCarved(p: Pool, idx: nat, size: int, alignment: int, managed: bool)
    requires Wellformed(p) && idx < |p.chains| && 0 < size <= MaxRequest && 0 < alignment <= MaxAlignment
    requires UseBlock(p, idx, size, alignment, managed).0.Some?
    ensures var (mem, q) := UseBlock(p, idx, size, alignment, managed);
      (idx < |q.chains| && CarvedFrom(q.chains[idx][0], mem.value, size)
        && (managed ==> CanRegister(q.chains[idx][0])))
      || CarvedFromRetired(q, mem.value, size)
  {
    var (mem, q) := UseBlock(p, idx, size, alignment, managed);
    var b := TryUse(p.chains[idx][0], size, alignment, managed).1;
    UseBlockKeepsBlock(p, idx, size, alignment, managed);
    if managed {
      ManagedUseCanRegister(p.chains[idx][0], size, alignment);
    }
    if !(|q.chains| == |p.chains| && q.chains[idx][0] == b) {
      var pi := ParentIdx(|p.chains|, idx);
      var qi := if pi < idx then pi else pi - 1;
      var j := |p.chains[pi]|;
      assert q.chains[qi][j] == b;
      assert CarvedFromRetired(q, mem.value, size);
    }
  }

  /**
   * The index _Allocate reports names the block the memory came from,
   * unless that block was retired by the same call: then the index is
   * stale (it may even equal the new number of active blocks).  When it
   * is not, a managed request left room there for the object's slot.
   */
  lemma AllocateIndexOrRetired(p: Pool, managed: bool, size: int, alignment: int, address: nat)
    requires Wellformed(p) && 0 < size <= MaxRequest && 0 < alignment <= MaxAlignment
    requires Allocate(p, managed, size, alignment, address).Allocated?
    ensures var r := Allocate(p, managed, size, alignment, address);
      && r.mem.Some?
      && ((r.blockIdx < |r.pool.chains| && CarvedFrom(r.pool.chains[r.blockIdx][0], r.mem.value, size)
           && (managed ==> CanRegister(r.pool.chains[r.blockIdx][0])))
          || CarvedFromRetired(r.pool, r.mem.value, size))
  {
    AllocateFromCarved(ScannedPool(p, managed, size, alignment, address), managed, size, alignment, address);
  }

  /** The scan-then-create part of _Allocate keeps the weaker cutoff clause. */
  lemma AllocateFromAtLeastCutoff(p1: Pool, managed: bool, size: int, alignment: int, address: nat)
    requires Wellformed(p1) && 0 < size <= MaxRequest && 0 < alignment <= MaxAlignment
    requires AtLeastCutoff(p1)
    ensures AllocateFrom(p1, managed, size, alignment, address).Allocated? ==>
      AtLeastCutoff(AllocateFrom(p1, managed, size, alignment, address).pool)
  {
    var found := Scan(p1, 0, size, alignment, managed);
    if found.Some? {
      UseBlockAtLeastCutoff(p1, found.value, size, alignment, managed);
    } else if address != 0 {
      var p3 := CreateAnotherBlock(p1, NextBlockSize(p1, size, alignment, managed), address);
      CreateAtLeastCutoff(p1, NextBlockSize(p1, size, alignment, managed), address);
      UseBlockAtLeastCutoff(p3, |p3.chains| - 1, size, alignment, managed);
    }
  }

  /** _Allocate keeps the weaker cutoff clause: no active block below the cutoff. */
  lemma AllocateAtLeastCutoff(p: Pool, managed: bool, size: int, alignment: int, address: nat)
    requires Wellformed(p) && 0 < size <= MaxRequest && 0 < alignment <= MaxAlignment
    requires AtLeastCutoff(p)
    ensures Allocate(p, managed, size, alignment, address).Allocated? ==>
      AtLeastCutoff(Allocate(p, managed, size, alignment, address).pool)
  {
    if !(|p.chains| == 0 && address == 0) {
      CreateAtLeastCutoff(p, NextBlockSize(p, size, alignment, managed), address);
      AllocateFromAtLeastCutoff(ScannedPool(p, managed, size, alignment, address), managed, size, alignment, address);
    }
  }

  /**
   * A new block (at least the minimum configured size) keeps the weaker
   * cutoff clause, and the stated one unless a lone block sits exactly at
   * the cutoff.
   */
  lemma CreateAtLeastCutoff(p: Pool, nbytes: int, address: nat)
    requires Wellformed(p) && MinConfiguredSize <= nbytes <= Int32Max
    ensures var q := CreateAnotherBlock(p, nbytes, address);
      && (AtLeastCutoff(p) ==> AtLeastCutoff(q))
      && (AboveCutoff(p) && !(|p.chains| == 1 && BlockSizes(p)[0] == BlockCutOffPointBytes) ==> AboveCutoff(q))
  {
    var q := CreateAnotherBlock(p, nbytes, address);
    forall i | 0 <= i < |q.chains| - 1
      ensures BlockSizes(q)[i] in BlockSizes(p)
    {
      if |p.chains| == MaxNumBlocks {
        var k := SmallestIndex(BlockSizes(p));
        assert q.chains[i] == RemoveAt(p.chains, k)[i];
        assert BlockSizes(q)[i] == BlockSizes(p)[if i < k then i else i + 1];
      } else {
        assert q.chains[i] == p.chains[i];
        assert BlockSizes(q)[i] == BlockSizes(p)[i];
      }
    }
  }

  /** ManageObjectDestruction on the tables: register obj in active block idx. */
  function ManageObjectDestruction(p: Pool, idx: nat, obj: ObjId): (q: Pool)
    requires Wellformed(p) && idx < |p.chains| && CanRegister(p.chains[idx][0])
    ensures Wellformed(q) && AddressBag(q.chains) == AddressBag(p.chains)
    ensures |q.chains| == |p.chains| && q.chains[idx][0] == Registered(p.chains[idx][0], obj)
    ensures BlockSizes(q) == BlockSizes(p)[idx := BlockSizes(p)[idx] - PointerSize]
  {
    var b := Registered(p.chains[idx][0], obj);
    var q := p.(chains := p.chains[idx := [b] + p.chains[idx][1..]]);
    ReplaceHeadKeepsBlocks(p.chains, idx, b);
    ReplaceHeadSizes(p, idx, b);
    assert NumBytesLeft(b) == BlockSizes(p)[idx] - PointerSize;
    q
  }

  // ---------------------------------------------------------------------
  // Clear: what happens to the blocks and the objects in them.

  datatype Event = Destructed(obj: ObjId) | Freed(address: nat)

  /** The destructor calls for a block's registry, oldest registration first. */
  function Destructions(objs: seq<ObjId>): (r: seq<Event>)
    ensures |r| == |objs|
    ensures forall k :: 0 <= k < |objs| ==> r[k] == Destructed(objs[k])
  {
    if objs == [] then [] else [Destructed(objs[0])] + Destructions(objs[1..])
  }

  /** DeleteBlock's work on one block: its objects' destructors, then free. */
  function BlockTeardown(b: BlockState): seq<Event>
  {
    Destructions(b.registry) + [Freed(b.address)]
  }

  /** DeleteBlock on a chain, from its head down. */
  function ChainTeardown(c: seq<BlockState>): seq<Event>
  {
    if c == [] then [] else BlockTeardown(c[0]) + ChainTeardown(c[1..])
  }

  /** DeleteBlock's loop builds the trace block by block: one more block appends its teardown. */
  lemma {:induction false} ChainTeardownSnoc(c: seq<BlockState>, j: nat)
    requires j < |c|
    ensures ChainTeardown(c[..j + 1]) == ChainTeardown(c[..j]) + BlockTeardown(c[j])
  {
    if j == 0 {
      assert c[..1][1..] == [];
    } else {
      assert c[..j + 1][1..] == c[1..][..j];
      assert c[..j][1..] == c[1..][..j - 1];
      ChainTeardownSnoc(c[1..], j - 1);
    }
  }

  /** Clear's trace: every chain, active index 0 first. */
  function PoolTeardown(cs: seq<seq<BlockState>>): seq<Event>
  {
    if cs == [] then [] else ChainTeardown(cs[0]) + PoolTeardown(cs[1..])
  }

  /** Clear's loop builds the trace chain by chain: one more chain appends its teardown. */
  lemma {:induction false} PoolTeardownSnoc(cs: seq<seq<BlockState>>, i: nat)
    requires i < |cs|
    ensures PoolTeardown(cs[..i + 1]) == PoolTeardown(cs[..i]) + ChainTeardown(cs[i])
  {
    if i == 0 {
      assert cs[..1][1..] == [];
    } else {
      assert cs[..i + 1][1..] == cs[1..][..i];
      assert cs[..i][1..] == cs[1..][..i - 1];
      PoolTeardownSnoc(cs[1..], i - 1);
    }
  }

  /** The addresses freed in a trace. */
  function FreedBag(trace: seq<Event>): multiset<nat>
  {
    if trace == [] then multiset{}
    else (if trace[0].Freed? then multiset{trace[0].address} else multiset{}) + FreedBag(trace[1..])
  }

  lemma {:induction false} FreedBagConcat(a: seq<Event>, b: seq<Event>)
    ensures FreedBag(a + b) == FreedBag(a) + FreedBag(b)
  {
    if a == [] {
      assert a + b == b;
    } else {
      assert (a + b)[1..] == a[1..] + b;
      FreedBagConcat(a[1..], b);
    }
  }

  lemma {:induction false} DestructionsFreeNothing(objs: seq<ObjId>)
    ensures FreedBag(Destructions(objs)) == multiset{}
  {
    if objs != [] {
      assert Destructions(objs)[1..] == Destructions(objs[1..]);
      DestructionsFreeNothing(objs[1..]);
    }
  }

  lemma {:induction false} ChainTeardownFrees(c: seq<BlockState>)
    ensures FreedBag(ChainTeardown(c)) == ChainBag(c)
  {
    if c != [] {
      FreedBagConcat(BlockTeardown(c[0]), ChainTeardown(c[1..]));
      FreedBagConcat(Destructions(c[0].registry), [Freed(c[0].address)]);
      DestructionsFreeNothing(c[0].registry);
      assert FreedBag([Freed(c[0].address)]) == multiset{c[0].address} by {
        assert [Freed(c[0].address)][1..] == [];
      }
      ChainTeardownFrees(c[1..]);
    }
  }

  /** Clear frees exactly the blocks the pool owns, active and retired alike. */
  lemma {:induction false} TeardownFreesOwnedBlocks(cs: seq<seq<BlockState>>)
    ensures FreedBag(PoolTeardown(cs)) == AddressBag(cs)
  {
    if cs != [] {
      FreedBagConcat(ChainTeardown(cs[0]), PoolTeardown(cs[1..]));
      ChainTeardownFrees(cs[0]);
      TeardownFreesOwnedBlocks(cs[1..]);
    }
  }

  /** In a valid pool every owned block is freed exactly once, and nothing else is. */
  lemma TeardownFreesEachBlockOnce(p: Pool)
    requires Valid(p)
    ensures forall a :: FreedBag(PoolTeardown(p.chains))[a] == (if a in AddressBag(p.chains) then 1 else 0)
  {
    TeardownFreesOwnedBlocks(p.chains);
  }

  // ---------------------------------------------------------------------
  // Which objects the pool has registered, and which ones Clear destroys.

  /** The objects registered in the blocks of one chain, with multiplicity. */
  function ChainRegistries(c: seq<BlockState>): multiset<ObjId>
  {
    if c == [] then multiset{} else multiset(c[0].registry) + ChainRegistries(c[1..])
  }

  /** The objects registered anywhere in the pool, active blocks and retired ones. */
  function PoolRegistries(cs: seq<seq<BlockState>>): multiset<ObjId>
  {
    if cs == [] then multiset{} else ChainRegistries(cs[0]) + PoolRegistries(cs[1..])
  }

  /** The objects whose destructor a trace runs, with multiplicity. */
  function DestroyedBag(trace: seq<Event>): multiset<ObjId>
  {
    if trace == [] then multiset{}
    else (if trace[0].Destructed? then multiset{trace[0].obj} else multiset{}) + DestroyedBag(trace[1..])
  }

  /** An object is in a trace's destroyed bag exactly when the trace destructs it. */
  lemma {:induction false} DestroyedBagHas(trace: seq<Event>, o: ObjId)
    ensures o in DestroyedBag(trace) <==> Destructed(o) in trace
  {
    if trace != [] {
      DestroyedBagHas(trace[1..], o);
      assert trace == [trace[0]] + trace[1..];
    }
  }

  lemma {:induction false} DestroyedBagConcat(a: seq<Event>, b: seq<Event>)
    ensures DestroyedBag(a + b) == DestroyedBag(a) + DestroyedBag(b)
  {
    if a == [] {
      assert a + b == b;
    } else {
      assert (a + b)[1..] == a[1..] + b;
      DestroyedBagConcat(a[1..], b);
    }
  }

  /** A block's destructor calls run each registered object's destructor once per registration. */
  lemma {:induction false} DestructionsDestroy(objs: seq<ObjId>)
    ensures DestroyedBag(Destructions(objs)) == multiset(objs)
  {
    if objs != [] {
      assert Destructions(objs)[1..] == Destructions(objs[1..]);
      DestructionsDestroy(objs[1..]);
      assert objs == [objs[0]] + objs[1..];
    }
  }

  lemma {:induction false} ChainTeardownDestroys(c: seq<BlockState>)
    ensures DestroyedBag(ChainTeardown(c)) == ChainRegistries(c)
  {
    if c != [] {
      DestroyedBagConcat(BlockTeardown(c[0]), ChainTeardown(c[1..]));
      DestroyedBagConcat(Destructions(c[0].registry), [Freed(c[0].address)]);
      DestructionsDestroy(c[0].registry);
      assert DestroyedBag([Freed(c[0].address)]) == multiset{} by {
        assert [Freed(c[0].address)][1..] == [];
      }
      ChainTeardownDestroys(c[1..]);
    }
  }

  /**
   * Clear destroys exactly the objects registered in the pool, each once
   * per registration, retired blocks included.
   */
  lemma {:induction false} TeardownDestroysRegistered(cs: seq<seq<BlockState>>)
    ensures DestroyedBag(PoolTeardown(cs)) == PoolRegistries(cs)
  {
    if cs != [] {
      DestroyedBagConcat(ChainTeardown(cs[0]), PoolTeardown(cs[1..]));
      ChainTeardownDestroys(cs[0]);
      TeardownDestroysRegistered(cs[1..]);
    }
  }

  lemma {:induction false} PoolRegistriesConcat(a: seq<seq<BlockState>>, b: seq<seq<BlockState>>)
    ensures PoolRegistries(a + b) == PoolRegistries(a) + PoolRegistries(b)
  {
    if a == [] {
      assert a + b == b;
    } else {
      assert (a + b)[1..] == a[1..] + b;
      PoolRegistriesConcat(a[1..], b);
    }
  }

  /** Replacing chain i changes the pool's registrations by exactly the two chains' registrations. */
  lemma PoolRegistriesUpdate(cs: seq<seq<BlockState>>, i: nat, c: seq<BlockState>)
    requires i < |cs|
    ensures PoolRegistries(cs[i := c]) + ChainRegistries(cs[i]) == PoolRegistries(cs) + ChainRegistries(c)
  {
    var ds := cs[i := c];
    SplitAt(cs, i);
    SplitAt(ds, i);
    assert ds[..i] == cs[..i] && ds[i + 1..] == cs[i + 1..];
    PoolRegistriesConcat(cs[..i], [cs[i]] + cs[i + 1..]);
    PoolRegistriesConcat(ds[..i], [c] + cs[i + 1..]);
    assert ([cs[i]] + cs[i + 1..])[1..] == cs[i + 1..];
    assert ([c] + cs[i + 1..])[1..] == cs[i + 1..];
  }

  /** A chain whose head gains one registration gains exactly that object. */
  lemma HeadRegistersObject(c: seq<BlockState>, b: BlockState, obj: ObjId)
    requires |c| > 0 && b.registry == c[0].registry + [obj]
    ensures ChainRegistries([b] + c[1..]) == ChainRegistries(c) + multiset{obj}
  {
    assert ([b] + c[1..])[1..] == c[1..];
    assert multiset(b.registry) == multiset(c[0].registry) + multiset{obj};
  }

  /** Registering obj adds exactly that one registration to the pool. */
  lemma RegisterAddsObject(p: Pool, idx: nat, obj: ObjId)
    requires Wellformed(p) && idx < |p.chains| && CanRegister(p.chains[idx][0])
    ensures PoolRegistries(ManageObjectDestruction(p, idx, obj).chains) == PoolRegistries(p.chains) + multiset{obj}
  {
    var b := Registered(p.chains[idx][0], obj);
    var c := [b] + p.chains[idx][1..];
    var q := ManageObjectDestruction(p, idx, obj);
    assert q.chains == p.chains[idx := c];
    PoolRegistriesUpdate(p.chains, idx, c);
    HeadRegistersObject(p.chains[idx], b, obj);
    MultisetCancel(PoolRegistries(q.chains), PoolRegistries(p.chains) + multiset{obj}, ChainRegistries(p.chains[idx]));
  }
}
