/**
 * The heap side of the block allocator: active blocks in the table
 * arrays, the chains of blocks behind them through previous links, and
 * the pool value those blocks hold.  The table operations here work on
 * the arrays and blocks the allocator passes in.
 */
module BlockTables {
  import opened Wrappers
  import opened PsyncLib
  import opened ManagedMemoryBlock
  import opened BlockPool

  /** Every block on every chain. */
  ghost function Objects(chains: seq<seq<MemoryBlock>>): set<MemoryBlock>
  {
    set i, j | 0 <= i < |chains| && 0 <= j < |chains[i]| :: chains[i][j]
  }

  /** Every chain is linked as listed. */
  ghost predicate Linked(chains: seq<seq<MemoryBlock>>)
    reads Objects(chains)`previous
  {
    forall i :: 0 <= i < |chains| ==> IsChain(chains[i])
  }

  /** The blocks of every chain hold the states cs lists. */
  ghost predicate Holds(chains: seq<seq<MemoryBlock>>, cs: seq<seq<BlockState>>)
    reads Objects(chains)`ptr, Objects(chains)`registry
  {
    |chains| == |cs| && forall i :: 0 <= i < |chains| ==> ChainStates(chains[i]) == cs[i]
  }

  /** The heap holds the pool value cs: each chain is linked as listed and its blocks hold cs's states. */
  ghost predicate Mirrors(chains: seq<seq<MemoryBlock>>, cs: seq<seq<BlockState>>)
    reads Objects(chains)`previous, Objects(chains)`ptr, Objects(chains)`registry
  {
    Linked(chains) && Holds(chains, cs)
  }

  /** The table holds the head of every chain, in order. */
  ghost predicate Heads(blocks: array<MemoryBlock?>, chains: seq<seq<MemoryBlock>>)
    reads blocks
  {
    |chains| <= blocks.Length && forall i :: 0 <= i < |chains| ==> |chains[i]| > 0 && blocks[i] == chains[i][0]
  }

  /**
   * The allocator's state as a value: the arrays hold the heads of the
   * chains and their cached sizes, and the heap holds the valid pool p.
   */
  ghost predicate Table(blocks: array<MemoryBlock?>, sizes: array<int>, n: nat, chains: seq<seq<MemoryBlock>>, p: Pool)
    reads blocks, sizes, Objects(chains)
  {
    && blocks.Length == MaxNumBlocks && sizes.Length == MaxNumBlocks
    && Mirrors(chains, p.chains)
    && BlockPool.Valid(p)
    && n == |chains|
    && Heads(blocks, chains)
    && sizes[..n] == BlockSizes(p)
  }

  /** Block j of chain i. */
  ghost function At(chains: seq<seq<MemoryBlock>>, i: nat, j: nat): MemoryBlock
    requires i < |chains| && j < |chains[i]|
  {
    chains[i][j]
  }

  /**
   * No block object occurs at two positions.  The quantifier fires only on
   * At terms, so the fact stays quiet where no positions are named.
   */
  ghost predicate Separate(chains: seq<seq<MemoryBlock>>)
  {
    forall i: nat, j: nat, k: nat, l: nat {:trigger At(chains, i, j), At(chains, k, l)} ::
      (i < |chains| && j < |chains[i]| && k < |chains| && l < |chains[k]| && (i != k || j != l))
      ==> At(chains, i, j) != At(chains, k, l)
  }

  /** Blocks at distinct addresses are distinct objects. */
  lemma MirrorsSeparate(chains: seq<seq<MemoryBlock>>, cs: seq<seq<BlockState>>)
    requires Mirrors(chains, cs) && DistinctAddresses(cs)
    ensures Separate(chains)
  {
    forall i, j, k, l |
      0 <= i < |chains| && 0 <= j < |chains[i]| && 0 <= k < |chains| && 0 <= l < |chains[k]|
      && (i != k || j != l)
      ensures At(chains, i, j) != At(chains, k, l)
    {
      ChainStatesAt(chains[i], j);
      ChainStatesAt(chains[k], l);
      NotAliased(cs, i, j, k, l);
    }
  }

  lemma {:induction false} ChainStatesConcat(a: seq<MemoryBlock>, b: seq<MemoryBlock>)
    ensures ChainStates(a + b) == ChainStates(a) + ChainStates(b)
  {
    if a == [] {
      assert a + b == b;
    } else {
      assert (a + b)[1..] == a[1..] + b;
      ChainStatesConcat(a[1..], b);
    }
  }

  /** A chain whose last block is linked to the head of another chain. */
  lemma LinkedChains(a: seq<MemoryBlock>, b: seq<MemoryBlock>)
    requires |a| > 0 && IsChain(b) && Links(a + [b[0]])
    ensures IsChain(a + b)
  {
    forall j | 0 <= j < |a + b| - 1
      ensures (a + b)[j].previous == (a + b)[j + 1]
    {
      if j < |a| {
        assert (a + [b[0]])[j] == a[j];
        assert (a + [b[0]])[j + 1] == (a + b)[j + 1];
      } else {
        assert (a + b)[j] == b[j - |a|];
      }
    }
  }

  /** A new block linked to the head of its tail chain, or to nothing. */
  lemma ConsChain(x: MemoryBlock, tail: seq<MemoryBlock>)
    requires (tail == [] && x.previous == null) || (IsChain(tail) && x.previous == tail[0])
    ensures IsChain([x] + tail)
  {
    forall j | 0 <= j < |tail|
      ensures ([x] + tail)[j].previous == ([x] + tail)[j + 1]
    {
    }
  }

  /**
   * After HoldOntoBlock linked chain idx behind its parent, retiring it on
   * both sides keeps the heap and the value in step.
   */
  lemma MirrorsRetire(chains: seq<seq<MemoryBlock>>, cs: seq<seq<BlockState>>, idx: nat)
    requires 1 < |chains| == |cs| && idx < |chains|
    requires forall i :: 0 <= i < |chains| ==> ChainStates(chains[i]) == cs[i]
    requires forall i :: 0 <= i < |chains| && i != ParentIdx(|chains|, idx) ==> IsChain(chains[i])
    requires IsChain(chains[ParentIdx(|chains|, idx)] + chains[idx])
    ensures Mirrors(Retire(chains, idx), Retire(cs, idx))
  {
    var r := Retire(chains, idx);
    forall i | 0 <= i < |r|
      ensures IsChain(r[i]) && ChainStates(r[i]) == Retire(cs, idx)[i]
    {
      RetireAt(chains, idx, i);
      RetireAt(cs, idx, i);
      var src := if i < idx then i else i + 1;
      ChainStatesConcat(chains[src], chains[idx]);
    }
  }

  /** Retiring a chain keeps the set of blocks. */
  lemma ObjectsRetire(chains: seq<seq<MemoryBlock>>, idx: nat)
    requires 1 < |chains| && idx < |chains|
    ensures Objects(Retire(chains, idx)) == Objects(chains)
  {
    var r := Retire(chains, idx);
    var p := ParentIdx(|chains|, idx);
    forall o | o in Objects(r)
      ensures o in Objects(chains)
    {
      var i, j :| 0 <= i < |r| && 0 <= j < |r[i]| && r[i][j] == o;
      RetireAt(chains, idx, i);
      var src := if i < idx then i else i + 1;
      if src == p && j >= |chains[src]| {
        assert o == chains[idx][j - |chains[src]|];
      } else {
        assert o == chains[src][j];
      }
    }
    forall o | o in Objects(chains)
      ensures o in Objects(r)
    {
      var i, j :| 0 <= i < |chains| && 0 <= j < |chains[i]| && chains[i][j] == o;
      var pi := if p < idx then p else p - 1;
      if i == idx {
        RetireAt(chains, idx, pi);
        assert r[pi][|chains[p]| + j] == o;
      } else {
        var ri := if i < idx then i else i - 1;
        RetireAt(chains, idx, ri);
        assert r[ri][j] == o;
      }
    }
  }

  /**
   * Block idx's Use followed by UpdateBlockSize, seen from the chains: only
   * entry idx of the value and of the cached sizes changes.
   */
  method UseInChains(b: MemoryBlock, sizes: array<int>, idx: nat, ghost chains: seq<seq<MemoryBlock>>,
                     ghost cs: seq<seq<BlockState>>, size: int, alignment: int, managed: bool)
    returns (mem: Option<nat>)
    requires idx < |chains| && idx < sizes.Length && |chains[idx]| > 0 && chains[idx][0] == b
    requires Separate(chains) && Mirrors(chains, cs) && Invariant(b.State())
    requires 0 < size <= MaxRequest && 0 < alignment <= MaxAlignment
    modifies b`ptr, sizes
    ensures (mem, b.State()) == TryUse(old(b.State()), size, alignment, managed)
    ensures Mirrors(chains, cs[idx := [b.State()] + cs[idx][1..]])
    ensures sizes[..] == old(sizes[..])[idx := NumBytesLeft(b.State())]
  {
    mem := b.Use(size, alignment, managed);
    assert Linked(chains);
    forall i | 0 <= i < |chains|
      ensures ChainStates(chains[i]) == cs[idx := [b.State()] + cs[idx][1..]][i]
    {
      assert old(ChainStates(chains[i])) == cs[i];
      forall j | 0 <= j < |chains[i]| && (i != idx || j != 0)
        ensures chains[i][j] != b
      {
        assert At(chains, i, j) != At(chains, idx, 0);
      }
    }
    sizes[idx] := NumBytesLeft(b.State());
  }

  /**
   * RemoveBlock: close the gap at idx in the first n entries of both
   * tables (the caller then decrements m_NumBlocks).
   */
  method RemoveBlock(blocks: array<MemoryBlock?>, sizes: array<int>, n: nat, idx: nat)
    requires idx < n <= blocks.Length && n <= sizes.Length
    modifies blocks, sizes
    ensures blocks[..n - 1] == RemoveAt(old(blocks[..n]), idx)
    ensures sizes[..n - 1] == RemoveAt(old(sizes[..n]), idx)
  {
    ghost var b0, s0 := blocks[..], sizes[..];
    if idx != n - 1 {
      ShiftLeft(blocks, n, idx + 1);
      ShiftLeft(sizes, n, idx + 1);
      ShiftedLeftRemoves(b0, n, idx);
      ShiftedLeftRemoves(s0, n, idx);
      assert blocks[..n - 1] == blocks[..][..n - 1];
      assert sizes[..n - 1] == sizes[..][..n - 1];
    } else {
      assert b0[..n][..n - 1] == b0[..n - 1];
      assert s0[..n][..n - 1] == s0[..n - 1];
    }
    assert old(blocks[..n]) == b0[..n] && old(sizes[..n]) == s0[..n];
  }

  /**
   * HoldOntoBlock: attach block idx to the end of the chain of block
   * idx + 1, or of block 0 when idx is the last.  Only the old end of that
   * chain changes: it now links to block idx, so the heap holds the pool
   * with chain idx retired behind its parent.
   */
  method HoldOntoBlock(parent: MemoryBlock, b: MemoryBlock, n: nat, idx: nat, blocks: array<MemoryBlock?>,
                       ghost chains: seq<seq<MemoryBlock>>, ghost cs: seq<seq<BlockState>>)
    requires 1 < n == |chains| && idx < n && Separate(chains) && Mirrors(chains, cs)
    requires forall i :: 0 <= i < n ==> |chains[i]| > 0
    requires parent == chains[ParentIdx(n, idx)][0] && b == chains[idx][0]
    modifies (chains[ParentIdx(n, idx)][|chains[ParentIdx(n, idx)]| - 1] as MemoryBlock)`previous
    ensures Mirrors(Retire(chains, idx), Retire(cs, idx)) && unchanged(blocks)
  {
    var p := ParentIdx(n, idx);
    ghost var last := |chains[p]| - 1;
    forall i, j | 0 <= i < n && 0 <= j < |chains[i]| && (i != p || j != last)
      ensures chains[i][j] != chains[p][last]
    {
      assert At(chains, i, j) != At(chains, p, last);
    }
    parent.ChainAttachBlock(b, chains[p]);
    LinkedChains(chains[p], chains[idx]);
    MirrorsRetire(chains, cs, idx);
  }

  /**
   * RemoveBlock(idx) seen from the chains: the table then holds the heads
   * of the other chains, in order.
   */
  method RemoveHead(blocks: array<MemoryBlock?>, sizes: array<int>, n: nat, idx: nat,
                    ghost chains: seq<seq<MemoryBlock>>, ghost cs: seq<seq<BlockState>>)
    requires n == |chains| <= blocks.Length && n <= sizes.Length && idx < n
    requires Heads(blocks, chains) && Mirrors(chains, cs)
    modifies blocks, sizes
    ensures Heads(blocks, RemoveAt(chains, idx)) && Mirrors(chains, cs)
    ensures sizes[..n - 1] == RemoveAt(old(sizes[..n]), idx)
  {
    RemoveBlock(blocks, sizes, n, idx);
    forall i | 0 <= i < n - 1
      ensures |RemoveAt(chains, idx)[i]| > 0 && blocks[i] == RemoveAt(chains, idx)[i][0]
    {
      var src := if i < idx then i else i + 1;
      calc {
        blocks[i];
        blocks[..n - 1][i];
        RemoveAt(old(blocks[..n]), idx)[i];
        old(blocks[src]);
        chains[src][0];
        RemoveAt(chains, idx)[i][0];
      }
    }
    assert Heads(blocks, RemoveAt(chains, idx));
  }

  /** RemoveBlock(idx) before chain idx is retired: the table holds the heads of the retired table. */
  method CompactTables(blocks: array<MemoryBlock?>, sizes: array<int>, n: nat, idx: nat,
                       ghost chains: seq<seq<MemoryBlock>>, ghost cs: seq<seq<BlockState>>)
    requires 1 < n == |chains| <= blocks.Length && n <= sizes.Length && idx < n
    requires Heads(blocks, chains) && Mirrors(chains, cs)
    modifies blocks, sizes
    ensures Heads(blocks, Retire(chains, idx)) && Mirrors(chains, cs)
    ensures sizes[..n - 1] == RemoveAt(old(sizes[..n]), idx)
  {
    RemoveHead(blocks, sizes, n, idx, chains, cs);
    RetireHeads(chains, idx);
    assert Heads(blocks, Retire(chains, idx));
  }

  /**
   * The end of CreateAnotherBlock: the new block takes the next free slot
   * of both tables, with its cached size.
   */
  method PushHead(blocks: array<MemoryBlock?>, sizes: array<int>, n: nat, previousBlock: MemoryBlock?,
                  nbytes: int, address: nat, ghost chains: seq<seq<MemoryBlock>>, ghost tail: seq<MemoryBlock>,
                  ghost mc: seq<seq<MemoryBlock>>, ghost ms: seq<seq<BlockState>>)
    returns (b: MemoryBlock)
    requires n == |chains| < blocks.Length && n < sizes.Length
    requires Heads(blocks, chains) && Mirrors(mc, ms)
    requires HeaderSize + PointerSize < nbytes <= Int32Max
    modifies blocks, sizes
    ensures fresh(b) && b.State() == FreshBlock(address, nbytes) && b.previous == previousBlock
    ensures Heads(blocks, chains + [[b] + tail]) && Mirrors(mc, ms)
    ensures sizes[..n + 1] == old(sizes[..n]) + [NumBytesLeft(FreshBlock(address, nbytes))]
  {
    b := new MemoryBlock(previousBlock, nbytes, address);
    assert Mirrors(mc, ms);
    blocks[n] := b;
    sizes[n] := NumBytesLeft(b.State());
    assert sizes[..n + 1] == sizes[..n] + [sizes[n]];
    assert Heads(blocks, chains + [[b] + tail]);
  }

  /** Taking chain k (if any) out of the table keeps the others mirrored. */
  lemma MirrorsKept(chains: seq<seq<MemoryBlock>>, cs: seq<seq<BlockState>>, k: int)
    requires Mirrors(chains, cs) && -1 <= k < |chains|
    ensures Mirrors(Kept(chains, k), Kept(cs, k))
    ensures IsChain(TailAt(chains, k)) || TailAt(chains, k) == []
    ensures ChainStates(TailAt(chains, k)) == TailAt(cs, k)
  {
    if k != -1 {
      var r, rs := RemoveAt(chains, k), RemoveAt(cs, k);
      forall i | 0 <= i < |r|
        ensures IsChain(r[i]) && ChainStates(r[i]) == rs[i]
      {
        var src := if i < k then i else i + 1;
        assert r[i] == chains[src] && rs[i] == cs[src];
      }
      assert Linked(r);
    }
  }

  /** A new block heading a linked tail, appended to mirrored chains, is mirrored by its state. */
  lemma MirrorsPush(chains: seq<seq<MemoryBlock>>, cs: seq<seq<BlockState>>, b: MemoryBlock,
                    x: BlockState, tail: seq<MemoryBlock>, ts: seq<BlockState>)
    requires Mirrors(chains, cs) && b.State() == x && ChainStates(tail) == ts
    requires (tail == [] && b.previous == null) || (IsChain(tail) && b.previous == tail[0])
    ensures Mirrors(chains + [[b] + tail], cs + [[x] + ts])
  {
    var r, rs := chains + [[b] + tail], cs + [[x] + ts];
    ConsChain(b, tail);
    ChainStatesConcat([b], tail);
    forall i | 0 <= i < |r|
      ensures IsChain(r[i]) && ChainStates(r[i]) == rs[i]
    {
      if i < |chains| {
        assert r[i] == chains[i] && rs[i] == cs[i];
      }
    }
    assert Linked(r);
  }

  /** The heap after CreateAnotherBlock's table work mirrors the pool's new chains. */
  lemma MirrorsInstall(chains: seq<seq<MemoryBlock>>, cs: seq<seq<BlockState>>, k: int, b: MemoryBlock, x: BlockState)
    requires Mirrors(chains, cs) && -1 <= k < |chains| && b.State() == x
    requires b.previous == if k == -1 then null else chains[k][0]
    ensures Mirrors(Kept(chains, k) + [[b] + TailAt(chains, k)], Kept(cs, k) + [[x] + TailAt(cs, k)])
  {
    MirrorsKept(chains, cs, k);
    MirrorsPush(Kept(chains, k), Kept(cs, k), b, x, TailAt(chains, k), TailAt(cs, k));
  }

  /** The blocks after CreateAnotherBlock: the old ones and the new one. */
  lemma ObjectsAdded(chains: seq<seq<MemoryBlock>>, k: int, b: MemoryBlock)
    requires -1 <= k < |chains|
    ensures Objects(Kept(chains, k) + [[b] + TailAt(chains, k)]) == Objects(chains) + {b}
  {
    ObjectsAddedWithin(chains, k, b);
    ObjectsAddedKeeps(chains, k, b);
  }

  /** Every block after CreateAnotherBlock was there before or is the new one. */
  lemma ObjectsAddedWithin(chains: seq<seq<MemoryBlock>>, k: int, b: MemoryBlock)
    requires -1 <= k < |chains|
    ensures Objects(Kept(chains, k) + [[b] + TailAt(chains, k)]) <= Objects(chains) + {b}
  {
    var r := Kept(chains, k) + [[b] + TailAt(chains, k)];
    var last := |r| - 1;
    forall o | o in Objects(r)
      ensures o in Objects(chains) + {b}
    {
      var i, j :| 0 <= i < |r| && 0 <= j < |r[i]| && r[i][j] == o;
      if i < last {
        var src := if k == -1 || i < k then i else i + 1;
        assert r[i] == chains[src];
      } else if j > 0 {
        assert o == chains[k][j - 1];
      }
    }
  }

  /** CreateAnotherBlock loses no block and holds the new one. */
  lemma ObjectsAddedKeeps(chains: seq<seq<MemoryBlock>>, k: int, b: MemoryBlock)
    requires -1 <= k < |chains|
    ensures Objects(chains) + {b} <= Objects(Kept(chains, k) + [[b] + TailAt(chains, k)])
  {
    var kept := Kept(chains, k);
    var r := kept + [[b] + TailAt(chains, k)];
    var last := |kept|;
    assert r[last] == [b] + TailAt(chains, k);
    forall o | o in Objects(chains)
      ensures o in Objects(r)
    {
      var i, j :| 0 <= i < |chains| && 0 <= j < |chains[i]| && chains[i][j] == o;
      if i == k {
        assert r[last][j + 1] == o;
      } else {
        var ri := if k == -1 || i < k then i else i - 1;
        assert kept[ri] == chains[i];
        assert r[ri] == kept[ri];
        assert r[ri][j] == o;
      }
    }
    assert r[last][0] == b;
  }

  /** The start of CreateAnotherBlock's table work: take chain k (if any) out of the table. */
  method DetachChain(blocks: array<MemoryBlock?>, sizes: array<int>, n: nat, k: int,
                     ghost chains: seq<seq<MemoryBlock>>, ghost cs: seq<seq<BlockState>>)
    returns (previousBlock: MemoryBlock?, m: nat)
    requires n == |chains| <= blocks.Length <= sizes.Length && -1 <= k < n
    requires Heads(blocks, chains) && Mirrors(chains, cs)
    modifies blocks, sizes
    ensures m == |Kept(chains, k)| && previousBlock == if k == -1 then null else chains[k][0]
    ensures Heads(blocks, Kept(chains, k)) && Mirrors(chains, cs)
    ensures sizes[..m] == Kept(old(sizes[..n]), k)
  {
    previousBlock, m := null, n;
    if k != -1 {
      previousBlock := blocks[k];
      RemoveHead(blocks, sizes, n, k, chains, cs);
      m := n - 1;
    }
  }

  /**
   * The table work of CreateAnotherBlock after malloc: take chain k (if
   * any) out of the table, construct the new block with it as tail, and
   * put the new block last.
   */
  method InstallBlock(blocks: array<MemoryBlock?>, sizes: array<int>, n: nat, k: int, nbytes: int, address: nat,
                      ghost chains: seq<seq<MemoryBlock>>, ghost cs: seq<seq<BlockState>>)
    returns (b: MemoryBlock)
    requires n == |chains| <= blocks.Length <= sizes.Length && -1 <= k < n && (k == -1 ==> n < blocks.Length)
    requires Heads(blocks, chains) && Mirrors(chains, cs)
    requires HeaderSize + PointerSize < nbytes <= Int32Max
    modifies blocks, sizes
    ensures fresh(b) && b.State() == FreshBlock(address, nbytes)
    ensures Heads(blocks, Kept(chains, k) + [[b] + TailAt(chains, k)])
    ensures Mirrors(Kept(chains, k) + [[b] + TailAt(chains, k)],
                    Kept(cs, k) + [[FreshBlock(address, nbytes)] + TailAt(cs, k)])
    ensures sizes[..|Kept(chains, k)| + 1] == Kept(old(sizes[..n]), k) + [NumBytesLeft(FreshBlock(address, nbytes))]
  {
    var previousBlock, m := DetachChain(blocks, sizes, n, k, chains, cs);
    b := PushHead(blocks, sizes, m, previousBlock, nbytes, address, Kept(chains, k), TailAt(chains, k), chains, cs);
    MirrorsInstall(chains, cs, k, b, FreshBlock(address, nbytes));
  }

  /**
   * CreateAnotherBlock on the tables: the block k the pool gives up (if
   * any) becomes the tail of a new block at address, which goes last.
   */
  method AddBlock(blocks: array<MemoryBlock?>, sizes: array<int>, n: nat, k: int, nbytes: int, address: nat,
                  ghost chains: seq<seq<MemoryBlock>>, ghost p: Pool)
    returns (b: MemoryBlock, ghost c: seq<seq<MemoryBlock>>, m: nat, ghost q: Pool)
    requires Table(blocks, sizes, n, chains, p) && k == EvictedIndex(p)
    requires HeaderSize + PointerSize < nbytes <= Int32Max && AddressBag(p.chains)[address] == 0
    modifies blocks, sizes
    ensures fresh(b) && Objects(c) == Objects(chains) + {b}
    ensures q == BlockPool.CreateAnotherBlock(p, nbytes, address) && Table(blocks, sizes, m, c, q)
    ensures q.initialSize == p.initialSize && q.subsequentBlockSize == p.subsequentBlockSize
  {
    q := BlockPool.CreateAnotherBlock(p, nbytes, address);
    CreateAnotherBlockShape(p, nbytes, address);
    CreateAnotherBlockValid(p, nbytes, address);
    CreateAnotherBlockSizes(p, nbytes, address);
    b := InstallBlock(blocks, sizes, n, k, nbytes, address, chains, p.chains);
    c := Kept(chains, k) + [[b] + TailAt(chains, k)];
    m := if k == -1 then n + 1 else n;
    ObjectsAdded(chains, k, b);
  }

  /**
   * HoldOntoBlock(idx) then RemoveBlock(idx): block idx leaves the tables
   * and stays reachable behind its parent.  The two steps touch disjoint
   * state, so the tables are compacted first.
   */
  method RetireFromTable(blocks: array<MemoryBlock?>, sizes: array<int>, n: nat, idx: nat,
                         ghost chains: seq<seq<MemoryBlock>>, ghost cs: seq<seq<BlockState>>)
    requires 1 < n == |chains| <= blocks.Length && n <= sizes.Length && idx < n
    requires DistinctAddresses(cs) && Mirrors(chains, cs)
    requires Heads(blocks, chains)
    modifies blocks, sizes, (chains[ParentIdx(n, idx)][|chains[ParentIdx(n, idx)]| - 1] as MemoryBlock)`previous
    ensures Mirrors(Retire(chains, idx), Retire(cs, idx))
    ensures Heads(blocks, Retire(chains, idx))
    ensures sizes[..n - 1] == RemoveAt(old(sizes[..n]), idx)
  {
    MirrorsSeparate(chains, cs);
    var parent := blocks[ParentIdx(n, idx)];
    var b := blocks[idx];
    CompactTables(blocks, sizes, n, idx, chains, cs);
    HoldOntoBlock(parent, b, n, idx, blocks, chains, cs);
  }

  /** RetireFromTable seen from the table: the pool's Retire, over the same blocks. */
  method RetireTable(blocks: array<MemoryBlock?>, sizes: array<int>, n: nat, idx: nat,
                     ghost chains: seq<seq<MemoryBlock>>, ghost p: Pool)
    requires Table(blocks, sizes, n, chains, p) && 1 < n && idx < n
    modifies blocks, sizes, Objects(chains)`previous
    ensures Table(blocks, sizes, n - 1, Retire(chains, idx), p.(chains := Retire(p.chains, idx)))
    ensures Objects(Retire(chains, idx)) == Objects(chains)
  {
    ghost var s0 := sizes[..n];
    RetireFromTable(blocks, sizes, n, idx, chains, p.chains);
    RetireValid(p, idx);
    ObjectsRetire(chains, idx);
    assert sizes[..n - 1] == RemoveAt(s0, idx);
  }

  /**
   * ManageObjectDestruction then UpdateBlockSize on block idx, seen from
   * the chains: only entry idx of the value and of the cached sizes changes.
   */
  method RegisterInChains(b: MemoryBlock, sizes: array<int>, idx: nat, ghost chains: seq<seq<MemoryBlock>>,
                          ghost cs: seq<seq<BlockState>>, obj: ObjId)
    requires idx < |chains| && idx < sizes.Length && |chains[idx]| > 0 && chains[idx][0] == b
    requires Separate(chains) && Mirrors(chains, cs) && CanRegister(b.State())
    modifies b`registry, sizes
    ensures b.State() == Registered(old(b.State()), obj)
    ensures Mirrors(chains, cs[idx := [b.State()] + cs[idx][1..]])
    ensures sizes[..] == old(sizes[..])[idx := NumBytesLeft(b.State())]
  {
    b.ManageObjectDestruction(obj);
    assert Linked(chains);
    forall i | 0 <= i < |chains|
      ensures ChainStates(chains[i]) == cs[idx := [b.State()] + cs[idx][1..]][i]
    {
      assert old(ChainStates(chains[i])) == cs[i];
      forall j | 0 <= j < |chains[i]| && (i != idx || j != 0)
        ensures chains[i][j] != b
      {
        assert At(chains, i, j) != At(chains, idx, 0);
      }
    }
    sizes[idx] := NumBytesLeft(b.State());
  }

  /** The blocks of one chain, as a set. */
  ghost function Members(chain: seq<MemoryBlock>): set<MemoryBlock>
  {
    set j | 0 <= j < |chain| :: chain[j]
  }

  /** One step of DeleteBlock: the block's destructor, then free. */
  method DestroyAndFree(b: MemoryBlock) returns (t: seq<Event>)
    requires Invariant(b.State())
    modifies b`registry
    ensures t == BlockTeardown(old(b.State())) && b.registry == []
  {
    var destroyed := b.DestroyManagedObjects();
    t := Destructions(destroyed) + [Freed(b.address)];
  }

  /**
   * DeleteBlock: walk the chain from block down the previous links; for
   * each block, read its previous link, run its destructor (the managed
   * objects' destructors, oldest registration first) and free its memory.
   * The trace lists those effects in order.
   */
  method DeleteBlock(block: MemoryBlock, ghost chain: seq<MemoryBlock>) returns (trace: seq<Event>)
    requires IsChain(chain) && chain[0] == block
    requires forall j, k :: 0 <= j < k < |chain| ==> chain[j] != chain[k]
    requires forall j :: 0 <= j < |chain| ==> Invariant(chain[j].State())
    modifies Members(chain)`registry
    ensures trace == ChainTeardown(old(ChainStates(chain)))
    ensures forall j :: 0 <= j < |chain| ==> chain[j].registry == []
  {
    ghost var states := ChainStates(chain);
    forall j | 0 <= j < |chain|
      ensures chain[j].State() == states[j]
    {
      ChainStatesAt(chain, j);
    }
    var pblock: MemoryBlock? := block;
    trace := [];
    ghost var j := 0;
    assert states[..0] == [];
    while pblock != null
      invariant 0 <= j <= |chain| && IsChain(chain)
      invariant pblock == if j < |chain| then chain[j] else null
      invariant trace == ChainTeardown(states[..j])
      invariant forall k :: j <= k < |chain| ==> chain[k].State() == states[k]
      invariant forall k :: 0 <= k < j ==> chain[k].registry == []
      decreases |chain| - j
    {
      var iterblock := pblock;
      pblock := iterblock.PreviousBlock();
      var t := DestroyAndFree(iterblock);
      ChainTeardownSnoc(states, j);
      trace := trace + t;
      j := j + 1;
    }
    assert states[..|chain|] == states;
  }

  /**
   * What DeleteBlock needs of chain i of a table whose chains are linked
   * and separate, and why it leaves the later chains alone.
   */
  lemma ChainReady(c: seq<seq<MemoryBlock>>, cs: seq<seq<BlockState>>, i: nat)
    requires Linked(c) && Separate(c) && i < |c| == |cs| && ChainsWellformed(cs) && ChainStates(c[i]) == cs[i]
    ensures IsChain(c[i]) && Members(c[i]) <= Objects(c)
    ensures forall j, k :: 0 <= j < k < |c[i]| ==> c[i][j] != c[i][k]
    ensures forall j :: 0 <= j < |c[i]| ==> Invariant(c[i][j].State())
    ensures Members(c[i]) !! Objects(c[i + 1..])
  {
    forall j, k | 0 <= j < k < |c[i]|
      ensures c[i][j] != c[i][k]
    {
      assert At(c, i, j) != At(c, i, k);
    }
    forall j | 0 <= j < |c[i]|
      ensures Invariant(c[i][j].State())
    {
      ChainStatesAt(c[i], j);
    }
    forall o | o in Objects(c[i + 1..])
      ensures o !in Members(c[i])
    {
      var rest := c[i + 1..];
      var k, l :| 0 <= k < |rest| && 0 <= l < |rest[k]| && o == rest[k][l];
      assert rest[k] == c[i + 1 + k];
      forall j | 0 <= j < |c[i]|
        ensures o != c[i][j]
      {
        assert At(c, i + 1 + k, l) != At(c, i, j);
      }
    }
  }

  /** The end of Clear: no blocks, empty chains. */
  lemma EmptyTable(blocks: array<MemoryBlock?>, sizes: array<int>, p: Pool)
    requires blocks.Length == MaxNumBlocks && sizes.Length == MaxNumBlocks && BlockPool.Valid(p)
    ensures Table(blocks, sizes, 0, [], p.(chains := []))
  {
    assert AddressBag([]) == multiset{};
  }

  /** One round of Clear's loop: DeleteBlock on active block i, leaving the later chains as they were. */
  method DeleteChainAt(blocks: array<MemoryBlock?>, ghost c: seq<seq<MemoryBlock>>, ghost cs: seq<seq<BlockState>>, i: nat)
    returns (trace: seq<Event>)
    requires i < |c| == |cs| && Heads(blocks, c) && Linked(c) && Separate(c) && ChainsWellformed(cs)
    requires Holds(c[i..], cs[i..])
    modifies Members(c[i])`registry
    ensures trace == ChainTeardown(cs[i])
    ensures Holds(c[i + 1..], cs[i + 1..])
  {
    assert ChainStates(c[i..][0]) == cs[i..][0];
    ChainReady(c, cs, i);
    assert Holds(c[i + 1..], cs[i + 1..]) by {
      var rest, restStates := c[i + 1..], cs[i + 1..];
      forall k | 0 <= k < |rest|
        ensures ChainStates(rest[k]) == restStates[k]
      {
        assert rest[k] == c[i..][k + 1];
      }
    }
    trace := DeleteBlock(blocks[i], c[i]);
  }

  /** Clear's loop: DeleteBlock on every active block, index 0 first. */
  method DeleteAll(blocks: array<MemoryBlock?>, n: nat, ghost c: seq<seq<MemoryBlock>>, ghost cs: seq<seq<BlockState>>)
    returns (trace: seq<Event>)
    requires n == |c| && Heads(blocks, c) && Mirrors(c, cs) && ChainsWellformed(cs) && DistinctAddresses(cs)
    modifies Objects(c)`registry
    ensures trace == PoolTeardown(cs)
  {
    MirrorsSeparate(c, cs);
    trace := [];
    assert cs[..0] == [];
    var blockidx := 0;
    while blockidx < n
      invariant 0 <= blockidx <= n && Linked(c)
      invariant trace == PoolTeardown(cs[..blockidx])
      invariant Holds(c[blockidx..], cs[blockidx..])
    {
      var t := DeleteChainAt(blocks, c, cs, blockidx);
      PoolTeardownSnoc(cs, blockidx);
      trace := trace + t;
      blockidx := blockidx + 1;
    }
    assert cs[..n] == cs;
  }

}
