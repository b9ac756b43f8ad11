/**
 * Concrete runs of the pool: the allocator's own use-up-all-blocks test,
 * and the runs that show where the stated invariant and the reported
 * block index do not hold.  Addresses stand for what malloc returns.
 */
module Scenarios {
  import opened Wrappers
  import opened ManagedMemoryBlock
  import opened PsyncLib
  import opened BlockPool

  /** A request every active block passes over is served by a new block at the last index. */
  lemma ServedByNewBlock(p: Pool, managed: bool, size: int, alignment: int, address: nat)
    requires Wellformed(p) && 0 < size <= MaxRequest && 0 < alignment <= MaxAlignment
    requires |p.chains| > 0 && address != 0
    requires forall k :: 0 <= k < |p.chains| ==> Skipped(p, k, size, alignment, managed)
    ensures var p3 := CreateAnotherBlock(p, NextBlockSize(p, size, alignment, managed), address);
      var u := UseBlock(p3, |p3.chains| - 1, size, alignment, managed);
      Allocate(p, managed, size, alignment, address) == Allocated(u.0, |p3.chains| - 1, u.1)
  {
    ScanFindsNothing(p, 0, size, alignment, managed);
  }

  // The 1000-byte blocks of the test, at addresses 1000, 2000, ...: a block
  // at a has its header in [a, a + 32), so 968 bytes to hand out.

  /** Block a after n bytes have been carved from it. */
  function Used(a: nat, n: nat): BlockState
  {
    BlockState(a, a + 1000, a + HeaderSize + n, [])
  }

  const P1 := Pool(1000, 1000, [[Used(1000, 0)]])

  /** The pool after the 700-byte request, then n blocks at 2000, 3000, ... with 600 bytes carved from each. */
  function Filled(n: nat): (p: Pool)
    ensures |p.chains| == n + 1
  {
    Pool(1000, 1000, [[Used(1000, 700)]] + seq(n, (i: nat) => [Used(2000 + 1000 * i, 600)]))
  }

  /** CreateFirstBlock on a new allocator: one block with 968 bytes left. */
  lemma FirstBlockStep()
    ensures CreateAnotherBlock(EmptyPool(1000, 0), PoolBaseBlockSize(EmptyPool(1000, 0)), 1000) == P1
    ensures BlockSizes(P1) == [968]
  {
    assert PoolBaseBlockSize(EmptyPool(1000, 0)) == 1000;
  }

  /** The first request, 700 bytes, is carved from the first block right after its header. */
  lemma Allocate700Step()
    ensures Allocate(P1, false, 700, 1, 0) == Allocated(Some(1032), 0, Filled(0))
  {
    OneBlock(P1, Used(1000, 0));
    assert AlignmentPadRequired(1032, 1) == 0;
    assert TryUse(Used(1000, 0), 700, 1, false) == (Some(1032), Used(1000, 700));
    assert P1.chains[0][1..] == [];
    assert [Used(1000, 700)] + P1.chains[0][1..] == [Used(1000, 700)];
    assert P1.chains[0 := [Used(1000, 700)]] == Filled(0).chains;
    assert UseBlock(P1, 0, 700, 1, false) == (Some(1032), Filled(0));
    assert !Skipped(P1, 0, 700, 1, false);
    assert Scan(P1, 0, 700, 1, false) == Some(0);
  }

  /** An unaligned unmanaged request on a fresh 1000-byte block is carved right after the header. */
  lemma FreshBlockUse(a: nat, n: nat)
    requires 0 < n <= 968
    ensures var start: nat := a + HeaderSize; TryUse(Used(a, 0), n, 1, false) == (Some(start), Used(a, n))
  {
    var start: nat := a + HeaderSize;
    assert AlignmentPadRequired(start, 1) == 0;
  }

  /** Use on a block that stays active replaces the chain's head and nothing else. */
  lemma UseInPlace(p: Pool, idx: nat, size: int, alignment: int, managed: bool, mem: nat, b: BlockState)
    requires Wellformed(p) && idx < |p.chains| && 0 < size <= MaxRequest && 0 < alignment <= MaxAlignment
    requires TryUse(p.chains[idx][0], size, alignment, managed) == (Some(mem), b)
    requires |p.chains| == 1 || NumBytesLeft(b) > BlockCutOffPointBytes
    ensures UseBlock(p, idx, size, alignment, managed) == (Some(mem), p.(chains := p.chains[idx := [b] + p.chains[idx][1..]]))
  {
  }

  /**
   * A request for n bytes that no active block takes, in a table with room
   * and no lone block below the cutoff, gets a new 1000-byte block at a.
   */
  lemma NewBlockStep(p: Pool, a: nat, n: nat)
    requires Wellformed(p) && p.subsequentBlockSize == 1000 && 0 < |p.chains| < MaxNumBlocks
    requires !(|p.chains| == 1 && BlockSizes(p)[0] < BlockCutOffPointBytes)
    requires 0 < n && 968 - n > BlockCutOffPointBytes && a != 0
    requires forall k :: 0 <= k < |p.chains| ==> Skipped(p, k, n, 1, false)
    ensures Allocate(p, false, n, 1, a) == Allocated(Some(a + HeaderSize), |p.chains|, p.(chains := p.chains + [[Used(a, n)]]))
  {
    ServedByNewBlock(p, false, n, 1, a);
    assert NextBlockSize(p, n, 1, false) == 1000;
    var q := p.(chains := p.chains + [[Used(a, 0)]]);
    CreateAnotherBlockTail(p, 1000, a);
    assert CreateAnotherBlock(p, 1000, a) == q;
    var start: nat := a + HeaderSize;
    FreshBlockUse(a, n);
    UseInPlace(q, |p.chains|, n, 1, false, start, Used(a, n));
    assert q.chains[|p.chains|][1..] == [];
    assert [Used(a, n)] + q.chains[|p.chains|][1..] == [Used(a, n)];
    assert q.chains[|p.chains| := [Used(a, n)]] == p.chains + [[Used(a, n)]];
  }

  // Each step takes its pool as a parameter equal to the constant, which
  // keeps the verifier from evaluating Allocate on a literal pool.

  /** The pools of the test pass over a request for 600 bytes. */
  lemma FilledTooSmall(n: nat)
    requires n < MaxNumBlocks
    ensures Wellformed(Filled(n))
    ensures forall k :: 0 < k <= n ==> BlockSizes(Filled(n))[k] == 368
    ensures BlockSizes(Filled(n))[0] == 268
    ensures forall k :: 0 <= k <= n ==> Skipped(Filled(n), k, 600, 1, false)
  {
    var p := Filled(n);
    forall k | 0 < k <= n
      ensures p.chains[k] == [Used(2000 + 1000 * (k - 1), 600)]
    {
    }
  }

  /** Steps two to four of the test: each 600-byte request gets a new block. */
  lemma Allocate600(n: nat)
    requires n < MaxNumBlocks - 1
    ensures var r := Allocate(Filled(n), false, 600, 1, 2000 + 1000 * n);
      r.Allocated? && r.mem == Some(2032 + 1000 * n) && r.blockIdx == n + 1 && r.pool == Filled(n + 1)
  {
    FilledGrows(n);
    FilledNext(n);
  }

  /** Every block of the filled pool is passed over, so a request of 600 bytes appends a new block. */
  lemma FilledGrows(n: nat)
    requires n < MaxNumBlocks - 1
    ensures Allocate(Filled(n), false, 600, 1, 2000 + 1000 * n)
      == Allocated(Some(2032 + 1000 * n), n + 1, Filled(n).(chains := Filled(n).chains + [[Used(2000 + 1000 * n, 600)]]))
  {
    FilledTooSmall(n);
    NewBlockStep(Filled(n), 2000 + 1000 * n, 600);
  }

  /** One more 600-byte block at the next address extends the filled pool. */
  lemma FilledNext(n: nat)
    ensures Filled(n).(chains := Filled(n).chains + [[Used(2000 + 1000 * n, 600)]]) == Filled(n + 1)
  {
    var a, b := Filled(n).chains + [[Used(2000 + 1000 * n, 600)]], Filled(n + 1).chains;
    forall i | 0 <= i < |b|
      ensures a[i] == b[i]
    {
    }
  }

  /** The test's pool after the fifth 600-byte request. */
  const Evicted := Pool(1000, 1000,
    [[Used(2000, 600)], [Used(3000, 600)], [Used(4000, 600)], [Used(5000, 600), Used(1000, 700)]])

  /**
   * The same request with the table full: the smallest block k leaves the
   * table and becomes the tail of the new block, which serves the request.
   */
  lemma EvictStep(p: Pool, a: nat, n: nat, k: nat)
    requires Wellformed(p) && p.subsequentBlockSize == 1000 && |p.chains| == MaxNumBlocks
    requires k == SmallestIndex(BlockSizes(p))
    requires 0 < n && 968 - n > BlockCutOffPointBytes && a != 0
    requires forall k :: 0 <= k < |p.chains| ==> Skipped(p, k, n, 1, false)
    ensures Allocate(p, false, n, 1, a)
        == Allocated(Some(a + HeaderSize), MaxNumBlocks - 1, p.(chains := RemoveAt(p.chains, k) + [[Used(a, n)] + p.chains[k]]))
  {
    ServedByNewBlock(p, false, n, 1, a);
    var q := EvictCreate(p, a, n, k);
    var start: nat := a + HeaderSize;
    FreshBlockUse(a, n);
    UseInPlace(q, MaxNumBlocks - 1, n, 1, false, start, Used(a, n));
    assert q.chains[MaxNumBlocks - 1][1..] == p.chains[k];
    assert q.chains[MaxNumBlocks - 1 := [Used(a, n)] + p.chains[k]]
      == RemoveAt(p.chains, k) + [[Used(a, n)] + p.chains[k]];
  }

  /** The block created for that request: 1000 bytes, with block k as its tail. */
  lemma EvictCreate(p: Pool, a: nat, n: nat, k: nat) returns (q: Pool)
    requires Wellformed(p) && p.subsequentBlockSize == 1000 && |p.chains| == MaxNumBlocks
    requires k == SmallestIndex(BlockSizes(p))
    requires 0 < n && 968 - n > BlockCutOffPointBytes && a != 0
    ensures NextBlockSize(p, n, 1, false) == 1000
    ensures q == p.(chains := RemoveAt(p.chains, k) + [[Used(a, 0)] + p.chains[k]])
    ensures q == CreateAnotherBlock(p, 1000, a)
  {
    assert NextBlockSize(p, n, 1, false) == 1000;
    q := p.(chains := RemoveAt(p.chains, k) + [[Used(a, 0)] + p.chains[k]]);
    CreateAnotherBlockTail(p, 1000, a);
  }

  /** With the table full (FullTable), the smallest block (index 0) becomes the new block's tail. */
  lemma Allocate600Evicts(p: Pool)
    requires p == Filled(3)
    ensures Wellformed(p)
    ensures var r := Allocate(p, false, 600, 1, 5000);
      r.Allocated? && r.mem == Some(5032) && r.blockIdx == 3 && r.pool == Evicted
  {
    FullTable(p);
    EvictStep(p, 5000, 600, 0);
    EvictedChains(p);
  }

  /** The full table of the test: block 0 is the smallest and every block is passed over. */
  lemma FullTable(p: Pool)
    requires p == Filled(3)
    ensures Wellformed(p) && |p.chains| == MaxNumBlocks && p.subsequentBlockSize == 1000
    ensures BlockSizes(p) == [268, 368, 368, 368] && SmallestIndex(BlockSizes(p)) == 0
    ensures forall k :: 0 <= k < |p.chains| ==> Skipped(p, k, 600, 1, false)
  {
    FilledTooSmall(3);
    assert BlockSizes(p) == [268, 368, 368, 368];
  }

  lemma EvictedChains(p: Pool)
    requires p == Filled(3)
    ensures RemoveAt(p.chains, 0) + [[Used(5000, 600)] + p.chains[0]] == Evicted.chains
  {
    assert p.chains[0] == [Used(1000, 700)];
    assert p.chains[1] == [Used(2000, 600)];
    assert p.chains[2] == [Used(3000, 600)];
    assert p.chains[3] == [Used(4000, 600)];
    var rest := RemoveAt(p.chains, 0);
    assert rest == [p.chains[1], p.chains[2], p.chains[3]];
    assert [Used(5000, 600)] + p.chains[0] == [Used(5000, 600), Used(1000, 700)];
  }

  lemma EvictedWellformed(p: Pool)
    requires p == Evicted
    ensures Wellformed(p)
  {
    var f := Filled(3);
    FilledTooSmall(3);
    EvictedChains(f);
    EvictWellformed(f.chains, 0, Used(5000, 600));
  }

  /** After the eviction every active block has 368 bytes. */
  lemma EvictedSizes(p: Pool)
    requires p == Evicted
    ensures Wellformed(p) && BlockSizes(p) == [368, 368, 368, 368]
  {
    EvictedWellformed(p);
    assert BlockSizes(p)[3] == 368;
  }

  /** After the eviction the first block is a tail: no longer active, still owned. */
  lemma EvictedKeepsFirstBlock(p: Pool)
    requires p == Evicted
    ensures forall i :: 0 <= i < |p.chains| ==> p.chains[i][0].address != 1000
    ensures p.chains[3][1].address == 1000 && 1000 in AddressBag(p.chains)
  {
    forall i | 0 <= i < |p.chains|
      ensures p.chains[i][0].address != 1000
    {
      assert i == 0 || i == 1 || i == 2 || i == 3;
    }
    AddressBagHasChain(p.chains, 3, 1000);
    ChainBagHas(p.chains[3], 1);
  }

  // ---------------------------------------------------------------------
  // Where the stated invariant and the reported index fail.

  /** One block at the cutoff, and the pool after a block has joined it. */
  lemma AtCutoffSizes(p: Pool, q: Pool)
    requires p == Pool(1000, 1000, [[Used(1000, 904)]])
    requires q == Pool(1000, 1000, [[Used(1000, 904)], [Used(2000, 100)]])
    ensures Wellformed(p) && AboveCutoff(p) && BlockSizes(p) == [64] && Skipped(p, 0, 100, 1, false)
    ensures Wellformed(q) && BlockSizes(q) == [64, 868] && AtLeastCutoff(q) && !AboveCutoff(q)
    ensures p.chains + [[Used(2000, 100)]] == q.chains
  {
    OneBlock(p, Used(1000, 904));
    TwoBlocks(q, Used(1000, 904), Used(2000, 100));
    assert BlockSizes(p) == [64];
    assert BlockSizes(q) == [64, 868];
    assert !(BlockSizes(q)[0] > BlockCutOffPointBytes);
  }

  /**
   * A lone block with exactly 64 bytes left is not moved to the new block's
   * tail (that needs fewer than 64), so the next block joins it in the
   * table: two active blocks, one of them at the cutoff.  The weaker
   * clause holds, the stated one does not.
   */
  lemma LoneBlockAtCutoff(p: Pool, q: Pool)
    requires p == Pool(1000, 1000, [[Used(1000, 904)]])
    requires q == Pool(1000, 1000, [[Used(1000, 904)], [Used(2000, 100)]])
    ensures Wellformed(p) && AboveCutoff(p)
    ensures var r := Allocate(p, false, 100, 1, 2000);
      r.Allocated? && r.pool == q && BlockSizes(q) == [64, 868] && AtLeastCutoff(q) && !AboveCutoff(q)
  {
    AtCutoffSizes(p, q);
    NewBlockStep(p, 2000, 100);
  }

  /** The two-block pool before and after the managed request and the registration. */
  lemma RegistrationSizes(p: Pool, q: Pool, q2: Pool)
    requires p == Pool(1000, 1000, [[Used(1000, 0)], [Used(2000, 0)]])
    requires q == Pool(1000, 1000, [[Used(1000, 900)], [Used(2000, 0)]])
    requires q2 == Pool(1000, 1000, [[BlockState(1000, 2000, 1932, [7])], [Used(2000, 0)]])
    ensures Wellformed(p) && AboveCutoff(p) && BlockSizes(p) == [968, 968]
    ensures Wellformed(q) && AboveCutoff(q) && BlockSizes(q) == [68, 968] && CanRegister(q.chains[0][0])
    ensures Wellformed(q2) && BlockSizes(q2) == [60, 968] && !AtLeastCutoff(q2) && !AboveCutoff(q2)
  {
    TwoBlocks(p, Used(1000, 0), Used(2000, 0));
    TwoBlocks(q, Used(1000, 900), Used(2000, 0));
    TwoBlocks(q2, BlockState(1000, 2000, 1932, [7]), Used(2000, 0));
    assert NumBytesLeft(Used(2000, 0)) == 968;
    assert NumBytesLeft(Used(1000, 0)) == 968;
    assert NumBytesLeft(Used(1000, 900)) == 68;
    assert NumBytesLeft(BlockState(1000, 2000, 1932, [7])) == 60;
    assert !(BlockSizes(q2)[0] >= BlockCutOffPointBytes);
  }

  /** A pool of one lone block of the test's configuration. */
  lemma OneBlock(p: Pool, x: BlockState)
    requires p == Pool(1000, 1000, [[x]]) && Invariant(x)
    ensures Wellformed(p) && BlockSizes(p) == [NumBytesLeft(x)]
  {
    assert ChainsWellformed(p.chains) by {
      forall i, j | 0 <= i < 1 && 0 <= j < |p.chains[i]|
        ensures Invariant(p.chains[i][j])
      {
        assert i == 0 && j == 0;
      }
    }
  }

  /** A pool of two lone blocks of the test's configuration. */
  lemma TwoBlocks(p: Pool, x: BlockState, y: BlockState)
    requires p == Pool(1000, 1000, [[x], [y]]) && Invariant(x) && Invariant(y)
    ensures Wellformed(p) && BlockSizes(p) == [NumBytesLeft(x), NumBytesLeft(y)]
  {
    assert ChainsWellformed(p.chains) by {
      forall i, j | 0 <= i < 2 && 0 <= j < |p.chains[i]|
        ensures Invariant(p.chains[i][j])
      {
        assert j == 0;
      }
    }
  }

  lemma RegistrationChains(p: Pool, q: Pool, q2: Pool)
    requires p == Pool(1000, 1000, [[Used(1000, 0)], [Used(2000, 0)]])
    requires q == Pool(1000, 1000, [[Used(1000, 900)], [Used(2000, 0)]])
    requires q2 == Pool(1000, 1000, [[BlockState(1000, 2000, 1932, [7])], [Used(2000, 0)]])
    ensures p.chains[0 := [Used(1000, 900)] + p.chains[0][1..]] == q.chains
    ensures q.chains[0 := [Registered(q.chains[0][0], 7)] + q.chains[0][1..]] == q2.chains
  {
    assert p.chains[0][1..] == [];
    assert [Used(1000, 900)] + p.chains[0][1..] == [Used(1000, 900)];
    assert q.chains[0][1..] == [];
    assert Registered(q.chains[0][0], 7) == BlockState(1000, 2000, 1932, [7]);
    assert [BlockState(1000, 2000, 1932, [7])] + q.chains[0][1..] == [BlockState(1000, 2000, 1932, [7])];
  }

  /** The managed 900-byte request on the first of two fresh blocks. */
  lemma Managed900(p: Pool, q: Pool)
    requires p == Pool(1000, 1000, [[Used(1000, 0)], [Used(2000, 0)]])
    requires q == Pool(1000, 1000, [[Used(1000, 900)], [Used(2000, 0)]])
    ensures var r := Allocate(p, true, 900, 1, 0);
      r.Allocated? && r.blockIdx == 0 && r.pool == q
  {
    var q2 := Pool(1000, 1000, [[BlockState(1000, 2000, 1932, [7])], [Used(2000, 0)]]);
    RegistrationSizes(p, q, q2);
    RegistrationChains(p, q, q2);
    var start: nat := 1032;
    assert AlignmentPadRequired(start, 1) == 0;
    assert TryUse(Used(1000, 0), 900, 1, true) == (Some(start), Used(1000, 900));
    assert NumBytesLeft(Used(1000, 900)) == 68;
    UseInPlace(p, 0, 900, 1, true, start, Used(1000, 900));
    assert !Skipped(p, 0, 900, 1, true);
    assert Scan(p, 0, 900, 1, true) == Some(0);
  }

  /**
   * A managed request that leaves 68 bytes passes the retirement check,
   * and registering the object then takes the block to 60: below the
   * cutoff with two blocks active.
   */
  lemma RegistrationBelowCutoff(p: Pool, q: Pool, q2: Pool)
    requires p == Pool(1000, 1000, [[Used(1000, 0)], [Used(2000, 0)]])
    requires q == Pool(1000, 1000, [[Used(1000, 900)], [Used(2000, 0)]])
    requires q2 == Pool(1000, 1000, [[BlockState(1000, 2000, 1932, [7])], [Used(2000, 0)]])
    ensures Wellformed(p) && AboveCutoff(p)
    ensures var r := Allocate(p, true, 900, 1, 0);
      && r.Allocated? && r.blockIdx == 0 && r.pool == q
      && AboveCutoff(q) && CanRegister(q.chains[0][0])
      && ManageObjectDestruction(q, 0, 7) == q2
      && BlockSizes(q2) == [60, 968] && !AtLeastCutoff(q2) && !AboveCutoff(q2)
  {
    RegistrationSizes(p, q, q2);
    RegistrationChains(p, q, q2);
    Managed900(p, q);
  }

  /** Block a of 5040 bytes after n bytes have been carved from it. */
  function Large(a: nat, n: nat): BlockState
  {
    BlockState(a, a + 5040, a + HeaderSize + n, [])
  }

  /** The second block the managed 5000-byte request needs: 5040 bytes, appended. */
  lemma LargeBlockCreated(p: Pool, q: Pool)
    requires p == P1 && q == Pool(1000, 1000, [[Used(1000, 0)], [Large(2000, 0)]])
    ensures Wellformed(p) && Skipped(p, 0, 5000, 1, true)
    ensures NextBlockSize(p, 5000, 1, true) == 5040 && CreateAnotherBlock(p, 5040, 2000) == q
  {
    assert BlockSizes(p) == [968];
    assert AlignmentPaddingForBlocksize(HeaderSize + 5000 + PointerSize) == 0;
    CreateAnotherBlockTail(p, 5040, 2000);
    assert p.chains + [[Large(2000, 0)]] == q.chains;
  }

  /** The request fills the new block to 8 bytes, and Use retires it onto chain 0. */
  lemma LargeBlockRetired(q: Pool)
    requires q == Pool(1000, 1000, [[Used(1000, 0)], [Large(2000, 0)]])
    ensures Wellformed(q)
    ensures UseBlock(q, 1, 5000, 1, true) == (Some(2032), Pool(1000, 1000, [[Used(1000, 0), Large(2000, 5000)]]))
  {
    TwoBlocks(q, Used(1000, 0), Large(2000, 0));
    var start: nat := 2032;
    assert AlignmentPadRequired(start, 1) == 0;
    assert TryUse(Large(2000, 0), 5000, 1, true) == (Some(start), Large(2000, 5000));
    assert NumBytesLeft(Large(2000, 5000)) == 8;
    UseBlockShape(q, 1, 5000, 1, true);
    var cs := q.chains[1 := [Large(2000, 5000)]];
    assert [Large(2000, 5000)] + q.chains[1][1..] == [Large(2000, 5000)];
    RetireAt(cs, 1, 0);
    assert cs[0] + cs[1] == [Used(1000, 0), Large(2000, 5000)];
    assert Retire(cs, 1) == [[Used(1000, 0), Large(2000, 5000)]];
  }

  /** The pool after the managed 5000-byte request: one chain, the new block behind the first. */
  const OneLargeChain := Pool(1000, 1000, [[Used(1000, 0), Large(2000, 5000)]])

  /**
   * A managed 5000-byte request on the first block's 968 bytes: a new
   * 5040-byte block serves it with 8 bytes to spare, so it is retired onto
   * chain 0 at once, and the index reported (1) is no longer a valid block
   * index: the front-ends pass it on to ManageObjectDestruction.
   */
  lemma StaleBlockIndex(p: Pool)
    requires p == P1
    ensures Wellformed(p) && Allocate(p, true, 5000, 1, 2000) == Allocated(Some(2032), 1, OneLargeChain)
    ensures |OneLargeChain.chains| == 1
  {
    var q := Pool(1000, 1000, [[Used(1000, 0)], [Large(2000, 0)]]);
    LargeBlockCreated(p, q);
    ServedByNewBlock(p, true, 5000, 1, 2000);
    LargeBlockRetired(q);
  }
}
