/** The bump allocator (util/arena.cc). Addresses are natural numbers; address
    0 is NULL. The host allocator behind `new char[n]` is not modelled: each
    operation that may need a block takes the address the host would return
    as a parameter `addr`, required to be non-null, aligned and disjoint from
    every block already owned. Blocks are released only when the arena is
    destroyed, which the model does not represent. */
module Arenas {
  import Coding

  const kBlockSize: nat := 4096
  /** sizeof(void*) on the modelled (64-bit) platform; also sizeof(char*). */
  const kPointerSize: nat := 8
  /** align = max(8, sizeof(void*)), the alignment AllocateAligned guarantees. */
  const kAlign: nat := if kPointerSize > 8 then kPointerSize else 8

  /** A region handed out by the arena, with the index of the block it lies in. */
  datatype Region = Region(start: nat, size: nat, block: nat)

  /** Two regions share no byte. An empty region overlaps nothing. */
  predicate Disjoint(a: Region, b: Region)
  {
    a.size == 0 || b.size == 0 || a.start + a.size <= b.start || b.start + b.size <= a.start
  }

  function Sum(sizes: seq<nat>): nat
  {
    if sizes == [] then 0 else Sum(sizes[..|sizes| - 1]) + sizes[|sizes| - 1]
  }

  /** What memory_usage_ charges for the first n blocks: each block's bytes plus
      the pointer that records it in blocks_. */
  function Charge(sizes: seq<nat>, n: nat): nat
    requires n <= |sizes|
  {
    if n == 0 then 0 else Charge(sizes, n - 1) + sizes[n - 1] + kPointerSize
  }

  lemma {:induction false} ChargePrefix(sizes: seq<nat>, more: seq<nat>, n: nat)
    requires n <= |sizes|
    ensures Charge(sizes + more, n) == Charge(sizes, n)
  {
    if n > 0 {
      ChargePrefix(sizes, more, n - 1);
    }
  }

  lemma {:induction false} ChargeIsSum(sizes: seq<nat>)
    ensures Charge(sizes, |sizes|) == Sum(sizes) + kPointerSize * |sizes|
  {
    if sizes != [] {
      var init := sizes[..|sizes| - 1];
      ChargeIsSum(init);
      ChargePrefix(init, [sizes[|sizes| - 1]], |init|);
      assert init + [sizes[|sizes| - 1]] == sizes;
    }
  }

  /** The assert of AllocateAligned: align is a power of two, so that
      p & (align - 1) is p % align. */
  lemma AlignIsPowerOfTwo()
    ensures kAlign >= 8 && kAlign >= kPointerSize
    ensures exists k: nat :: k < 64 && kAlign == Coding.Pow2(k)
  {
    assert Coding.Pow2(3) == 8;
  }

  /** The padding AllocateAligned inserts before the cursor. */
  function Slop(allocPtr: nat): (slop: nat)
    ensures slop < kAlign
    ensures (allocPtr + slop) % kAlign == 0
  {
    var currentMod := allocPtr % kAlign;
    if currentMod == 0 then 0 else kAlign - currentMod
  }

  /** r lies in block r.block (an empty region lies anywhere). */
  ghost predicate InBlock(r: Region, blocks: seq<nat>, sizes: seq<nat>)
  {
    r.size == 0 ||
    (r.block < |blocks| && r.block < |sizes| &&
     blocks[r.block] <= r.start && r.start + r.size <= blocks[r.block] + sizes[r.block])
  }

  /** [addr, addr + n) overlaps none of the first m blocks. */
  ghost predicate FreshBelow(addr: nat, n: nat, blocks: seq<nat>, sizes: seq<nat>, m: nat)
  {
    forall i :: 0 <= i < m && i < |blocks| && i < |sizes| ==>
      addr + n <= blocks[i] || blocks[i] + sizes[i] <= addr
  }

  /** [addr, addr + n) overlaps none of the blocks. */
  ghost predicate FreshBlock(addr: nat, n: nat, blocks: seq<nat>, sizes: seq<nat>)
  {
    FreshBelow(addr, n, blocks, sizes, |blocks|)
  }

  /** Each of the first m blocks overlaps none of the blocks obtained before it. */
  ghost predicate BlocksDisjointBelow(blocks: seq<nat>, sizes: seq<nat>, m: nat)
    requires m <= |blocks| && m <= |sizes|
  {
    m == 0 ||
    (BlocksDisjointBelow(blocks, sizes, m - 1) &&
     FreshBelow(blocks[m - 1], sizes[m - 1], blocks, sizes, m - 1))
  }

  /** Each of the first n regions lies in its block. */
  ghost predicate InBlocksBelow(regions: seq<Region>, n: nat, blocks: seq<nat>, sizes: seq<nat>)
    requires n <= |regions|
  {
    n == 0 || (InBlocksBelow(regions, n - 1, blocks, sizes) && InBlock(regions[n - 1], blocks, sizes))
  }

  /** r overlaps none of the first n regions. */
  ghost predicate UnusedBelow(regions: seq<Region>, n: nat, r: Region)
    requires n <= |regions|
  {
    n == 0 || (UnusedBelow(regions, n - 1, r) && Disjoint(regions[n - 1], r))
  }

  /** Each of the first n regions overlaps none of the regions before it. */
  ghost predicate DisjointBelow(regions: seq<Region>, n: nat)
    requires n <= |regions|
  {
    n == 0 || (DisjointBelow(regions, n - 1) && UnusedBelow(regions, n - 1, regions[n - 1]))
  }

  ghost predicate BlocksDisjoint(blocks: seq<nat>, sizes: seq<nat>)
  {
    |blocks| == |sizes| && BlocksDisjointBelow(blocks, sizes, |blocks|)
  }

  ghost predicate RegionsInBlocks(regions: seq<Region>, blocks: seq<nat>, sizes: seq<nat>)
  {
    InBlocksBelow(regions, |regions|, blocks, sizes)
  }

  /** r overlaps none of the regions. */
  ghost predicate Unused(regions: seq<Region>, r: Region)
  {
    UnusedBelow(regions, |regions|, r)
  }

  ghost predicate RegionsDisjoint(regions: seq<Region>)
  {
    DisjointBelow(regions, |regions|)
  }

  // Appending leaves facts about a prefix unchanged.

  lemma {:induction false} InBlocksPrefix(regions: seq<Region>, more: seq<Region>, n: nat,
                                          blocks: seq<nat>, sizes: seq<nat>)
    requires n <= |regions|
    ensures InBlocksBelow(regions + more, n, blocks, sizes) == InBlocksBelow(regions, n, blocks, sizes)
  {
    if n > 0 {
      InBlocksPrefix(regions, more, n - 1, blocks, sizes);
    }
  }

  lemma {:induction false} UnusedPrefix(regions: seq<Region>, more: seq<Region>, n: nat, r: Region)
    requires n <= |regions|
    ensures UnusedBelow(regions + more, n, r) == UnusedBelow(regions, n, r)
  {
    if n > 0 {
      UnusedPrefix(regions, more, n - 1, r);
    }
  }

  lemma {:induction false} DisjointPrefix(regions: seq<Region>, more: seq<Region>, n: nat)
    requires n <= |regions|
    ensures DisjointBelow(regions + more, n) == DisjointBelow(regions, n)
  {
    if n > 0 {
      DisjointPrefix(regions, more, n - 1);
      UnusedPrefix(regions, more, n - 1, regions[n - 1]);
    }
  }

  lemma FreshBelowPrefix(a: nat, len: nat, blocks: seq<nat>, sizes: seq<nat>, addr: nat, n: nat, m: nat)
    requires m <= |blocks| && m <= |sizes|
    ensures FreshBelow(a, len, blocks + [addr], sizes + [n], m) == FreshBelow(a, len, blocks, sizes, m)
  {
    assert forall i :: 0 <= i < m ==> (blocks + [addr])[i] == blocks[i] && (sizes + [n])[i] == sizes[i];
  }

  lemma {:induction false} BlocksDisjointPrefix(blocks: seq<nat>, sizes: seq<nat>, addr: nat, n: nat, m: nat)
    requires m <= |blocks| && m <= |sizes|
    ensures BlocksDisjointBelow(blocks + [addr], sizes + [n], m) == BlocksDisjointBelow(blocks, sizes, m)
  {
    if m > 0 {
      BlocksDisjointPrefix(blocks, sizes, addr, n, m - 1);
      FreshBelowPrefix(blocks[m - 1], sizes[m - 1], blocks, sizes, addr, n, m - 1);
    }
  }

  /** Obtaining a further block keeps every region in its block. */
  lemma {:induction false} InBlocksExtend(regions: seq<Region>, n: nat, blocks: seq<nat>, sizes: seq<nat>,
                                          addr: nat, size: nat)
    requires n <= |regions| && InBlocksBelow(regions, n, blocks, sizes)
    ensures InBlocksBelow(regions, n, blocks + [addr], sizes + [size])
  {
    if n > 0 {
      InBlocksExtend(regions, n - 1, blocks, sizes, addr, size);
    }
  }

  /** A region inside a fresh block overlaps no region lying in an older block. */
  lemma {:induction false} FreshBlockRegionUnused(regions: seq<Region>, n: nat, r: Region, blocks: seq<nat>,
                                                  sizes: seq<nat>, addr: nat, size: nat)
    requires n <= |regions| && InBlocksBelow(regions, n, blocks, sizes) && FreshBlock(addr, size, blocks, sizes)
    requires r.size == 0 || (addr <= r.start && r.start + r.size <= addr + size)
    ensures UnusedBelow(regions, n, r)
  {
    if n > 0 {
      FreshBlockRegionUnused(regions, n - 1, r, blocks, sizes, addr, size);
    }
  }

  /** A region inside one that overlaps none of the regions overlaps none either. */
  lemma {:induction false} UnusedWithin(regions: seq<Region>, n: nat, outer: Region, r: Region)
    requires n <= |regions| && UnusedBelow(regions, n, outer)
    requires r.size == 0 || (outer.start <= r.start && r.start + r.size <= outer.start + outer.size)
    ensures UnusedBelow(regions, n, r)
  {
    if n > 0 {
      UnusedWithin(regions, n - 1, outer, r);
    }
  }

  /** Unused means r is disjoint from each of the first n regions. */
  lemma {:induction false} UnusedMeansDisjoint(regions: seq<Region>, n: nat, r: Region)
    requires n <= |regions| && UnusedBelow(regions, n, r)
    ensures forall k :: 0 <= k < n ==> Disjoint(regions[k], r)
  {
    if n > 0 {
      UnusedMeansDisjoint(regions, n - 1, r);
    }
  }

  /** No two handed-out regions overlap. */
  lemma {:induction false} RegionsPairwiseDisjoint(regions: seq<Region>, n: nat)
    requires n <= |regions| && DisjointBelow(regions, n)
    ensures forall k, l :: 0 <= k < l < n ==> Disjoint(regions[k], regions[l])
  {
    if n > 0 {
      RegionsPairwiseDisjoint(regions, n - 1);
      UnusedMeansDisjoint(regions, n - 1, regions[n - 1]);
    }
  }

  /** No two blocks obtained from the host overlap. */
  lemma {:induction false} BlocksPairwiseDisjoint(blocks: seq<nat>, sizes: seq<nat>, m: nat)
    requires m <= |blocks| && m <= |sizes| && BlocksDisjointBelow(blocks, sizes, m)
    ensures forall i, j :: 0 <= i < j < m ==>
      blocks[i] + sizes[i] <= blocks[j] || blocks[j] + sizes[j] <= blocks[i]
  {
    if m > 0 {
      BlocksPairwiseDisjoint(blocks, sizes, m - 1);
    }
  }

  /** Recording a new region that overlaps no earlier region and not the cursor
      keeps the regions disjoint, in their blocks, and clear of the cursor. */
  lemma AppendRegion(regions: seq<Region>, r: Region, cursor: Region, blocks: seq<nat>, sizes: seq<nat>)
    requires RegionsInBlocks(regions, blocks, sizes) && RegionsDisjoint(regions)
    requires InBlock(r, blocks, sizes) && Unused(regions, r)
    requires Unused(regions, cursor) && Disjoint(r, cursor)
    ensures RegionsInBlocks(regions + [r], blocks, sizes) && RegionsDisjoint(regions + [r])
    ensures Unused(regions + [r], cursor)
  {
    InBlocksPrefix(regions, [r], |regions|, blocks, sizes);
    DisjointPrefix(regions, [r], |regions|);
    UnusedPrefix(regions, [r], |regions|, r);
    UnusedPrefix(regions, [r], |regions|, cursor);
  }

  /** The arena invariant over the values of its fields: disjoint blocks; every
      handed-out region in its block and no two overlapping; the cursor's free
      tail inside the current block and clear of every region; and the usage
      counter charging each block its size plus one pointer in blocks_. */
  ghost predicate Inv(allocPtr: nat, remaining: nat, current: nat, blocks: seq<nat>, sizes: seq<nat>,
                      regions: seq<Region>, usage: nat)
  {
    BlocksDisjoint(blocks, sizes) &&
    RegionsInBlocks(regions, blocks, sizes) && RegionsDisjoint(regions) &&
    InBlock(Region(allocPtr, remaining, current), blocks, sizes) &&
    Unused(regions, Region(allocPtr, remaining, current)) &&
    usage == Charge(sizes, |sizes|)
  }

  /** AllocateNewBlock keeps the invariant. */
  lemma NewBlockKeepsInv(allocPtr: nat, remaining: nat, current: nat, blocks: seq<nat>, sizes: seq<nat>,
                         regions: seq<Region>, usage: nat, addr: nat, n: nat)
    requires Inv(allocPtr, remaining, current, blocks, sizes, regions, usage)
    requires FreshBlock(addr, n, blocks, sizes)
    ensures Inv(allocPtr, remaining, current, blocks + [addr], sizes + [n], regions,
                usage + n + kPointerSize)
  {
    ChargePrefix(sizes, [n], |sizes|);
    BlocksDisjointPrefix(blocks, sizes, addr, n, |blocks|);
    InBlocksExtend(regions, |regions|, blocks, sizes, addr, n);
  }

  /** A region inside a new block overlaps no older region and not a cursor in
      an older block. */
  lemma NewBlockRegionUnused(r: Region, cursor: Region, blocks: seq<nat>, sizes: seq<nat>,
                             regions: seq<Region>, addr: nat, n: nat)
    requires |blocks| == |sizes| && RegionsInBlocks(regions, blocks, sizes)
    requires InBlock(cursor, blocks, sizes) && FreshBlock(addr, n, blocks, sizes)
    requires r.block == |blocks| && InBlock(r, blocks + [addr], sizes + [n])
    ensures Unused(regions, r) && Disjoint(r, cursor)
  {
    if r.size > 0 {
      assert (blocks + [addr])[r.block] == addr && (sizes + [n])[r.block] == n;
    }
    FreshBlockRegionUnused(regions, |regions|, r, blocks, sizes, addr, n);
  }

  /** The large-request path of AllocateFallback keeps the invariant. */
  lemma LargeFallbackKeepsInv(allocPtr: nat, remaining: nat, current: nat, blocks: seq<nat>,
                              sizes: seq<nat>, regions: seq<Region>, usage: nat, addr: nat, bytes: nat)
    requires Inv(allocPtr, remaining, current, blocks, sizes, regions, usage)
    requires FreshBlock(addr, bytes, blocks, sizes)
    ensures Inv(allocPtr, remaining, current, blocks + [addr], sizes + [bytes],
                regions + [Region(addr, bytes, |blocks|)], usage + bytes + kPointerSize)
    ensures Unused(regions, Region(addr, bytes, |blocks|))
  {
    var r := Region(addr, bytes, |blocks|);
    var cursor := Region(allocPtr, remaining, current);
    NewBlockKeepsInv(allocPtr, remaining, current, blocks, sizes, regions, usage, addr, bytes);
    NewBlockRegionUnused(r, cursor, blocks, sizes, regions, addr, bytes);
    AppendRegion(regions, r, cursor, blocks + [addr], sizes + [bytes]);
  }

  /** The small-request path of AllocateFallback keeps the invariant: the cursor
      moves to the new block, past the returned region. */
  lemma SmallFallbackKeepsInv(allocPtr: nat, remaining: nat, current: nat, blocks: seq<nat>,
                              sizes: seq<nat>, regions: seq<Region>, usage: nat, addr: nat, bytes: nat)
    requires Inv(allocPtr, remaining, current, blocks, sizes, regions, usage)
    requires FreshBlock(addr, kBlockSize, blocks, sizes) && bytes <= kBlockSize
    ensures Inv(addr + bytes, kBlockSize - bytes, |blocks|, blocks + [addr], sizes + [kBlockSize],
                regions + [Region(addr, bytes, |blocks|)], usage + kBlockSize + kPointerSize)
    ensures Unused(regions, Region(addr, bytes, |blocks|))
  {
    var r := Region(addr, bytes, |blocks|);
    var cursor := Region(allocPtr, remaining, current);
    var cursor' := Region(addr + bytes, kBlockSize - bytes, |blocks|);
    NewBlockKeepsInv(allocPtr, remaining, current, blocks, sizes, regions, usage, addr, kBlockSize);
    NewBlockRegionUnused(r, cursor, blocks, sizes, regions, addr, kBlockSize);
    NewBlockRegionUnused(cursor', cursor, blocks, sizes, regions, addr, kBlockSize);
    AppendRegion(regions, r, cursor', blocks + [addr], sizes + [kBlockSize]);
  }

  /** Serving bytes after `skip` bytes of padding from the cursor keeps the invariant. */
  lemma CursorAllocKeepsInv(allocPtr: nat, remaining: nat, current: nat, blocks: seq<nat>,
                            sizes: seq<nat>, regions: seq<Region>, usage: nat, skip: nat, bytes: nat)
    requires Inv(allocPtr, remaining, current, blocks, sizes, regions, usage)
    requires skip + bytes <= remaining
    ensures Inv(allocPtr + skip + bytes, remaining - skip - bytes, current, blocks, sizes,
                regions + [Region(allocPtr + skip, bytes, current)], usage)
    ensures Unused(regions, Region(allocPtr + skip, bytes, current))
  {
    var r := Region(allocPtr + skip, bytes, current);
    var cursor' := Region(allocPtr + skip + bytes, remaining - skip - bytes, current);
    var cursor := Region(allocPtr, remaining, current);
    UnusedWithin(regions, |regions|, cursor, r);
    UnusedWithin(regions, |regions|, cursor, cursor');
    AppendRegion(regions, r, cursor', blocks, sizes);
  }

  /** A range that is fresh and misses a new block stays fresh once the block is recorded. */
  lemma FreshAfterBlock(a: nat, n: nat, blocks: seq<nat>, sizes: seq<nat>, addr: nat, size: nat)
    requires |blocks| == |sizes| && FreshBlock(a, n, blocks, sizes)
    requires a + n <= addr || addr + size <= a
    ensures FreshBlock(a, n, blocks + [addr], sizes + [size])
  {
    var bs, ss := blocks + [addr], sizes + [size];
    forall i | 0 <= i < |bs| && i < |ss|
      ensures a + n <= bs[i] || bs[i] + ss[i] <= a
    {
      if i < |blocks| {
        assert bs[i] == blocks[i] && ss[i] == sizes[i];
      }
    }
  }

  /** The bytes of the handed-out regions, all together. */
  function RegionBytes(regions: seq<Region>): nat
  {
    if regions == [] then 0 else RegionBytes(regions[..|regions| - 1]) + regions[|regions| - 1].size
  }

  lemma RegionBytesAppend(regions: seq<Region>, r: Region)
    ensures RegionBytes(regions + [r]) == RegionBytes(regions) + r.size
  {
    assert (regions + [r])[..|regions|] == regions;
  }

  /** The size of the block AllocateFallback(bytes) requests from the host. */
  function FallbackBlockSize(bytes: nat): nat
  {
    if bytes > kBlockSize / 4 then bytes else kBlockSize
  }

  class Arena {
    /** alloc_ptr_: the cursor into the current block (0 before the first block). */
    var allocPtr: nat
    /** alloc_bytes_remaining_: bytes left after the cursor in the current block. */
    var allocBytesRemaining: nat
    /** memory_usage_. */
    var memoryUsage: nat
    /** blocks_: the start address of every block obtained so far. */
    var blocks: seq<nat>
    /** The size each block was requested with. */
    ghost var blockSizes: seq<nat>
    /** Every region handed out so far. */
    ghost var regions: seq<Region>
    /** The block the cursor points into. */
    ghost var current: nat

    /** The invariant, and the usage counter covering every byte handed
        out plus the bytes still free at the cursor. */
    ghost predicate Valid()
      reads this
    {
      Inv(allocPtr, allocBytesRemaining, current, blocks, blockSizes, regions, memoryUsage) &&
      RegionBytes(regions) + allocBytesRemaining <= memoryUsage
    }

    /** MemoryUsage() is at least the sum of the sizes of all requests served. */
    lemma UsageCoversRequests()
      requires Valid()
      ensures RegionBytes(regions) <= MemoryUsage()
    {
    }

    /** The host may hand out [addr, addr + n) for a new block. */
    ghost predicate HostFresh(addr: nat, n: nat)
      reads this
    {
      addr > 0 && addr % kAlign == 0 && FreshBlock(addr, n, blocks, blockSizes)
    }

    /** Arena(): no usage and nothing remaining, so the first allocation takes
        the fallback path. */
    constructor ()
      ensures Valid()
      ensures memoryUsage == 0 && allocPtr == 0 && allocBytesRemaining == 0
      ensures blocks == [] && regions == []
    {
      allocPtr := 0;
      allocBytesRemaining := 0;
      memoryUsage := 0;
      blocks := [];
      blockSizes := [];
      regions := [];
      current := 0;
    }

    /** MemoryUsage() (arena.h): the running total of block bytes and block pointers. */
    function MemoryUsage(): (usage: nat)
      reads this
      requires Valid()
      ensures usage == Sum(blockSizes) + kPointerSize * |blocks|
    {
      ChargeIsSum(blockSizes);
      memoryUsage
    }

    /** AllocateNewBlock: records a fresh block and charges its size plus a pointer. */
    method AllocateNewBlock(blockBytes: nat, addr: nat) returns (result: nat)
      requires Valid() && HostFresh(addr, blockBytes)
      modifies this
      ensures Valid()
      ensures result == addr
      ensures blocks == old(blocks) + [addr] && blockSizes == old(blockSizes) + [blockBytes]
      ensures memoryUsage == old(memoryUsage) + blockBytes + kPointerSize
      ensures allocPtr == old(allocPtr) && allocBytesRemaining == old(allocBytesRemaining)
      ensures regions == old(regions) && current == old(current)
    {
      NewBlockKeepsInv(allocPtr, allocBytesRemaining, current, blocks, blockSizes, regions,
                       memoryUsage, addr, blockBytes);
      result := addr;
      blocks := blocks + [result];
      blockSizes := blockSizes + [blockBytes];
      memoryUsage := memoryUsage + blockBytes + kPointerSize;
    }

    /** AllocateFallback: a request over a quarter block gets a block of its own
        and leaves the cursor alone; a smaller one abandons the current block's
        tail, starts a fresh 4096-byte block and is served from its start. */
    method AllocateFallback(bytes: nat, addr: nat) returns (result: nat)
      requires Valid() && HostFresh(addr, FallbackBlockSize(bytes))
      modifies this
      ensures Valid()
      ensures result == addr && result % kAlign == 0
      ensures blocks == old(blocks) + [addr] && blockSizes == old(blockSizes) + [FallbackBlockSize(bytes)]
      ensures memoryUsage == old(memoryUsage) + FallbackBlockSize(bytes) + kPointerSize
      ensures bytes > kBlockSize / 4 ==>
        allocPtr == old(allocPtr) && allocBytesRemaining == old(allocBytesRemaining) && current == old(current)
      ensures bytes <= kBlockSize / 4 ==>
        allocPtr == addr + bytes && allocBytesRemaining == kBlockSize - bytes && current == |old(blocks)|
      ensures regions == old(regions) + [Region(result, bytes, |old(blocks)|)]
      ensures Unused(old(regions), Region(result, bytes, |old(blocks)|))
    {
      if bytes > kBlockSize / 4 {
        // More than a quarter of a block: a block of its own, so that the
        // current block's tail is not wasted.
        LargeFallbackKeepsInv(allocPtr, allocBytesRemaining, current, blocks, blockSizes, regions,
                              memoryUsage, addr, bytes);
        RegionBytesAppend(regions, Region(addr, bytes, |blocks|));
        result := AllocateNewBlock(bytes, addr);
        regions := regions + [Region(result, bytes, |blocks| - 1)];
        return;
      }
      // The rest of the current block is wasted.
      SmallFallbackKeepsInv(allocPtr, allocBytesRemaining, current, blocks, blockSizes, regions,
                            memoryUsage, addr, bytes);
      RegionBytesAppend(regions, Region(addr, bytes, |blocks|));
      allocPtr := AllocateNewBlock(kBlockSize, addr);
      allocBytesRemaining := kBlockSize;
      current := |blocks| - 1;
      result := allocPtr;
      allocPtr := allocPtr + bytes;
      allocBytesRemaining := allocBytesRemaining - bytes;
      regions := regions + [Region(result, bytes, current)];
    }

    /** The fast path shared by Allocate and AllocateAligned: skip bytes of
        padding, then bytes for the caller, taken from the current block. */
    method Carve(skip: nat, bytes: nat) returns (result: nat)
      requires Valid() && skip + bytes <= allocBytesRemaining
      modifies this
      ensures Valid()
      ensures result == old(allocPtr) + skip
      ensures allocPtr == old(allocPtr) + skip + bytes
      ensures allocBytesRemaining == old(allocBytesRemaining) - skip - bytes
      ensures blocks == old(blocks) && blockSizes == old(blockSizes) && memoryUsage == old(memoryUsage)
      ensures current == old(current)
      ensures regions == old(regions) + [Region(result, bytes, current)]
      ensures Unused(old(regions), Region(result, bytes, current))
    {
      CursorAllocKeepsInv(allocPtr, allocBytesRemaining, current, blocks, blockSizes, regions,
                          memoryUsage, skip, bytes);
      RegionBytesAppend(regions, Region(allocPtr + skip, bytes, current));
      result := allocPtr + skip;
      allocPtr := allocPtr + skip + bytes;
      allocBytesRemaining := allocBytesRemaining - skip - bytes;
      regions := regions + [Region(result, bytes, current)];
    }

    /** AllocateAligned: the result is a multiple of align. On the fast path it
        is the cursor plus the slop, and bytes + slop are consumed; otherwise
        the request goes to AllocateFallback, whose blocks are aligned. */
    method AllocateAligned(bytes: nat, addr: nat) returns (result: nat)
      requires Valid() && HostFresh(addr, FallbackBlockSize(bytes))
      modifies this
      ensures Valid()
      ensures result % kAlign == 0
      ensures memoryUsage >= old(memoryUsage)
      ensures var needed := bytes + Slop(old(allocPtr));
        if needed <= old(allocBytesRemaining) then
          result == old(allocPtr) + Slop(old(allocPtr)) &&
          allocPtr == old(allocPtr) + needed &&
          allocBytesRemaining == old(allocBytesRemaining) - needed &&
          blocks == old(blocks) && blockSizes == old(blockSizes) && memoryUsage == old(memoryUsage) &&
          regions == old(regions) + [Region(result, bytes, old(current))] &&
          Unused(old(regions), Region(result, bytes, old(current)))
        else
          result == addr && blocks == old(blocks) + [addr] &&
          blockSizes == old(blockSizes) + [FallbackBlockSize(bytes)] &&
          memoryUsage == old(memoryUsage) + FallbackBlockSize(bytes) + kPointerSize &&
          regions == old(regions) + [Region(result, bytes, |old(blocks)|)] &&
          Unused(old(regions), Region(result, bytes, |old(blocks)|)) &&
          (bytes > kBlockSize / 4 ==>
             allocPtr == old(allocPtr) && allocBytesRemaining == old(allocBytesRemaining) &&
             current == old(current)) &&
          (bytes <= kBlockSize / 4 ==>
             allocPtr == addr + bytes && allocBytesRemaining == kBlockSize - bytes &&
             current == |old(blocks)|)
    {
      var align := kAlign;
      var currentMod := allocPtr % align;
      var slop := if currentMod == 0 then 0 else align - currentMod;
      assert slop == Slop(allocPtr);
      var needed := bytes + slop;
      if needed <= allocBytesRemaining {
        result := Carve(slop, bytes);
      } else {
        result := AllocateFallback(bytes, addr);
      }
    }

    /** Allocate (arena.h): bytes > 0; served from the cursor when it fits,
        otherwise by AllocateFallback. */
    method Allocate(bytes: nat, addr: nat) returns (result: nat)
      requires bytes > 0
      requires Valid() && HostFresh(addr, FallbackBlockSize(bytes))
      modifies this
      ensures Valid()
      ensures memoryUsage >= old(memoryUsage)
      ensures if bytes <= old(allocBytesRemaining) then
          result == old(allocPtr) && allocPtr == old(allocPtr) + bytes &&
          allocBytesRemaining == old(allocBytesRemaining) - bytes &&
          blocks == old(blocks) && blockSizes == old(blockSizes) && memoryUsage == old(memoryUsage) &&
          regions == old(regions) + [Region(result, bytes, old(current))] &&
          Unused(old(regions), Region(result, bytes, old(current)))
        else
          result == addr && blocks == old(blocks) + [addr] &&
          blockSizes == old(blockSizes) + [FallbackBlockSize(bytes)] &&
          memoryUsage == old(memoryUsage) + FallbackBlockSize(bytes) + kPointerSize &&
          regions == old(regions) + [Region(result, bytes, |old(blocks)|)] &&
          Unused(old(regions), Region(result, bytes, |old(blocks)|)) &&
          (bytes > kBlockSize / 4 ==>
             allocPtr == old(allocPtr) && allocBytesRemaining == old(allocBytesRemaining) &&
             current == old(current)) &&
          (bytes <= kBlockSize / 4 ==>
             allocPtr == addr + bytes && allocBytesRemaining == kBlockSize - bytes &&
             current == |old(blocks)|)
    {
      if bytes <= allocBytesRemaining {
        result := Carve(0, bytes);
        return;
      }
      result := AllocateFallback(bytes, addr);
    }
  }
}
